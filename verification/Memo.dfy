/** The cache of traces and trip counts, whose queries read each other while they are being computed. */
module Memo {
  import opened Wrappers
  import Sets

  // A value whose trace, or a loop whose trip count, is cached.
  type Key = nat

  // What a computation does next: end, query a key in a context (its depth), or record a cut.
  datatype Action<T> = Answer(value: T) | Query(key: Key, ctx: nat) | Cut(key: Key)

  // What the computation of a key has seen so far: the result of each query, none for a cut.
  type Seen<T> = seq<Option<T>>

  /**
   * The computations behind the cache, each a function of what it has seen. `left` bounds the steps it still takes;
   * `unfinished` stands for a key being computed, and `settle` decides between a result and the one it was
   * computed again with.
   */
  datatype Queries<!T> = Queries(
    keys: set<Key>,
    next: (Key, nat, Seen<T>) -> Action<T>,
    left: (Key, nat, Seen<T>) -> nat,
    unfinished: Key -> T,
    settle: (Key, T, T) -> T)

  ghost predicate Valid<T(!new)>(q: Queries<T>) {
    && (forall k: Key, ctx: nat, seen: Seen<T> :: !q.next(k, ctx, seen).Answer? ==> q.next(k, ctx, seen).key in q.keys)
    && (forall k: Key, ctx: nat, seen: Seen<T>, more: Option<T> ::
          !q.next(k, ctx, seen).Answer? ==> q.left(k, ctx, seen + [more]) < q.left(k, ctx, seen))
  }

  datatype Slot<T> = InProgress(frame: nat) | Candidate(frame: nat, value: T) | Done(value: T)

  // `provisional` is none where the source holds usize::MAX, which no frame reaches.
  datatype Cache<T> = Cache(slots: map<Key, Slot<T>>, frames: nat, provisional: Option<nat>, cut: Option<Key>)

  predicate Busy<T>(c: Cache<T>, k: Key) {
    k in c.slots && !c.slots[k].Done?
  }

  ghost function Free<T>(q: Queries<T>, c: Cache<T>): nat {
    |set k | k in q.keys && !Busy(c, k)|
  }

  // The outermost of two frames, none being outside every number.
  function Outermost(a: Option<nat>, b: Option<nat>): Option<nat> {
    match (a, b)
    case (None, _) => b
    case (_, None) => a
    case (Some(x), Some(y)) => Some(if x < y then x else y)
  }

  predicate Within(read: Option<nat>, frame: nat) {
    read == None || read.value >= frame
  }

  /** What every query keeps: the frame count, the slots being computed, and every result. */
  ghost predicate Kept<T>(c: Cache<T>, d: Cache<T>) {
    && d.frames == c.frames
    && (forall k: Key :: Busy(c, k) || Busy(d, k) ==> k in c.slots && k in d.slots && c.slots[k] == d.slots[k])
    && (forall k: Key :: k in c.slots ==> k in d.slots && d.slots[k] == c.slots[k])
  }

  // The last cut is one of a known key, if any came after `c`.
  ghost predicate CutFrom<T>(q: Queries<T>, c: Cache<T>, d: Cache<T>) {
    d.cut == c.cut || (d.cut.Some? && d.cut.value in q.keys)
  }

  // A query of a key that has a slot: only reading one still being computed leaves a trace of it.
  function Found<T>(q: Queries<T>, k: Key, c: Cache<T>): (T, Cache<T>)
    requires k in c.slots
  {
    match c.slots[k]
    case Done(t) => (t, c)
    case InProgress(frame) => (q.unfinished(k), c.(provisional := Outermost(c.provisional, Some(frame))))
    case Candidate(frame, t) => (t, c.(provisional := Outermost(c.provisional, Some(frame))))
  }

  // The cache with a frame begun for `k`.
  function Opened<T>(c: Cache<T>, k: Key): Cache<T> {
    c.(slots := c.slots[k := InProgress(c.frames + 1)], frames := c.frames + 1, provisional := None)
  }

  // The cache with the frame of `k` ended, its result kept unless it read a frame outside its own.
  function Closed<T>(c: Cache<T>, k: Key, t: T, outer: Option<nat>): Cache<T>
    requires c.frames > 0
  {
    if Within(c.provisional, c.frames) then
      c.(slots := c.slots[k := Done(t)], frames := c.frames - 1, provisional := outer)
    else
      c.(slots := c.slots - {k}, frames := c.frames - 1, provisional := Outermost(outer, c.provisional))
  }

  lemma FreeDrops<T>(q: Queries<T>, c: Cache<T>, d: Cache<T>, k: Key)
    requires k in q.keys && !Busy(c, k) && Busy(d, k)
    requires forall j: Key :: Busy(c, j) ==> Busy(d, j)
    ensures Free(q, d) < Free(q, c)
  {
    var before := set j | j in q.keys && !Busy(c, j);
    var after := set j | j in q.keys && !Busy(d, j);
    assert after <= before - {k};
    Sets.SubsetSize(after, before - {k});
  }

  lemma SameFree<T>(q: Queries<T>, c: Cache<T>, d: Cache<T>)
    requires Kept(c, d)
    ensures Free(q, d) == Free(q, c)
  {
    assert (set j | j in q.keys && !Busy(c, j)) == (set j | j in q.keys && !Busy(d, j));
  }

  /** Closing a frame on a cache that kept the one it opened, or the one with its candidate, keeps the cache before. */
  lemma KeptClosed<T>(c: Cache<T>, begun: Cache<T>, d: Cache<T>, k: Key, t: T)
    requires k !in c.slots && Kept(begun, d) && Busy(begun, k)
    requires begun.frames == c.frames + 1
    requires forall j: Key | j != k :: j in c.slots ==> j in begun.slots && begun.slots[j] == c.slots[j]
    requires forall j: Key | j != k :: Busy(begun, j) ==> j in c.slots
    ensures Kept(c, Closed(d, k, t, c.provisional))
  {
    var e := Closed(d, k, t, c.provisional);
    forall j: Key | Busy(c, j) || Busy(e, j) ensures j in c.slots && j in e.slots && c.slots[j] == e.slots[j] {
      if j != k {
        assert Busy(begun, j) || Busy(d, j);
      }
    }
  }

  /** A key's result, cached, unfinished or computed, and the cache after it. */
  function Memoized<T(==,!new)>(q: Queries<T>, k: Key, ctx: nat, c: Cache<T>): (r: (T, Cache<T>))
    requires Valid(q) && k in q.keys
    ensures Kept(c, r.1) && CutFrom(q, c, r.1)
    decreases Free(q, c), 0, 0
  {
    if k in c.slots then Found(q, k, c) else
    var c1 := Opened(c, k);
    FreeDrops(q, c, c1, k);
    var (t, c2) := Evaluate(q, k, ctx, [], c1);
    if c2.provisional != Some(c1.frames) then
      KeptClosed(c, c1, c2, k, t);
      (t, Closed(c2, k, t, c.provisional))
    else
    var c3 := c2.(slots := c2.slots[k := Candidate(c1.frames, t)]);
    Proposed(c, c1, c2, c3, k);
    FreeDrops(q, c, c3, k);
    var (again, c4) := Evaluate(q, k, ctx, [], c3);
    var last := if again == t then t else q.settle(k, t, again);
    KeptClosed(c, c3, c4, k, last);
    (last, Closed(c4, k, last, c.provisional))
  }

  lemma Proposed<T>(c: Cache<T>, c1: Cache<T>, c2: Cache<T>, c3: Cache<T>, k: Key)
    requires k !in c.slots && c1 == Opened(c, k) && Kept(c1, c2) && c3.frames == c2.frames
    requires k in c3.slots && c3.slots == c2.slots[k := c3.slots[k]] && !c3.slots[k].Done?
    ensures Busy(c3, k) && !Busy(c, k)
    ensures forall j: Key :: Busy(c, j) ==> Busy(c3, j)
    ensures forall j: Key | j != k :: j in c.slots ==> j in c3.slots && c3.slots[j] == c.slots[j]
    ensures forall j: Key | j != k :: Busy(c3, j) ==> j in c.slots
  {
    forall j: Key | j != k && Busy(c3, j) ensures j in c.slots {
      assert Busy(c2, j);
    }
    forall j: Key | Busy(c, j) ensures Busy(c3, j) {
      assert Busy(c1, j);
    }
  }

  /** The rest of `k`'s computation from what it has seen, and the cache after it. */
  function Evaluate<T(==,!new)>(q: Queries<T>, k: Key, ctx: nat, seen: Seen<T>, c: Cache<T>): (r: (T, Cache<T>))
    requires Valid(q)
    ensures Kept(c, r.1) && CutFrom(q, c, r.1)
    decreases Free(q, c), 1, q.left(k, ctx, seen)
  {
    match q.next(k, ctx, seen)
    case Answer(t) => (t, c)
    case Cut(j) =>
      var d := c.(provisional := Some(0), cut := Some(j));
      SameFree(q, c, d);
      Evaluate(q, k, ctx, seen + [None], d)
    case Query(j, at) =>
      var (t, d) := Memoized(q, j, at, c);
      SameFree(q, c, d);
      Evaluate(q, k, ctx, seen + [Some(t)], d)
  }

  // What a computation read in progress

  // The frames `k`'s query reads in progress, a cut counting as frame 0.
  ghost function QueryReads<T(!new)>(q: Queries<T>, k: Key, ctx: nat, c: Cache<T>): set<nat>
    requires Valid(q) && k in q.keys
    decreases Free(q, c), 0, 1
  {
    if k in c.slots then (if c.slots[k].Done? then {} else {c.slots[k].frame}) else OwnReads(q, k, ctx, c)
  }

  // The frames the computation of `k` reads in progress, computed again or not.
  ghost function OwnReads<T(!new)>(q: Queries<T>, k: Key, ctx: nat, c: Cache<T>): set<nat>
    requires Valid(q) && k in q.keys && k !in c.slots
    decreases Free(q, c), 0, 0
  {
    var c1 := Opened(c, k);
    FreeDrops(q, c, c1, k);
    var (t, c2) := Evaluate(q, k, ctx, [], c1);
    if c2.provisional != Some(c1.frames) then Reads(q, k, ctx, [], c1) else
    var c3 := c2.(slots := c2.slots[k := Candidate(c1.frames, t)]);
    Proposed(c, c1, c2, c3, k);
    FreeDrops(q, c, c3, k);
    Reads(q, k, ctx, [], c1) + Reads(q, k, ctx, [], c3)
  }

  // The frames the rest of a computation reads in progress.
  ghost function Reads<T(!new)>(q: Queries<T>, k: Key, ctx: nat, seen: Seen<T>, c: Cache<T>): set<nat>
    requires Valid(q)
    decreases Free(q, c), 1, q.left(k, ctx, seen)
  {
    match q.next(k, ctx, seen)
    case Answer(t) => {}
    case Cut(j) =>
      var d := c.(provisional := Some(0), cut := Some(j));
      SameFree(q, c, d);
      {0} + Reads(q, k, ctx, seen + [None], d)
    case Query(j, at) =>
      var (t, d) := Memoized(q, j, at, c);
      SameFree(q, c, d);
      QueryReads(q, j, at, c) + Reads(q, k, ctx, seen + [Some(t)], d)
  }

  ghost predicate AllFrom(frames: set<nat>, b: nat) {
    forall r :: r in frames ==> r >= b
  }

  /** `provisional` is the least of what it was and the frames read, as far out as the frame being computed. */
  lemma {:induction false} ProvisionalIsLeast<T(!new)>(q: Queries<T>, k: Key, ctx: nat, seen: Seen<T>, c: Cache<T>,
                                                b: nat)
    requires Valid(q) && 0 < b <= c.frames
    ensures Within(Evaluate(q, k, ctx, seen, c).1.provisional, b) <==>
            Within(c.provisional, b) && AllFrom(Reads(q, k, ctx, seen, c), b)
    decreases Free(q, c), 1, q.left(k, ctx, seen)
  {
    match q.next(k, ctx, seen)
    case Answer(_) =>
    case Cut(j) =>
      var d := c.(provisional := Some(0), cut := Some(j));
      SameFree(q, c, d);
      ProvisionalIsLeast(q, k, ctx, seen + [None], d, b);
      assert 0 in Reads(q, k, ctx, seen, c);
    case Query(j, at) =>
      var (t, d) := Memoized(q, j, at, c);
      SameFree(q, c, d);
      QueryIsLeast(q, j, at, c, b);
      ProvisionalIsLeast(q, k, ctx, seen + [Some(t)], d, b);
      assert Reads(q, k, ctx, seen, c) == QueryReads(q, j, at, c) + Reads(q, k, ctx, seen + [Some(t)], d);
  }

  lemma {:induction false} QueryIsLeast<T(!new)>(q: Queries<T>, k: Key, ctx: nat, c: Cache<T>, b: nat)
    requires Valid(q) && k in q.keys && 0 < b <= c.frames
    ensures Within(Memoized(q, k, ctx, c).1.provisional, b) <==>
            Within(c.provisional, b) && AllFrom(QueryReads(q, k, ctx, c), b)
    decreases Free(q, c), 0, 1
  {
    if k !in c.slots {
      OwnIsLeast(q, k, ctx, c, b);
    }
  }

  // The cache a computed key's frame ends on.
  ghost function Ended<T(!new)>(q: Queries<T>, k: Key, ctx: nat, c: Cache<T>): (T, Cache<T>)
    requires Valid(q) && k in q.keys && k !in c.slots
  {
    var c1 := Opened(c, k);
    FreeDrops(q, c, c1, k);
    var (t, c2) := Evaluate(q, k, ctx, [], c1);
    if c2.provisional != Some(c1.frames) then (t, c2) else
    var c3 := c2.(slots := c2.slots[k := Candidate(c1.frames, t)]);
    var (again, c4) := Evaluate(q, k, ctx, [], c3);
    (if again == t then t else q.settle(k, t, again), c4)
  }

  lemma {:induction false} OwnIsLeast<T(!new)>(q: Queries<T>, k: Key, ctx: nat, c: Cache<T>, b: nat)
    requires Valid(q) && k in q.keys && k !in c.slots && 0 < b <= c.frames + 1
    ensures Within(Ended(q, k, ctx, c).1.provisional, b) <==> AllFrom(OwnReads(q, k, ctx, c), b)
    decreases Free(q, c), 0, 0
  {
    var c1 := Opened(c, k);
    FreeDrops(q, c, c1, k);
    ProvisionalIsLeast(q, k, ctx, [], c1, b);
    var (t, c2) := Evaluate(q, k, ctx, [], c1);
    if c2.provisional == Some(c1.frames) {
      var c3 := c2.(slots := c2.slots[k := Candidate(c1.frames, t)]);
      Proposed(c, c1, c2, c3, k);
      FreeDrops(q, c, c3, k);
      ProvisionalIsLeast(q, k, ctx, [], c3, b);
    }
  }

  /**
   * A computed result is kept exactly when its computation read no frame in progress outside its own and cut nothing.
   */
  lemma KeptExactlyWhen<T(!new)>(q: Queries<T>, k: Key, ctx: nat, c: Cache<T>)
    requires Valid(q) && k in q.keys && k !in c.slots
    ensures var (t, d) := Memoized(q, k, ctx, c);
      && (k in d.slots <==> forall r :: r in OwnReads(q, k, ctx, c) ==> r > c.frames)
      && (k in d.slots ==> d.slots[k] == Done(t))
  {
    OwnIsLeast(q, k, ctx, c, c.frames + 1);
  }

  // A kept result is the one the finished results alone give

  // Every slot being computed belongs to one of the frames begun.
  ghost predicate Numbered<T>(c: Cache<T>) {
    forall k: Key :: Busy(c, k) ==> 0 < c.slots[k].frame <= c.frames
  }

  // The cache outside every computation, with the same results.
  ghost function Alone<T>(c: Cache<T>): Cache<T> {
    Cache(map k | k in c.slots && c.slots[k].Done? :: c.slots[k], 0, None, c.cut)
  }

  // A slot of the cache with `b` frames begun less.
  ghost function Renumbered<T>(s: Slot<T>, b: nat): Slot<T>
    requires s.Done? || s.frame > b
  {
    match s
    case Done(_) => s
    case InProgress(f) => InProgress(f - b)
    case Candidate(f, t) => Candidate(f - b, t)
  }

  // `d` has the slots of `c` but those of its outermost `b` frames.
  ghost predicate Shed<T>(c: Cache<T>, d: Cache<T>, b: nat) {
    && c.frames == d.frames + b
    && (forall k: Key :: k in d.slots <==> k in c.slots && (c.slots[k].Done? || c.slots[k].frame > b))
    && (forall k: Key :: k in d.slots ==> d.slots[k] == Renumbered(c.slots[k], b))
  }

  // The same, and nothing of those frames was read since.
  ghost predicate Inner<T>(c: Cache<T>, d: Cache<T>, b: nat) {
    && Shed(c, d, b)
    && Within(c.provisional, b + 1)
    && d.provisional == (if c.provisional == None then None else Some(c.provisional.value - b))
  }

  lemma ReadStays<T(!new)>(q: Queries<T>, k: Key, ctx: nat, seen: Seen<T>, c: Cache<T>, b: nat)
    requires Valid(q) && b <= c.frames && Within(Evaluate(q, k, ctx, seen, c).1.provisional, b)
    ensures Within(c.provisional, b)
  {
    if b > 0 {
      ProvisionalIsLeast(q, k, ctx, seen, c, b);
    }
  }

  /** A computation that reads nothing of the outermost `b` frames goes the same way without them. */
  lemma {:induction false} SameWithout<T(!new)>(q: Queries<T>, k: Key, ctx: nat, seen: Seen<T>, c: Cache<T>,
                                         d: Cache<T>, b: nat)
    requires Valid(q) && Inner(c, d, b) && b < c.frames
    requires Within(Evaluate(q, k, ctx, seen, c).1.provisional, b + 1)
    ensures Evaluate(q, k, ctx, seen, d).0 == Evaluate(q, k, ctx, seen, c).0
    ensures Inner(Evaluate(q, k, ctx, seen, c).1, Evaluate(q, k, ctx, seen, d).1, b)
    decreases Free(q, c), 1, q.left(k, ctx, seen)
  {
    match q.next(k, ctx, seen)
    case Answer(_) =>
    case Cut(j) =>
      var e := c.(provisional := Some(0), cut := Some(j));
      SameFree(q, c, e);
      ReadStays(q, k, ctx, seen + [None], e, b + 1);
    case Query(j, at) =>
      var (t, e) := Memoized(q, j, at, c);
      SameFree(q, c, e);
      ReadStays(q, k, ctx, seen + [Some(t)], e, b + 1);
      QuerySameWithout(q, j, at, c, d, b);
      SameWithout(q, k, ctx, seen + [Some(t)], e, Memoized(q, j, at, d).1, b);
  }

  lemma {:induction false} QuerySameWithout<T(!new)>(q: Queries<T>, k: Key, ctx: nat, c: Cache<T>, d: Cache<T>, b: nat)
    requires Valid(q) && k in q.keys && Inner(c, d, b) && b < c.frames
    requires Within(Memoized(q, k, ctx, c).1.provisional, b + 1)
    ensures Memoized(q, k, ctx, d).0 == Memoized(q, k, ctx, c).0
    ensures Inner(Memoized(q, k, ctx, c).1, Memoized(q, k, ctx, d).1, b)
    decreases Free(q, c), 0, 1
  {
    if k !in c.slots {
      MemoizedEnds(q, k, ctx, c);
      MemoizedEnds(q, k, ctx, d);
      EndsSameWithout(q, k, ctx, c, d, b);
      ClosedSameWithout(q, k, ctx, c, d, b);
    }
  }

  lemma MemoizedEnds<T(!new)>(q: Queries<T>, k: Key, ctx: nat, c: Cache<T>)
    requires Valid(q) && k in q.keys && k !in c.slots
    ensures var (t, d) := Ended(q, k, ctx, c);
      && d.frames == c.frames + 1
      && Memoized(q, k, ctx, c) == (t, Closed(d, k, t, c.provisional))
      && Kept(c, Memoized(q, k, ctx, c).1)
  {
  }

  lemma ClosedSameWithout<T(!new)>(q: Queries<T>, k: Key, ctx: nat, c: Cache<T>, d: Cache<T>, b: nat)
    requires Valid(q) && k in q.keys && k !in c.slots && k !in d.slots
    requires Inner(c, d, b) && Inner(Ended(q, k, ctx, c).1, Ended(q, k, ctx, d).1, b)
    requires Ended(q, k, ctx, c).0 == Ended(q, k, ctx, d).0 && Ended(q, k, ctx, c).1.frames == c.frames + 1
    ensures var (t, e) := Ended(q, k, ctx, c);
      Inner(Closed(e, k, t, c.provisional), Closed(Ended(q, k, ctx, d).1, k, t, d.provisional), b)
  {
    hide Ended;
  }

  lemma OpenedSameWithout<T>(c: Cache<T>, d: Cache<T>, k: Key, b: nat)
    requires Shed(c, d, b) && k !in c.slots
    ensures Inner(Opened(c, k), Opened(d, k), b)
    ensures k !in d.slots && c.frames == d.frames + b
  {
  }

  lemma ProposedSameWithout<T>(c: Cache<T>, d: Cache<T>, k: Key, frame: nat, t: T, b: nat)
    requires Inner(c, d, b) && frame > b
    ensures Inner(c.(slots := c.slots[k := Candidate(frame, t)]), d.(slots := d.slots[k := Candidate(frame - b, t)]), b)
  {
  }

  /** A key's computation that reads nothing of the outermost `b` frames ends the same way without them. */
  lemma {:induction false} EndsSameWithout<T(!new)>(q: Queries<T>, k: Key, ctx: nat, c: Cache<T>, d: Cache<T>, b: nat)
    requires Valid(q) && k in q.keys && k !in c.slots && Shed(c, d, b) && b <= c.frames
    requires Within(Ended(q, k, ctx, c).1.provisional, b + 1)
    ensures Ended(q, k, ctx, d).0 == Ended(q, k, ctx, c).0
    ensures Inner(Ended(q, k, ctx, c).1, Ended(q, k, ctx, d).1, b)
    decreases Free(q, c), 0, 0
  {
    hide Inner, Shed, Memoized, Evaluate;
    var c1, d1 := Opened(c, k), Opened(d, k);
    FreeDrops(q, c, c1, k);
    OpenedSameWithout(c, d, k, b);
    SameWithout(q, k, ctx, [], c1, d1, b);
    var (t, c2) := Evaluate(q, k, ctx, [], c1);
    var d2 := Evaluate(q, k, ctx, [], d1).1;
    assert (c2.provisional == Some(c1.frames)) == (d2.provisional == Some(d1.frames)) by { InnerProvisional(c2, d2, b); }
    if c2.provisional == Some(c1.frames) {
      var c3 := c2.(slots := c2.slots[k := Candidate(c1.frames, t)]);
      Proposed(c, c1, c2, c3, k);
      FreeDrops(q, c, c3, k);
      ProposedSameWithout(c2, d2, k, c1.frames, t, b);
      SameWithout(q, k, ctx, [], c3, d2.(slots := d2.slots[k := Candidate(d1.frames, t)]), b);
    }
  }

  lemma InnerProvisional<T>(c: Cache<T>, d: Cache<T>, b: nat)
    requires Inner(c, d, b)
    ensures d.provisional == (if c.provisional == None then None else Some(c.provisional.value - b))
  {
  }

  lemma AloneSheds<T>(c: Cache<T>)
    requires Numbered(c)
    ensures Shed(c, Alone(c), c.frames)
  {
  }

  lemma ClosedAlone<T>(c: Cache<T>, e: Cache<T>, f: Cache<T>, k: Key, t: T)
    requires Numbered(c) && k !in c.slots && e.frames == c.frames + 1 && Inner(e, f, c.frames)
    requires Kept(c, Closed(e, k, t, c.provisional)) && Kept(Alone(c), Closed(f, k, t, None))
    ensures Closed(f, k, t, None).slots == Alone(Closed(e, k, t, c.provisional)).slots
  {
    var x, y := Closed(f, k, t, None).slots, Alone(Closed(e, k, t, c.provisional)).slots;
    forall j: Key ensures (j in x <==> j in y) && (j in x ==> x[j] == y[j]) {
      assert j in x ==> !Busy(Closed(f, k, t, None), j);
      assert Busy(Closed(e, k, t, c.provisional), j) ==> Busy(c, j);
    }
  }

  /** A result kept while other keys are being computed is the one the finished results alone give. */
  lemma KeptIsOutermost<T(!new)>(q: Queries<T>, k: Key, ctx: nat, c: Cache<T>)
    requires Valid(q) && k in q.keys && Numbered(c) && k !in c.slots
    requires k in Memoized(q, k, ctx, c).1.slots
    ensures Memoized(q, k, ctx, Alone(c)).0 == Memoized(q, k, ctx, c).0
    ensures Memoized(q, k, ctx, Alone(c)).1.slots == Alone(Memoized(q, k, ctx, c).1).slots
  {
    hide Ended, Memoized, Shed, Inner, Kept, Numbered;
    MemoizedEnds(q, k, ctx, c);
    MemoizedEnds(q, k, ctx, Alone(c));
    AloneSheds(c);
    EndsSameWithout(q, k, ctx, c, Alone(c), c.frames);
    var (t, e) := Ended(q, k, ctx, c);
    ClosedAlone(c, e, Ended(q, k, ctx, Alone(c)).1, k, t);
  }

  // Queries that never come back to themselves

  // The result of the rest of a computation whose queries `meaning` answers.
  ghost function Direct<T(!new)>(q: Queries<T>, k: Key, ctx: nat, seen: Seen<T>, meaning: Key -> T): T
    requires Valid(q)
    decreases q.left(k, ctx, seen)
  {
    match q.next(k, ctx, seen)
    case Answer(t) => t
    case Cut(_) => Direct(q, k, ctx, seen + [None], meaning)
    case Query(j, _) => Direct(q, k, ctx, seen + [Some(meaning(j))], meaning)
  }

  // It cuts nothing and queries only keys of a lower rank.
  ghost predicate Grounded<T(!new)>(q: Queries<T>, k: Key, ctx: nat, seen: Seen<T>, meaning: Key -> T, rank: Key -> nat)
    requires Valid(q)
    decreases q.left(k, ctx, seen)
  {
    match q.next(k, ctx, seen)
    case Answer(_) => true
    case Cut(_) => false
    case Query(j, _) => rank(j) < rank(k) && Grounded(q, k, ctx, seen + [Some(meaning(j))], meaning, rank)
  }

  // `meaning` is what every key's definition gives, in any context, without going round.
  ghost predicate Defines<T(!new)>(q: Queries<T>, meaning: Key -> T, rank: Key -> nat)
    requires Valid(q)
  {
    forall k: Key, ctx: nat :: k in q.keys ==>
      Grounded(q, k, ctx, [], meaning, rank) && Direct(q, k, ctx, [], meaning) == meaning(k)
  }

  // Every result in the cache is its key's meaning, and every key being computed ranks at least `above`.
  ghost predicate Right<T(!new)>(c: Cache<T>, meaning: Key -> T, rank: Key -> nat, above: nat) {
    forall k: Key :: k in c.slots ==>
      (if c.slots[k].Done? then c.slots[k].value == meaning(k) else rank(k) >= above)
  }

  /** A query of such a key gives its meaning, keeps it and every result right, and reads nothing in progress. */
  lemma {:induction false} CacheIsTransparent<T(!new)>(q: Queries<T>, k: Key, ctx: nat, c: Cache<T>,
                                                     meaning: Key -> T, rank: Key -> nat)
    requires Valid(q) && k in q.keys && Defines(q, meaning, rank) && Right(c, meaning, rank, rank(k) + 1)
    ensures Memoized(q, k, ctx, c).0 == meaning(k)
    ensures var d := Memoized(q, k, ctx, c).1;
      && k in d.slots && d.slots[k] == Done(meaning(k)) && d.provisional == c.provisional && d.cut == c.cut
      && Right(d, meaning, rank, rank(k) + 1)
    decreases rank(k), 1, 0
  {
    if k !in c.slots {
      FreeDrops(q, c, Opened(c, k), k);
      EvaluatesDirectly(q, k, ctx, [], Opened(c, k), meaning, rank);
    }
  }

  lemma {:induction false} EvaluatesDirectly<T(!new)>(q: Queries<T>, k: Key, ctx: nat, seen: Seen<T>, c: Cache<T>,
                                                    meaning: Key -> T, rank: Key -> nat)
    requires Valid(q) && Defines(q, meaning, rank) && Right(c, meaning, rank, rank(k))
    requires Grounded(q, k, ctx, seen, meaning, rank)
    ensures Evaluate(q, k, ctx, seen, c).0 == Direct(q, k, ctx, seen, meaning)
    ensures var d := Evaluate(q, k, ctx, seen, c).1;
      d.provisional == c.provisional && d.cut == c.cut && Right(d, meaning, rank, rank(k))
    decreases rank(k), 0, q.left(k, ctx, seen)
  {
    match q.next(k, ctx, seen)
    case Answer(_) =>
    case Cut(_) =>
    case Query(j, at) =>
      var (t, d) := Memoized(q, j, at, c);
      CacheIsTransparent(q, j, at, c, meaning, rank);
      RightBelow(c, d, meaning, rank, k, j);
      EvaluatesDirectly(q, k, ctx, seen + [Some(t)], d, meaning, rank);
  }

  lemma RightBelow<T(!new)>(c: Cache<T>, d: Cache<T>, meaning: Key -> T, rank: Key -> nat, k: Key, j: Key)
    requires Right(c, meaning, rank, rank(k)) && Kept(c, d) && Right(d, meaning, rank, rank(j) + 1)
    ensures Right(d, meaning, rank, rank(k))
  {
    forall i: Key | i in d.slots && !d.slots[i].Done? ensures rank(i) >= rank(k) {
      assert Busy(d, i);
    }
  }

  // At rest: nothing is being computed.
  ghost predicate AtRest<T>(c: Cache<T>) {
    c.frames == 0 && forall k: Key :: !Busy(c, k)
  }

  /** The cells the queries share, which every query changes in place. */
  class MemoCells<T(==,!new)> {
    const q: Queries<T>
    var slots: map<Key, Slot<T>>
    var frames: nat
    var provisional: Option<nat>
    var cut: Option<Key>

    ghost function Contents(): Cache<T>
      reads this
    {
      Cache(slots, frames, provisional, cut)
    }

    constructor (q: Queries<T>)
      ensures this.q == q && Contents() == Cache(map[], 0, None, None) && AtRest(Contents())
    {
      this.q := q;
      slots, frames, provisional, cut := map[], 0, None, None;
    }

    /** A key's result: the finished one, `unfinished` or the candidate of one in progress, or a computed one. */
    method Query(k: Key, ctx: nat) returns (t: T)
      requires Valid(q) && k in q.keys
      modifies this
      ensures (t, Contents()) == Memoized(q, k, ctx, old(Contents()))
      decreases Free(q, Contents()), 0, 0
    {
      hide CutFrom;
      if k in slots {
        match slots[k] {
          case Done(value) => return value;
          case InProgress(frame) =>
            provisional := Outermost(provisional, Some(frame));
            return q.unfinished(k);
          case Candidate(frame, value) =>
            provisional := Outermost(provisional, Some(frame));
            return value;
        }
      }
      ghost var c := Contents();
      var frame := frames + 1;
      frames := frame;
      slots := slots[k := InProgress(frame)];
      var outer := provisional;
      provisional := None;
      ghost var c1 := Contents();
      FreeDrops(q, c, c1, k);
      t := Compute(k, ctx);
      if provisional == Some(frame) {
        ghost var c2 := Contents();
        slots := slots[k := Candidate(frame, t)];
        Proposed(c, c1, c2, Contents(), k);
        FreeDrops(q, c, Contents(), k);
        var again := Compute(k, ctx);
        if again != t {
          t := q.settle(k, t, again);
        }
      }
      Close(k, t, outer);
    }

    // Ends the frame of `k`, keeping its result unless it read a frame outside its own.
    method Close(k: Key, t: T, outer: Option<nat>)
      requires frames > 0
      modifies this
      ensures Contents() == Closed(old(Contents()), k, t, outer)
    {
      var read := provisional;
      if Within(read, frames) {
        slots := slots[k := Done(t)];
      } else {
        slots := slots - {k};
      }
      provisional := Outermost(outer, if Within(read, frames) then None else read);
      frames := frames - 1;
    }

    // The computation of `k`, one step of its definition at a time.
    method Compute(k: Key, ctx: nat) returns (t: T)
      requires Valid(q)
      modifies this
      ensures (t, Contents()) == Evaluate(q, k, ctx, [], old(Contents()))
      decreases Free(q, Contents()), 1, 0
    {
      var seen: Seen<T> := [];
      while !q.next(k, ctx, seen).Answer?
        invariant Kept(old(Contents()), Contents())
        invariant Evaluate(q, k, ctx, seen, Contents()) == Evaluate(q, k, ctx, [], old(Contents()))
        decreases q.left(k, ctx, seen)
      {
        match q.next(k, ctx, seen) {
          case Cut(j) =>
            CutAt(j);
            seen := seen + [None];
          case Query(j, at) =>
            SameFree(q, old(Contents()), Contents());
            var r := Query(j, at);
            seen := seen + [Some(r)];
        }
      }
      t := q.next(k, ctx, seen).value;
    }

    /** Cuts the computation in progress at `k`: nothing that read it is kept. */
    method CutAt(k: Key)
      modifies this
      ensures Contents() == old(Contents()).(provisional := Some(0), cut := Some(k))
    {
      provisional := Some(0);
      cut := Some(k);
    }

    /**
     * A query that, outside every computation, first asks the keys it was cut at by themselves, from the deepest up.
     * `last` is the cache its result was read from, and `tried` the keys queried on their own before.
     */
    method Uncut(k: Key, ctx: nat) returns (t: T, ghost last: Cache<T>, ghost tried: set<Key>)
      requires Valid(q) && k in q.keys && (frames == 0 ==> AtRest(Contents()) && cut == None)
      modifies this
      ensures Kept(old(Contents()), last) && t == Memoized(q, k, ctx, last).0
      ensures old(frames) > 0 ==> last == old(Contents()) && Contents() == Memoized(q, k, ctx, last).1
      ensures old(frames) == 0 ==>
        && AtRest(last) && AtRest(Contents())
        && Contents() == Memoized(q, k, ctx, last).1.(cut := None)
        && (Memoized(q, k, ctx, last).1.cut.Some? ==> Memoized(q, k, ctx, last).1.cut.value in tried)
        && tried <= q.keys
    {
      tried := {};
      if frames > 0 {
        last := Contents();
        t := Query(k, ctx);
        return;
      }
      var known: set<Key> := {};
      while true
        invariant AtRest(Contents()) && cut == None && Kept(old(Contents()), Contents()) && known <= q.keys
        decreases q.keys - known
      {
        last := Contents();
        t := Query(k, ctx);
        var first := Taken();
        if first == None || first.value in known {
          tried := known;
          return;
        }
        known := known + {first.value};
        var cuts := [first.value];
        while cuts != []
          invariant AtRest(Contents()) && cut == None && Kept(old(Contents()), Contents()) && known <= q.keys
          invariant first.value in known
          invariant forall c :: c in cuts ==> c in q.keys
          decreases q.keys - known, |cuts|
        {
          var _ := Query(cuts[|cuts| - 1], 0);
          var deeper := Taken();
          if deeper == None || deeper.value in known {
            cuts := cuts[..|cuts| - 1];
          } else {
            known := known + {deeper.value};
            cuts := cuts + [deeper.value];
          }
        }
      }
    }

    method Taken() returns (c: Option<Key>)
      modifies this
      ensures c == old(cut) && Contents() == old(Contents()).(cut := None)
    {
      c := cut;
      cut := None;
    }
  }
}
