/** The threads and warps a set holds over a launch, counting one CTA of each group that reads alike. */
module LaunchSums {
  import opened Wrappers
  import opened Divisions
  import opened SymExprs
  import opened ExitLimits
  import opened AffineExprs
  import opened Lanes
  import opened GridSums
  import opened Participation
  import opened TallyBounds

  const CTA_BUDGET: nat := 0x100_0000
  const LANE_BUDGET: nat := 0x400_0000
  const WORD_MAX: nat := 0xFFFF_FFFF_FFFF_FFFF

  function AtCta(c: Index): Place {
    Place(Some(c), None)
  }

  const NOWHERE: Place := Place(None, None)

  type Weight = Index -> Option<nat>

  // Axes read

  function AxesOf(v: Var): Axes {
    match v
    case Ctaid(X) => Axes(true, false, false)
    case Ctaid(Y) => Axes(false, true, false)
    case Ctaid(Z) => Axes(false, false, true)
    case Floor(x, _) => AxesOf(x)
    case Rem(x, _) => AxesOf(x)
    case _ => Axes(false, false, false)
  }

  function JoinAxes(a: Axes, b: Axes): Axes {
    Axes(a.x || b.x, a.y || b.y, a.z || b.z)
  }

  predicate Covered(a: Axes, used: Axes) {
    (a.x ==> used.x) && (a.y ==> used.y) && (a.z ==> used.z)
  }

  function TermAxes(terms: seq<(Var, SymExpr)>, used: Axes): (r: Axes)
    ensures Covered(used, r) && forall t :: t in terms ==> Covered(AxesOf(t.0), r)
  {
    if terms == [] then used else
    assert terms == [terms[0]] + terms[1..];
    TermAxes(terms[1..], JoinAxes(used, AxesOf(terms[0].0)))
  }

  // The comparisons that read the CTA index.
  function OverCtas(ks: seq<Constraint>): (out: seq<Constraint>)
    ensures forall k :: k in out <==> k in ks && k.cta.Some?
  {
    if ks == [] then [] else
    assert ks == [ks[0]] + ks[1..];
    (if ks[0].cta.Some? then [ks[0]] else []) + OverCtas(ks[1..])
  }

  function UsedAxes(over: seq<Constraint>, used: Axes): (r: Axes)
    ensures Covered(used, r)
    ensures forall k, t :: k in over && t in k.form.terms ==> Covered(AxesOf(t.0), r)
  {
    if over == [] then used else
    assert over == [over[0]] + over[1..];
    UsedAxes(over[1..], TermAxes(over[0].form.terms, used))
  }

  // What a comparison makes of a CTA

  // What a CTA's index adds to the form.
  function CtaPart(terms: seq<(Var, SymExpr)>, c: Index): int {
    if terms == [] then 0 else
    (if OnCta(terms[0].0) then ConstOr0(terms[0].1) * VarValue(terms[0].0, Reading(Index(0, 0, 0), AtCta(c))) else 0) +
    CtaPart(terms[1..], c)
  }

  lemma {:induction false} CtaVar(v: Var, tid: Index, c: Index)
    ensures OnCta(v) ==> VarValue(v, Reading(tid, NOWHERE)) == 0
    ensures OnCta(v) ==> VarValue(v, Reading(tid, AtCta(c))) == VarValue(v, Reading(Index(0, 0, 0), AtCta(c)))
    ensures !OnCta(v) ==> VarValue(v, Reading(tid, AtCta(c))) == VarValue(v, Reading(tid, NOWHERE))
    decreases v
  {
    match v
    case Floor(x, d) => CtaVar(x, tid, c);
    case Rem(x, d) => CtaVar(x, tid, c);
    case _ =>
  }

  lemma {:induction false} TermsAtCta(terms: seq<(Var, SymExpr)>, tid: Index, c: Index)
    ensures TermsAt(terms, Reading(tid, AtCta(c))) == TermsAt(terms, Reading(tid, NOWHERE)) + CtaPart(terms, c)
  {
    hide ConstOr0;
    if terms != [] {
      CtaVar(terms[0].0, tid, c);
      TermsAtCta(terms[1..], tid, c);
    }
  }

  lemma {:induction false} VarAgrees(v: Var, tid: Index, c: Index, d: Index, used: Axes)
    requires Covered(AxesOf(v), used) && Agree(c, d, used)
    ensures VarValue(v, Reading(tid, AtCta(c))) == VarValue(v, Reading(tid, AtCta(d)))
    decreases v
  {
    match v
    case Floor(x, _) => VarAgrees(x, tid, c, d, used);
    case Rem(x, _) => VarAgrees(x, tid, c, d, used);
    case _ =>
  }

  lemma {:induction false} FormAgrees(terms: seq<(Var, SymExpr)>, tid: Index, c: Index, d: Index, used: Axes, sum: int)
    requires (forall t :: t in terms ==> Covered(AxesOf(t.0), used)) && Agree(c, d, used)
    ensures CheckedAt(terms, Reading(tid, AtCta(c)), sum) == CheckedAt(terms, Reading(tid, AtCta(d)), sum)
  {
    hide ConstOr0;
    if terms != [] {
      VarAgrees(terms[0].0, tid, c, d, used);
      FormAgrees(terms[1..], tid, c, d, used, sum + ConstOr0(terms[0].1) * VarValue(terms[0].0, Reading(tid, AtCta(c))));
    }
  }

  lemma {:induction false} OffCta(v: Var)
    requires !OnCta(v)
    ensures AxesOf(v) == Axes(false, false, false)
    decreases v
  {
    match v
    case Floor(x, _) => OffCta(x);
    case Rem(x, _) => OffCta(x);
    case _ =>
  }

  /** A comparison reads alike at CTAs that agree on the axes its terms read. */
  lemma ReadsAlikeWhereAgreed(k: Constraint, shape: Shape, c: Index, d: Index, used: Axes)
    requires Formed(k) && Agree(c, d, used) && Count(shape) > 0
    requires k.cta.Some? ==> forall t :: t in k.form.terms ==> Covered(AxesOf(t.0), used)
    ensures SameReading(k, shape, AtCta(c), AtCta(d))
  {
    hide Decide, Thread;
    forall t | t in k.form.terms ensures Covered(AxesOf(t.0), used) {
      if k.cta.None? {
        OffCta(t.0);
      }
    }
    forall t: int | 0 <= t < Count(shape)
      ensures Read(k, Thread(t, shape), AtCta(c)) == Read(k, Thread(t, shape), AtCta(d))
    {
      FormAgrees(k.form.terms, Thread(t, shape), c, d, used, ConstPart(k.form.base));
    }
  }

  // Keys

  // The least and greatest lane part of a comparison over the threads before `t`, none where one leaves i128.
  function LaneRange(k: Constraint, shape: Shape, t: nat): (r: Option<(int, int)>)
    requires 0 < t <= Count(shape)
    ensures r.Some? ==> forall i: int :: 0 <= i < t ==>
      FormAt(k.form, Reading(Thread(i, shape), NOWHERE)).Some? &&
      r.value.0 <= FormAt(k.form, Reading(Thread(i, shape), NOWHERE)).value <= r.value.1
  {
    match FormAt(k.form, Reading(Thread(t - 1, shape), NOWHERE))
    case None => None
    case Some(x) =>
      if t == 1 then Some((x, x)) else
      match LaneRange(k, shape, t - 1)
      case None => None
      case Some((lo, hi)) => Some((if x < lo then x else lo, if hi < x then x else hi))
  }

  type Key = seq<(Tri, int)>

  // A constraint's part of the key: CTAs with one such part give every lane one truth of it.
  function KeyPart(k: Constraint, range: (int, int), c: Index): (Tri, int) {
    var u := CtaPart(k.form.terms, c);
    match Decide(k.cmp, range.0 + u, range.1 + u)
    case Maybe => (Maybe, u)
    case t => (t, 0)
  }

  function KeyAt(over: seq<Constraint>, ranges: seq<(int, int)>, c: Index): Key
    requires |ranges| == |over|
  {
    seq(|over|, i requires 0 <= i < |over| => KeyPart(over[i], ranges[i], c))
  }

  ghost predicate RangesOf(over: seq<Constraint>, shape: Shape, ranges: seq<(int, int)>) {
    Count(shape) > 0 && |ranges| == |over| &&
    forall i :: 0 <= i < |over| ==> LaneRange(over[i], shape, Count(shape)) == Some(ranges[i])
  }

  // Both are a thread's part of a comparison, and every thread's lies between them.
  ghost predicate Spans(k: Constraint, shape: Shape, lo: int, hi: int)
    requires Count(shape) > 0
  {
    && (forall t: int :: 0 <= t < Count(shape) ==>
          var x := FormAt(k.form, Reading(Thread(t, shape), NOWHERE)); x.Some? && lo <= x.value <= hi)
    && (exists t: int :: 0 <= t < Count(shape) && FormAt(k.form, Reading(Thread(t, shape), NOWHERE)) == Some(lo))
    && (exists t: int :: 0 <= t < Count(shape) && FormAt(k.form, Reading(Thread(t, shape), NOWHERE)) == Some(hi))
  }

  lemma {:induction false} LaneRangeEnds(k: Constraint, shape: Shape, t: nat)
    requires 0 < t <= Count(shape)
    ensures LaneRange(k, shape, t).None? <==>
      exists i: int :: 0 <= i < t && FormAt(k.form, Reading(Thread(i, shape), NOWHERE)).None?
    ensures LaneRange(k, shape, t).Some? ==>
      var (lo, hi) := LaneRange(k, shape, t).value;
      && (exists i: int :: 0 <= i < t && FormAt(k.form, Reading(Thread(i, shape), NOWHERE)) == Some(lo))
      && (exists i: int :: 0 <= i < t && FormAt(k.form, Reading(Thread(i, shape), NOWHERE)) == Some(hi))
  {
    hide FormAt, Reading, Thread;
    if t > 1 {
      LaneRangeEnds(k, shape, t - 1);
      assert LaneRange(k, shape, t).Some? ==> FormAt(k.form, Reading(Thread(t - 1, shape), NOWHERE)).Some?;
    } else {
      assert FormAt(k.form, Reading(Thread(0, shape), NOWHERE)) == FormAt(k.form, Reading(Thread(t - 1, shape), NOWHERE));
    }
  }

  lemma LaneRangeSpans(k: Constraint, shape: Shape, range: (int, int))
    requires Count(shape) > 0 && LaneRange(k, shape, Count(shape)) == Some(range)
    ensures Spans(k, shape, range.0, range.1)
  {
    hide FormAt, Reading, Thread;
    LaneRangeEnds(k, shape, Count(shape));
  }

  // The comparison comes out so for every value the threads' parts span at the CTA.
  ghost predicate Settles(k: Constraint, lo: int, hi: int, c: Index, truth: bool) {
    var u := CtaPart(k.form.terms, c);
    forall x :: lo + u <= x <= hi + u ==> Holds(k.cmp, x) == truth
  }

  // What the CTAs add differs, and one truth does not settle both.
  ghost predicate TellsApart(k: Constraint, shape: Shape, c: Index, d: Index)
    requires Count(shape) > 0
  {
    k.cta.Some? && CtaPart(k.form.terms, c) != CtaPart(k.form.terms, d) &&
    exists lo: int, hi: int :: Spans(k, shape, lo, hi) &&
      forall truth :: !(Settles(k, lo, hi, c, truth) && Settles(k, lo, hi, d, truth))
  }

  lemma PartsTellApart(k: Constraint, shape: Shape, range: (int, int), c: Index, d: Index)
    requires Count(shape) > 0 && k.cta.Some? && LaneRange(k, shape, Count(shape)) == Some(range)
    requires KeyPart(k, range, c) != KeyPart(k, range, d)
    ensures TellsApart(k, shape, c, d)
  {
    hide Decide, CtaPart, Spans, LaneRange, Holds;
    LaneRangeSpans(k, shape, range);
    var (lo, hi) := range;
    SpansInOrder(k, shape, lo, hi);
    var u, v := CtaPart(k.form.terms, c), CtaPart(k.form.terms, d);
    DecideIsExact(k.cmp, lo + u, hi + u);
    DecideIsExact(k.cmp, lo + v, hi + v);
    assert Spans(k, shape, lo, hi);
    assert forall truth :: !(Settles(k, lo, hi, c, truth) && Settles(k, lo, hi, d, truth));
  }

  lemma SpansInOrder(k: Constraint, shape: Shape, lo: int, hi: int)
    requires Count(shape) > 0 && Spans(k, shape, lo, hi)
    ensures lo <= hi
  {
    hide FormAt, Reading, Thread;
  }

  // Some comparison does.
  ghost predicate Distinct(p: Pred, shape: Shape, c: Index, d: Index)
    requires Count(shape) > 0
  {
    exists k :: k in Constraints(p) && TellsApart(k, shape, c, d)
  }

  lemma KeysDistinct(p: Pred, shape: Shape, ranges: seq<(int, int)>, c: Index, d: Index)
    requires RangesOf(OverCtas(Constraints(p)), shape, ranges)
    requires KeyAt(OverCtas(Constraints(p)), ranges, c) != KeyAt(OverCtas(Constraints(p)), ranges, d)
    ensures Distinct(p, shape, c, d)
  {
    hide KeyPart, TellsApart, LaneRange;
    var over := OverCtas(Constraints(p));
    var i :| 0 <= i < |over| && KeyPart(over[i], ranges[i], c) != KeyPart(over[i], ranges[i], d);
    assert over[i] in over;
    PartsTellApart(over[i], shape, ranges[i], c, d);
  }

  // CTAs no two of which are read alike.
  ghost predicate Unlike(p: Pred, shape: Shape, m: Shape, cs: seq<Index>)
    requires Count(shape) > 0
  {
    && (forall i :: 0 <= i < |cs| ==> Lanes.Inside(cs[i], m))
    && (forall i, j :: 0 <= i < j < |cs| ==> Distinct(p, shape, cs[i], cs[j]))
  }

  ghost predicate ManyUnlike(p: Pred, shape: Shape, m: Shape)
    requires Count(shape) > 0
  {
    exists cs :: Unlike(p, shape, m, cs) && |cs| > LANE_BUDGET / Count(shape)
  }

  // No partial sum of a comparison that reads the CTA index leaves i128, on any thread and CTA.
  ghost predicate NoOverflow(p: Pred, shape: Shape, grid: Shape) {
    Count(shape) > 0 &&
    forall k, t: int, c: Index ::
      (k in Constraints(p) && k.cta.Some? && 0 <= t < Count(shape) && Lanes.Inside(c, grid)) ==>
        FormAt(k.form, Reading(Thread(t, shape), AtCta(c))).Some?
  }

  lemma PointBetween(cmp: Cmp, lo: int, x: int, hi: int)
    requires lo <= x <= hi && Decide(cmp, lo, hi) != Maybe
    ensures Decide(cmp, x, x) == Decide(cmp, lo, hi)
  {
    DecideIsExact(cmp, lo, hi);
    DecideIsExact(cmp, x, x);
    assert Holds(cmp, x) || !Holds(cmp, x);
  }

  lemma LaneAtCta(k: Constraint, tid: Index, c: Index)
    requires FormAt(k.form, Reading(tid, AtCta(c))).Some? && FormAt(k.form, Reading(tid, NOWHERE)).Some?
    ensures FormAt(k.form, Reading(tid, AtCta(c))).value ==
            FormAt(k.form, Reading(tid, NOWHERE)).value + CtaPart(k.form.terms, c)
  {
    CheckedIsPlain(k.form.terms, Reading(tid, AtCta(c)), ConstPart(k.form.base));
    CheckedIsPlain(k.form.terms, Reading(tid, NOWHERE), ConstPart(k.form.base));
    TermsAtCta(k.form.terms, tid, c);
  }

  /** Two CTAs of one key part read the comparison alike on every lane. */
  lemma KeyPartReadsAlike(k: Constraint, shape: Shape, range: (int, int), c: Index, d: Index)
    requires Formed(k) && k.cta.Some? && Count(shape) > 0 && LaneRange(k, shape, Count(shape)) == Some(range)
    requires KeyPart(k, range, c) == KeyPart(k, range, d)
    requires forall t: int :: 0 <= t < Count(shape) ==>
      && FormAt(k.form, Reading(Thread(t, shape), AtCta(c))).Some?
      && FormAt(k.form, Reading(Thread(t, shape), AtCta(d))).Some?
    ensures SameReading(k, shape, AtCta(c), AtCta(d))
  {
    hide Decide, Thread, FormAt, CtaPart, LaneRange;
    var u, v := CtaPart(k.form.terms, c), CtaPart(k.form.terms, d);
    forall t: int | 0 <= t < Count(shape)
      ensures Read(k, Thread(t, shape), AtCta(c)) == Read(k, Thread(t, shape), AtCta(d))
    {
      var tid := Thread(t, shape);
      var x := FormAt(k.form, Reading(tid, NOWHERE)).value;
      LaneAtCta(k, tid, c);
      LaneAtCta(k, tid, d);
      ReadAtCta(k, tid, c);
      ReadAtCta(k, tid, d);
      if Decide(k.cmp, range.0 + u, range.1 + u) != Maybe {
        PointBetween(k.cmp, range.0 + u, x + u, range.1 + u);
        PointBetween(k.cmp, range.0 + v, x + v, range.1 + v);
      }
    }
  }

  lemma ReadAtCta(k: Constraint, tid: Index, c: Index)
    requires Formed(k) && k.cta.Some? && FormAt(k.form, Reading(tid, AtCta(c))).Some?
    ensures var x := FormAt(k.form, Reading(tid, AtCta(c))).value; Read(k, tid, AtCta(c)) == Decide(k.cmp, x, x)
  {
  }

  /** Two CTAs of one key tally alike. */
  lemma KeyTalliesAlike(p: Pred, shape: Shape, grid: Shape, ranges: seq<(int, int)>, c: Index, d: Index)
    requires AllFormed(p) && NoOverflow(p, shape, grid) && Lanes.Inside(c, grid) && Lanes.Inside(d, grid)
    requires RangesOf(OverCtas(Constraints(p)), shape, ranges)
    requires KeyAt(OverCtas(Constraints(p)), ranges, c) == KeyAt(OverCtas(Constraints(p)), ranges, d)
    ensures Tally(p, shape, AtCta(c)) == Tally(p, shape, AtCta(d))
  {
    hide Tally, SameReading, Formed, FormAt, KeyPart, LaneRange, Thread;
    var over := OverCtas(Constraints(p));
    forall k | k in Constraints(p) ensures SameReading(k, shape, AtCta(c), AtCta(d)) {
      if k.cta.Some? {
        var i :| 0 <= i < |over| && over[i] == k;
        assert KeyAt(over, ranges, c)[i] == KeyAt(over, ranges, d)[i];
        KeyPartReadsAlike(k, shape, ranges[i], c, d);
      } else {
        NoAxes(k, shape, c, d);
      }
    }
    TallySame(p, shape, AtCta(c), AtCta(d));
  }

  lemma NoAxes(k: Constraint, shape: Shape, c: Index, d: Index)
    requires Formed(k) && k.cta.None? && Count(shape) > 0
    ensures SameReading(k, shape, AtCta(c), AtCta(d))
  {
    hide SameReading;
    ReadsAlikeWhereAgreed(k, shape, c, d, Axes(false, false, false));
  }

  // What a launch counts

  function Exact(t: (Counted, Counted)): bool {
    t.0.certain == t.0.possible && t.1.certain == t.1.possible
  }

  // The CTA's threads and warps are exact, and where it holds any its weight is known.
  ghost predicate Countable(p: Pred, shape: Shape, weight: Weight, c: Index) {
    match Tally(p, shape, AtCta(c))
    case None => false
    case Some(t) =>
      t.0.certain == t.0.possible && t.1.certain == t.1.possible && (t.0.certain > 0 ==> weight(c).Some?)
  }

  // The CTA's weighted threads, and warps.
  ghost function WeightedThreads(p: Pred, shape: Shape, weight: Weight, c: Index): nat {
    if Countable(p, shape, weight, c) then
      var n := Tally(p, shape, AtCta(c)).value.0.certain;
      if n > 0 then weight(c).value * n else 0
    else 0
  }

  ghost function WeightedWarps(p: Pred, shape: Shape, weight: Weight, c: Index): nat {
    if Countable(p, shape, weight, c) then
      var (t, w) := Tally(p, shape, AtCta(c)).value;
      if t.certain > 0 then weight(c).value * w.certain else 0
    else 0
  }

  ghost predicate WeightReads(weight: Weight, used: Axes) {
    forall c: Index, d: Index :: Agree(c, d, used) ==> weight(c) == weight(d)
  }

  /** CTAs that agree on the axes read tally alike, and count alike. */
  lemma AgreedTalliesAlike(p: Pred, shape: Shape, used: Axes, c: Index, d: Index)
    requires AllFormed(p) && Count(shape) > 0 && Agree(c, d, used)
    requires forall k, t :: k in Constraints(p) && k.cta.Some? && t in k.form.terms ==> Covered(AxesOf(t.0), used)
    ensures Tally(p, shape, AtCta(c)) == Tally(p, shape, AtCta(d))
  {
    hide Tally, SameReading, Formed, Covered;
    forall k | k in Constraints(p) ensures SameReading(k, shape, AtCta(c), AtCta(d)) {
      ReadsAlikeWhereAgreed(k, shape, c, d, used);
    }
    TallySame(p, shape, AtCta(c), AtCta(d));
  }

  // Groups

  // A key, its weight, and the threads and warps of its CTAs.
  datatype Group = Group(key: Key, weight: nat, threads: nat, warps: nat)

  function FindKey(groups: seq<Group>, key: Key): (i: nat)
    ensures i <= |groups| && (i < |groups| ==> groups[i].key == key)
    ensures i == |groups| ==> forall g :: g in groups ==> g.key != key
  {
    if groups == [] then 0
    else if groups[0].key == key then 0
    else 1 + FindKey(groups[1..], key)
  }

  function GroupThreads(groups: seq<Group>): nat {
    if groups == [] then 0 else groups[0].weight * groups[0].threads + GroupThreads(groups[1..])
  }

  function GroupWarps(groups: seq<Group>): nat {
    if groups == [] then 0 else groups[0].weight * groups[0].warps + GroupWarps(groups[1..])
  }

  lemma {:induction false} GroupAppends(groups: seq<Group>, g: Group)
    ensures GroupThreads(groups + [g]) == GroupThreads(groups) + g.weight * g.threads
    ensures GroupWarps(groups + [g]) == GroupWarps(groups) + g.weight * g.warps
  {
    if groups == [] {
      assert [g][1..] == [];
    } else {
      assert (groups + [g])[1..] == groups[1..] + [g];
      GroupAppends(groups[1..], g);
    }
  }

  lemma {:induction false} GroupGrows(groups: seq<Group>, i: nat, more: nat)
    requires i < |groups|
    ensures var after := groups[i := groups[i].(weight := groups[i].weight + more)];
      && GroupThreads(after) == GroupThreads(groups) + more * groups[i].threads
      && GroupWarps(after) == GroupWarps(groups) + more * groups[i].warps
  {
    var after := groups[i := groups[i].(weight := groups[i].weight + more)];
    if i == 0 {
      assert after[1..] == groups[1..];
      Distributes(groups[0].threads, groups[0].weight, more);
      Distributes(groups[0].warps, groups[0].weight, more);
    } else {
      assert after[1..] == groups[1..][i - 1 := groups[1..][i - 1].(weight := groups[1..][i - 1].weight + more)];
      GroupGrows(groups[1..], i - 1, more);
    }
  }

  // The launch

  // The product of three extents, none where a partial one leaves a word.
  function CheckedProduct(x: nat, y: nat, z: nat): Option<nat> {
    if x <= WORD_MAX && x * y <= WORD_MAX && x * y * z <= WORD_MAX then Some(x * y * z) else None
  }

  ghost function Used(p: Pred, read: Axes): Axes {
    UsedAxes(OverCtas(Constraints(p)), read)
  }

  // The groups hold the CTAs before `n`, their keys all different, each group's CTAs tallying alike.
  ghost predicate Holds3(p: Pred, shape: Shape, m: Shape, ranges: seq<(int, int)>, weight: Weight, groups: seq<Group>,
                         n: nat)
    requires n <= Count(m) && RangesOf(OverCtas(Constraints(p)), shape, ranges)
  {
    && |groups| <= n
    && (forall i :: 0 <= i < |groups| ==> Grounded(p, shape, m, ranges, groups[i], n))
    && (forall i: int :: 0 <= i < n ==> Countable(p, shape, weight, Thread(i, m)))
    && GroupThreads(groups) == LinearSum((c: Index) => WeightedThreads(p, shape, weight, c), m, n)
    && GroupWarps(groups) == LinearSum((c: Index) => WeightedWarps(p, shape, weight, c), m, n)
  }

  // A group is that of a CTA before `n`, with its tally, exact.
  ghost predicate Grounded(p: Pred, shape: Shape, m: Shape, ranges: seq<(int, int)>, g: Group, n: nat)
    requires n <= Count(m) && RangesOf(OverCtas(Constraints(p)), shape, ranges)
  {
    exists i: int :: 0 <= i < n && g.key == KeyAt(OverCtas(Constraints(p)), ranges, Thread(i, m)) &&
      GroupIs(p, shape, Thread(i, m), g)
  }

  ghost predicate GroupIs(p: Pred, shape: Shape, c: Index, g: Group) {
    match Tally(p, shape, AtCta(c))
    case None => false
    case Some(t) => Exact(t) && g.threads == t.0.certain && g.warps == t.1.certain
  }

  lemma NoGroups(p: Pred, shape: Shape, m: Shape, ranges: seq<(int, int)>, weight: Weight)
    requires RangesOf(OverCtas(Constraints(p)), shape, ranges)
    ensures Holds3(p, shape, m, ranges, weight, [], 0)
  {
  }

  lemma GroundedLater(p: Pred, shape: Shape, m: Shape, ranges: seq<(int, int)>, g: Group, h: Group, n: nat)
    requires n < Count(m) && RangesOf(OverCtas(Constraints(p)), shape, ranges) && Grounded(p, shape, m, ranges, g, n)
    requires h.key == g.key && h.threads == g.threads && h.warps == g.warps
    ensures Grounded(p, shape, m, ranges, h, n + 1)
  {
    hide Tally, KeyAt, LaneRange, Thread;
    var i: int :| 0 <= i < n && g.key == KeyAt(OverCtas(Constraints(p)), ranges, Thread(i, m)) &&
      GroupIs(p, shape, Thread(i, m), g);
    assert GroupIs(p, shape, Thread(i, m), h);
  }

  /** A group found by key holds the CTA's own tally. */
  lemma FoundTalliesAlike(p: Pred, shape: Shape, grid: Shape, m: Shape, ranges: seq<(int, int)>, g: Group, n: nat)
    requires AllFormed(p) && NoOverflow(p, shape, grid) && n < Count(m) && m.nx <= grid.nx && m.ny <= grid.ny && m.nz <= grid.nz
    requires RangesOf(OverCtas(Constraints(p)), shape, ranges) && Grounded(p, shape, m, ranges, g, n)
    requires g.key == KeyAt(OverCtas(Constraints(p)), ranges, Thread(n, m))
    ensures GroupIs(p, shape, Thread(n, m), g)
  {
    hide Tally, KeyAt, LaneRange, NoOverflow, AllFormed, Thread;
    var i: int :| 0 <= i < n && g.key == KeyAt(OverCtas(Constraints(p)), ranges, Thread(i, m)) &&
      GroupIs(p, shape, Thread(i, m), g);
    LinearOfThread(i, m);
    LinearOfThread(n, m);
    KeyTalliesAlike(p, shape, grid, ranges, Thread(i, m), Thread(n, m));
  }

  // One more CTA, in a group it joins or its own, where its weight is taken if it holds a thread.
  lemma TakesCta(p: Pred, shape: Shape, m: Shape, ranges: seq<(int, int)>, weight: Weight, groups: seq<Group>, n: nat,
                 g: Group, more: nat, next: seq<Group>)
    requires n < Count(m) && RangesOf(OverCtas(Constraints(p)), shape, ranges)
    requires Holds3(p, shape, m, ranges, weight, groups, n)
    requires g.key == KeyAt(OverCtas(Constraints(p)), ranges, Thread(n, m)) && GroupIs(p, shape, Thread(n, m), g)
    requires if g.threads > 0 then weight(Thread(n, m)) == Some(more) else more == 0
    requires var i := FindKey(groups, g.key);
      if i < |groups| then g == groups[i] && next == groups[i := g.(weight := g.weight + more)]
      else next == groups + [g.(weight := more)]
    ensures Holds3(p, shape, m, ranges, weight, next, n + 1)
  {
    hide Tally, KeyAt, RangesOf, Grounded, Thread, GroupThreads, GroupWarps, GroupIs, Countable, FindKey, LinearSum,
      WeightedThreads, WeightedWarps;
    var c := Thread(n, m);
    CountsAs(p, shape, weight, c, g, more);
    NextCta(p, shape, m, weight, n);
    TakesSums(groups, g, more, next);
    TakesGroups(p, shape, m, ranges, groups, n, g, more, next);
  }

  lemma TakesSums(groups: seq<Group>, g: Group, more: nat, next: seq<Group>)
    requires var i := FindKey(groups, g.key);
      if i < |groups| then g == groups[i] && next == groups[i := g.(weight := g.weight + more)]
      else next == groups + [g.(weight := more)]
    ensures GroupThreads(next) == GroupThreads(groups) + more * g.threads
    ensures GroupWarps(next) == GroupWarps(groups) + more * g.warps
  {
    hide GroupThreads, GroupWarps;
    var i := FindKey(groups, g.key);
    if i < |groups| {
      GroupGrows(groups, i, more);
    } else {
      GroupAppends(groups, g.(weight := more));
    }
  }

  lemma TakesGroups(p: Pred, shape: Shape, m: Shape, ranges: seq<(int, int)>, groups: seq<Group>, n: nat,
                    g: Group, more: nat, next: seq<Group>)
    requires n < Count(m) && RangesOf(OverCtas(Constraints(p)), shape, ranges)
    requires forall i :: 0 <= i < |groups| ==> Grounded(p, shape, m, ranges, groups[i], n)
    requires g.key == KeyAt(OverCtas(Constraints(p)), ranges, Thread(n, m)) && GroupIs(p, shape, Thread(n, m), g)
    requires var i := FindKey(groups, g.key);
      if i < |groups| then g == groups[i] && next == groups[i := g.(weight := g.weight + more)]
      else next == groups + [g.(weight := more)]
    ensures |next| <= |groups| + 1
    ensures forall i :: 0 <= i < |next| ==> Grounded(p, shape, m, ranges, next[i], n + 1)
  {
    hide Tally, KeyAt, RangesOf, Grounded, Thread, GroupIs;
    forall j | 0 <= j < |next| ensures Grounded(p, shape, m, ranges, next[j], n + 1) {
      if j < |groups| {
        GroundedLater(p, shape, m, ranges, groups[j], next[j], n);
      } else {
        SameTally(p, shape, Thread(n, m), g, next[j]);
        OwnGroup(p, shape, m, ranges, next[j], n);
      }
    }
  }

  lemma SameTally(p: Pred, shape: Shape, c: Index, g: Group, h: Group)
    requires GroupIs(p, shape, c, g) && h.threads == g.threads && h.warps == g.warps
    ensures GroupIs(p, shape, c, h)
  {
    hide Tally;
  }

  lemma OwnGroup(p: Pred, shape: Shape, m: Shape, ranges: seq<(int, int)>, g: Group, n: nat)
    requires n < Count(m) && RangesOf(OverCtas(Constraints(p)), shape, ranges)
    requires g.key == KeyAt(OverCtas(Constraints(p)), ranges, Thread(n, m)) && GroupIs(p, shape, Thread(n, m), g)
    ensures Grounded(p, shape, m, ranges, g, n + 1)
  {
    hide Tally, KeyAt, RangesOf, Thread, GroupIs;
  }

  lemma CountsAs(p: Pred, shape: Shape, weight: Weight, c: Index, g: Group, more: nat)
    requires GroupIs(p, shape, c, g)
    requires if g.threads > 0 then weight(c) == Some(more) else more == 0
    ensures Countable(p, shape, weight, c)
    ensures WeightedThreads(p, shape, weight, c) == more * g.threads
    ensures WeightedWarps(p, shape, weight, c) == more * g.warps
  {
    hide Tally;
  }

  lemma NextCta(p: Pred, shape: Shape, m: Shape, weight: Weight, n: nat)
    requires n < Count(m)
    ensures LinearSum((c: Index) => WeightedThreads(p, shape, weight, c), m, n + 1) ==
            LinearSum((c: Index) => WeightedThreads(p, shape, weight, c), m, n) + WeightedThreads(p, shape, weight, Thread(n, m))
    ensures LinearSum((c: Index) => WeightedWarps(p, shape, weight, c), m, n + 1) ==
            LinearSum((c: Index) => WeightedWarps(p, shape, weight, c), m, n) + WeightedWarps(p, shape, weight, Thread(n, m))
  {
    hide WeightedThreads, WeightedWarps, Thread;
  }

  // The lane ranges of the comparisons, none where a lane's reading leaves i128.
  method Ranges(over: seq<Constraint>, shape: Shape) returns (ranges: Option<seq<(int, int)>>)
    requires Count(shape) > 0
    ensures ranges.Some? ==> RangesOf(over, shape, ranges.value)
    ensures ranges.None? ==> exists k :: k in over && LaneRange(k, shape, Count(shape)).None?
  {
    hide LaneRange;
    var out := [];
    var i := 0;
    while i < |over|
      invariant 0 <= i <= |over| && |out| == i
      invariant forall j :: 0 <= j < i ==> LaneRange(over[j], shape, Count(shape)) == Some(out[j])
    {
      var range := LaneRange(over[i], shape, Count(shape));
      if range.None? {
        assert over[i] in over;
        return None;
      }
      out := out + [range.value];
      i := i + 1;
    }
    ranges := Some(out);
  }

  // Over the integers

  lemma {:induction false} NoCtaPart(terms: seq<(Var, SymExpr)>, c: Index)
    requires forall t :: t in terms ==> !OnCta(t.0)
    ensures CtaPart(terms, c) == 0
  {
    if terms != [] {
      NoCtaPart(terms[1..], c);
    }
  }

  // A comparison at a CTA: its lane's part and the CTA's.
  lemma CtaValue(k: Constraint, tid: Index, c: Index)
    ensures PlainOn(k, tid, AtCta(c)) == PlainOn(k, tid, NOWHERE) + CtaPart(k.form.terms, c)
    ensures Formed(k) && k.cta.None? ==> CtaPart(k.form.terms, c) == 0
    ensures Formed(k) && k.cta.Some? ==> k.trip.None?
  {
    hide TermsAt, CtaPart, ConstPart;
    assert TripFor(k, AtCta(c)) == TripFor(k, NOWHERE) == None;
    TermsAtCta(k.form.terms, tid, c);
    if Formed(k) && k.cta.None? {
      NoCtaPart(k.form.terms, c);
    }
  }

  // Where the CTAs' parts are the same, so are the truths.
  lemma SamePartAlike(k: Constraint, shape: Shape, c: Index, d: Index)
    requires CtaPart(k.form.terms, c) == CtaPart(k.form.terms, d)
    ensures Alike(k, shape, AtCta(c), AtCta(d))
  {
    hide Thread, PlainOn, CtaPart;
    assert TripFor(k, AtCta(c)) == TripFor(k, AtCta(d)) == None;
    forall t: int, truth: bool | 0 <= t < Count(shape) && CanBe(k, Thread(t, shape), AtCta(c), truth)
      ensures CanBe(k, Thread(t, shape), AtCta(d), truth)
    {
      CtaValue(k, Thread(t, shape), c);
      CtaValue(k, Thread(t, shape), d);
    }
  }

  lemma {:induction false} PartAgrees(terms: seq<(Var, SymExpr)>, c: Index, d: Index, used: Axes)
    requires (forall t :: t in terms && OnCta(t.0) ==> Covered(AxesOf(t.0), used)) && Agree(c, d, used)
    ensures CtaPart(terms, c) == CtaPart(terms, d)
  {
    hide ConstOr0;
    if terms != [] {
      if OnCta(terms[0].0) {
        assert terms[0] in terms;
        VarAgrees(terms[0].0, Index(0, 0, 0), c, d, used);
      }
      PartAgrees(terms[1..], c, d, used);
    }
  }

  // A lane's part lies in the range over the lanes.
  lemma LaneInRange(k: Constraint, shape: Shape, range: (int, int), t: int)
    requires 0 <= t < Count(shape) && LaneRange(k, shape, Count(shape)) == Some(range)
    ensures range.0 <= PlainOn(k, Thread(t, shape), NOWHERE) <= range.1
  {
    hide LaneRange, Thread, FormAt;
    assert FormAt(k.form, Reading(Thread(t, shape), NOWHERE)).Some?;
    assert TripFor(k, NOWHERE) == None;
    FormIsPlain(k, Thread(t, shape), NOWHERE);
  }

  /** Two CTAs of one key part give the comparison the same truth on every lane, whatever its partial sums. */
  lemma KeyPartAlike(k: Constraint, shape: Shape, range: (int, int), c: Index, d: Index)
    requires Formed(k) && k.cta.Some? && Count(shape) > 0 && LaneRange(k, shape, Count(shape)) == Some(range)
    requires KeyPart(k, range, c) == KeyPart(k, range, d)
    ensures Alike(k, shape, AtCta(c), AtCta(d))
  {
    hide Formed, LaneRange;
    var u, v := CtaPart(k.form.terms, c), CtaPart(k.form.terms, d);
    if u == v {
      SamePartAlike(k, shape, c, d);
    } else {
      forall t: int, truth: bool | 0 <= t < Count(shape) && CanBe(k, Thread(t, shape), AtCta(c), truth)
        ensures CanBe(k, Thread(t, shape), AtCta(d), truth)
      {
        DecidedAlike(k, shape, range, c, d, t, truth);
      }
    }
  }

  lemma DecidedAlike(k: Constraint, shape: Shape, range: (int, int), c: Index, d: Index, t: int, truth: bool)
    requires Formed(k) && k.cta.Some? && 0 <= t < Count(shape) && LaneRange(k, shape, Count(shape)) == Some(range)
    requires CtaPart(k.form.terms, c) != CtaPart(k.form.terms, d) && KeyPart(k, range, c) == KeyPart(k, range, d)
    requires CanBe(k, Thread(t, shape), AtCta(c), truth)
    ensures CanBe(k, Thread(t, shape), AtCta(d), truth)
  {
    hide Formed, LaneRange, Thread, PlainOn, CtaPart, Decide;
    var tid := Thread(t, shape);
    var u, v := CtaPart(k.form.terms, c), CtaPart(k.form.terms, d);
    var x := PlainOn(k, tid, NOWHERE);
    LaneInRange(k, shape, range, t);
    CtaValue(k, tid, c);
    CtaValue(k, tid, d);
    DecideIsExact(k.cmp, range.0 + u, range.1 + u);
    DecideIsExact(k.cmp, range.0 + v, range.1 + v);
    assert Holds(k.cmp, x + u) == truth;
    assert Holds(k.cmp, x + v) == truth;
  }

  // A CTA of the same key has the same worlds.
  lemma KeysAlike(p: Pred, shape: Shape, ranges: seq<(int, int)>, c: Index, d: Index)
    requires AllFormed(p) && RangesOf(OverCtas(Constraints(p)), shape, ranges)
    requires KeyAt(OverCtas(Constraints(p)), ranges, c) == KeyAt(OverCtas(Constraints(p)), ranges, d)
    ensures AllAlike(p, shape, AtCta(c), AtCta(d))
  {
    hide Alike, Formed, KeyPart, LaneRange, Thread;
    var over := OverCtas(Constraints(p));
    forall k | k in Constraints(p) ensures Alike(k, shape, AtCta(c), AtCta(d)) {
      if k.cta.Some? {
        var i :| 0 <= i < |over| && over[i] == k;
        assert KeyAt(over, ranges, c)[i] == KeyAt(over, ranges, d)[i];
        KeyPartAlike(k, shape, ranges[i], c, d);
      } else {
        CtaValue(k, Index(0, 0, 0), c);
        CtaValue(k, Index(0, 0, 0), d);
        SamePartAlike(k, shape, c, d);
      }
    }
  }

  // And one that agrees on the axes read.
  lemma AxesAlike(p: Pred, shape: Shape, read: Axes, c: Index, d: Index)
    requires AllFormed(p) && Agree(c, d, Used(p, read))
    ensures AllAlike(p, shape, AtCta(c), AtCta(d))
  {
    hide Alike, Formed, Used;
    UsedCovers(p, read);
    forall k | k in Constraints(p) ensures Alike(k, shape, AtCta(c), AtCta(d)) {
      CtaValue(k, Index(0, 0, 0), c);
      CtaValue(k, Index(0, 0, 0), d);
      if k.cta.Some? {
        PartAgrees(k.form.terms, c, d, Used(p, read));
      }
      SamePartAlike(k, shape, c, d);
    }
  }

  // The CTA's terms are ones the comparison records.
  ghost predicate Recorded(k: Constraint, c: Index) {
    k.cta.Some? ==> k.cta.value.0 <= CtaPart(k.form.terms, c) <= k.cta.value.1
  }

  lemma RecordedAlike(k: Constraint, shape: Shape, c: Index)
    requires Formed(k) && Recorded(k, c)
    ensures Alike(k, shape, AtCta(c), NOWHERE)
  {
    hide Thread, PlainOn, CtaPart, Formed;
    forall t: int, truth: bool | 0 <= t < Count(shape) && CanBe(k, Thread(t, shape), AtCta(c), truth)
      ensures CanBe(k, Thread(t, shape), NOWHERE, truth)
    {
      CtaValue(k, Thread(t, shape), c);
      assert TripFor(k, AtCta(c)) == TripFor(k, NOWHERE) == None;
    }
  }

  /** A CTA whose terms the comparisons record holds no fewer and no more than the tally with the CTA left open. */
  lemma OpenTallyBoundsCta(p: Pred, shape: Shape, c: Index, world: World)
    requires AllFormed(p) && OneElection(p) && Tally(p, shape, NOWHERE).Some?
    requires forall k :: k in Constraints(p) ==> Recorded(k, c)
    requires Count(shape) > 0 && AllowsActual(p, shape, AtCta(c), world)
    ensures Counts(Tally(p, shape, NOWHERE).value, world, shape)
  {
    hide Tally, AllowsTruly, AllowsActual, OneElection, Formed, Alike, Recorded;
    ActualAllowed(p, shape, AtCta(c), world);
    forall k | k in Constraints(p) ensures Alike(k, shape, AtCta(c), NOWHERE) {
      RecordedAlike(k, shape, c);
    }
    TallyBoundsAlike(p, shape, AtCta(c), NOWHERE, world);
  }

  // Every world at the CTA holds this many threads and warps.
  ghost predicate Pinned(p: Pred, shape: Shape, c: Index, threads: nat, warps: nat) {
    OneElection(p) && Count(shape) > 0 ==>
      forall world :: AllowsTruly(p, shape, AtCta(c), world) ==>
        HeldThreads(world, shape) == threads && HeldWarps(world, shape) == warps
  }

  /** An exact tally pins every world at its CTA. */
  lemma ExactPins(p: Pred, shape: Shape, c: Index)
    requires Tally(p, shape, AtCta(c)).Some? && Exact(Tally(p, shape, AtCta(c)).value)
    ensures var t := Tally(p, shape, AtCta(c)).value; Pinned(p, shape, c, t.0.certain, t.1.certain)
  {
    hide Tally, OneElection, AllowsTruly, HeldThreads, HeldWarps;
    if OneElection(p) && Count(shape) > 0 {
      forall world | AllowsTruly(p, shape, AtCta(c), world) ensures Counts(Tally(p, shape, AtCta(c)).value, world, shape) {
        TallyBoundsAlike(p, shape, AtCta(c), AtCta(c), world);
      }
    }
  }

  lemma PinsAlike(p: Pred, shape: Shape, c: Index, d: Index, threads: nat, warps: nat)
    requires Pinned(p, shape, c, threads, warps) && AllAlike(p, shape, AtCta(d), AtCta(c))
    ensures Pinned(p, shape, d, threads, warps)
  {
    hide OneElection, AllowsTruly, AllAlike, HeldThreads, HeldWarps;
    if OneElection(p) && Count(shape) > 0 {
      forall world | AllowsTruly(p, shape, AtCta(d), world) ensures AllowsTruly(p, shape, AtCta(c), world) {
        AlikeAllows(p, shape, AtCta(d), AtCta(c), world);
      }
    }
  }

  // At each CTA of the grid, a world of what its comparisons' forms come to.
  ghost predicate Ctas(p: Pred, shape: Shape, grid: Shape, worlds: Index -> World) {
    && Count(shape) > 0 && OneElection(p)
    && forall c :: Lanes.Inside(c, grid) ==> AllowsActual(p, shape, AtCta(c), worlds(c))
  }

  // The threads and the warps a CTA holds, as often as it weighs.
  ghost function HeldTimes(weight: Weight, shape: Shape, worlds: Index -> World, c: Index): nat {
    if HeldThreads(worlds(c), shape) > 0 && weight(c).Some? then weight(c).value * HeldThreads(worlds(c), shape) else 0
  }

  ghost function WarpTimes(weight: Weight, shape: Shape, worlds: Index -> World, c: Index): nat {
    if HeldThreads(worlds(c), shape) > 0 && weight(c).Some? then weight(c).value * HeldWarps(worlds(c), shape) else 0
  }

  ghost predicate Weighed(weight: Weight, shape: Shape, worlds: Index -> World, c: Index) {
    HeldThreads(worlds(c), shape) > 0 ==> weight(c).Some?
  }

  // The groups hold what the CTAs before `n` do, each group's numbers pinned at one of them.
  ghost predicate Gathers(p: Pred, shape: Shape, m: Shape, weight: Weight, groups: seq<Group>, n: nat)
    requires n <= Count(m)
  {
    forall worlds: Index -> World :: Ctas(p, shape, m, worlds) ==> Gathered(shape, m, weight, groups, n, worlds)
  }

  ghost predicate Gathered(shape: Shape, m: Shape, weight: Weight, groups: seq<Group>, n: nat, worlds: Index -> World)
    requires n <= Count(m)
  {
    && (forall i: int :: 0 <= i < n ==> Weighed(weight, shape, worlds, Thread(i, m)))
    && GroupThreads(groups) == LinearSum((c: Index) => HeldTimes(weight, shape, worlds, c), m, n)
    && GroupWarps(groups) == LinearSum((c: Index) => WarpTimes(weight, shape, worlds, c), m, n)
  }

  ghost predicate PinnedBefore(p: Pred, shape: Shape, m: Shape, ranges: seq<(int, int)>, g: Group, n: nat)
    requires n <= Count(m) && RangesOf(OverCtas(Constraints(p)), shape, ranges)
  {
    exists i: int :: 0 <= i < n && g.key == KeyAt(OverCtas(Constraints(p)), ranges, Thread(i, m)) &&
      Pinned(p, shape, Thread(i, m), g.threads, g.warps)
  }

  ghost predicate Settled(p: Pred, shape: Shape, c: Index) {
    exists threads: nat, warps: nat :: Pinned(p, shape, c, threads, warps)
  }

  // What grouping keeps, whatever overflows.
  ghost predicate Keeps(p: Pred, shape: Shape, m: Shape, ranges: seq<(int, int)>, weight: Weight, groups: seq<Group>,
                        n: nat)
    requires n <= Count(m) && RangesOf(OverCtas(Constraints(p)), shape, ranges)
  {
    && |groups| <= n
    && (forall i :: 0 <= i < |groups| ==> PinnedBefore(p, shape, m, ranges, groups[i], n))
    && (forall i: int :: 0 <= i < n ==> Settled(p, shape, Thread(i, m)))
    && Gathers(p, shape, m, weight, groups, n)
  }

  lemma KeepsNone(p: Pred, shape: Shape, m: Shape, ranges: seq<(int, int)>, weight: Weight)
    requires RangesOf(OverCtas(Constraints(p)), shape, ranges)
    ensures Keeps(p, shape, m, ranges, weight, [], 0)
  {
    hide Ctas;
  }

  // A group found by its key is pinned at the CTA too.
  lemma FoundPins(p: Pred, shape: Shape, m: Shape, ranges: seq<(int, int)>, g: Group, n: nat)
    requires AllFormed(p) && n < Count(m) && RangesOf(OverCtas(Constraints(p)), shape, ranges)
    requires PinnedBefore(p, shape, m, ranges, g, n) && g.key == KeyAt(OverCtas(Constraints(p)), ranges, Thread(n, m))
    ensures Pinned(p, shape, Thread(n, m), g.threads, g.warps)
  {
    hide KeyAt, AllFormed, Thread, Pinned, LaneRange;
    var i: int :| 0 <= i < n && g.key == KeyAt(OverCtas(Constraints(p)), ranges, Thread(i, m)) &&
      Pinned(p, shape, Thread(i, m), g.threads, g.warps);
    KeysAlike(p, shape, ranges, Thread(n, m), Thread(i, m));
    PinsAlike(p, shape, Thread(i, m), Thread(n, m), g.threads, g.warps);
  }

  lemma KeepsNext(p: Pred, shape: Shape, m: Shape, ranges: seq<(int, int)>, weight: Weight, groups: seq<Group>, n: nat,
                  g: Group, more: nat, next: seq<Group>)
    requires n < Count(m) && RangesOf(OverCtas(Constraints(p)), shape, ranges)
    requires Keeps(p, shape, m, ranges, weight, groups, n)
    requires g.key == KeyAt(OverCtas(Constraints(p)), ranges, Thread(n, m))
    requires Pinned(p, shape, Thread(n, m), g.threads, g.warps)
    requires if g.threads > 0 then weight(Thread(n, m)) == Some(more) else more == 0
    requires var i := FindKey(groups, g.key);
      if i < |groups| then g == groups[i] && next == groups[i := g.(weight := g.weight + more)]
      else next == groups + [g.(weight := more)]
    ensures Keeps(p, shape, m, ranges, weight, next, n + 1)
  {
    hide KeyAt, RangesOf, PinnedBefore, Thread, GroupThreads, GroupWarps, Pinned, Gathers, FindKey, Count, Settled;
    TakesSums(groups, g, more, next);
    GathersNext(p, shape, m, weight, groups, n, g, more, next);
    PinsGroups(p, shape, m, ranges, groups, n, g, more, next);
    SettledNow(p, shape, Thread(n, m), g.threads, g.warps);
  }

  lemma SettledNow(p: Pred, shape: Shape, c: Index, threads: nat, warps: nat)
    requires Pinned(p, shape, c, threads, warps)
    ensures Settled(p, shape, c)
  {
    hide Pinned;
  }

  lemma PinsGroups(p: Pred, shape: Shape, m: Shape, ranges: seq<(int, int)>, groups: seq<Group>, n: nat, g: Group,
                   more: nat, next: seq<Group>)
    requires n < Count(m) && RangesOf(OverCtas(Constraints(p)), shape, ranges)
    requires forall i :: 0 <= i < |groups| ==> PinnedBefore(p, shape, m, ranges, groups[i], n)
    requires g.key == KeyAt(OverCtas(Constraints(p)), ranges, Thread(n, m))
    requires Pinned(p, shape, Thread(n, m), g.threads, g.warps)
    requires var i := FindKey(groups, g.key);
      if i < |groups| then g == groups[i] && next == groups[i := g.(weight := g.weight + more)]
      else next == groups + [g.(weight := more)]
    ensures |next| <= |groups| + 1
    ensures forall i :: 0 <= i < |next| ==> PinnedBefore(p, shape, m, ranges, next[i], n + 1)
  {
    hide KeyAt, RangesOf, PinnedBefore, Thread, Pinned;
    forall j | 0 <= j < |next| ensures PinnedBefore(p, shape, m, ranges, next[j], n + 1) {
      if j < |groups| {
        PinnedLater(p, shape, m, ranges, groups[j], next[j], n);
      } else {
        PinnedNow(p, shape, m, ranges, next[j], n);
      }
    }
  }

  lemma PinnedLater(p: Pred, shape: Shape, m: Shape, ranges: seq<(int, int)>, g: Group, h: Group, n: nat)
    requires n < Count(m) && RangesOf(OverCtas(Constraints(p)), shape, ranges) && PinnedBefore(p, shape, m, ranges, g, n)
    requires h.key == g.key && h.threads == g.threads && h.warps == g.warps
    ensures PinnedBefore(p, shape, m, ranges, h, n + 1)
  {
    hide KeyAt, LaneRange, Thread, Pinned;
    var i: int :| 0 <= i < n && g.key == KeyAt(OverCtas(Constraints(p)), ranges, Thread(i, m)) &&
      Pinned(p, shape, Thread(i, m), g.threads, g.warps);
  }

  lemma PinnedNow(p: Pred, shape: Shape, m: Shape, ranges: seq<(int, int)>, g: Group, n: nat)
    requires n < Count(m) && RangesOf(OverCtas(Constraints(p)), shape, ranges)
    requires g.key == KeyAt(OverCtas(Constraints(p)), ranges, Thread(n, m))
    requires Pinned(p, shape, Thread(n, m), g.threads, g.warps)
    ensures PinnedBefore(p, shape, m, ranges, g, n + 1)
  {
    hide KeyAt, RangesOf, Thread, Pinned;
  }

  lemma GathersNext(p: Pred, shape: Shape, m: Shape, weight: Weight, groups: seq<Group>, n: nat,
                    g: Group, more: nat, next: seq<Group>)
    requires n < Count(m) && Gathers(p, shape, m, weight, groups, n)
    requires Pinned(p, shape, Thread(n, m), g.threads, g.warps)
    requires if g.threads > 0 then weight(Thread(n, m)) == Some(more) else more == 0
    requires GroupThreads(next) == GroupThreads(groups) + more * g.threads
    requires GroupWarps(next) == GroupWarps(groups) + more * g.warps
    ensures Gathers(p, shape, m, weight, next, n + 1)
  {
    hide Thread, GroupThreads, GroupWarps, HeldThreads, HeldWarps, AllowsTruly, AllowsActual, OneElection;
    LinearOfThread(n, m);
    forall worlds: Index -> World | Ctas(p, shape, m, worlds)
      ensures Gathered(shape, m, weight, next, n + 1, worlds)
    {
      var c := Thread(n, m);
      assert Gathered(shape, m, weight, groups, n, worlds);
      ActualAllowed(p, shape, AtCta(c), worlds(c));
      assert HeldTimes(weight, shape, worlds, c) == more * g.threads;
      assert WarpTimes(weight, shape, worlds, c) == more * g.warps;
    }
  }

  lemma {:induction false} SameSum(f: Index -> nat, h: Index -> nat, shape: Shape, n: nat)
    requires n <= Count(shape) && forall i: int :: 0 <= i < n ==> f(Thread(i, shape)) == h(Thread(i, shape))
    ensures LinearSum(f, shape, n) == LinearSum(h, shape, n)
  {
    hide Thread;
    if n > 0 {
      SameSum(f, h, shape, n - 1);
    }
  }

  // The CTA of the reduced grid a CTA agrees with.
  function Project(c: Index, used: Axes): Index {
    Index(if used.x then c.x else 0, if used.y then c.y else 0, if used.z then c.z else 0)
  }

  // A CTA holds what the one it agrees with does.
  lemma ProjectHolds(p: Pred, shape: Shape, grid: Shape, read: Axes, weight: Weight, worlds: Index -> World, c: Index)
    requires AllFormed(p) && WeightReads(weight, read) && Ctas(p, shape, grid, worlds)
    requires Lanes.Inside(c, grid)
    requires var d := Project(c, Used(p, read)); Settled(p, shape, d) && Lanes.Inside(d, grid) && Weighed(weight, shape, worlds, d)
    ensures var d := Project(c, Used(p, read));
      && HeldTimes(weight, shape, worlds, c) == HeldTimes(weight, shape, worlds, d)
      && WarpTimes(weight, shape, worlds, c) == WarpTimes(weight, shape, worlds, d)
      && Weighed(weight, shape, worlds, c)
  {
    hide AllFormed, Used, HeldThreads, HeldWarps, AllowsTruly, AllowsActual, OneElection, AllAlike;
    var d := Project(c, Used(p, read));
    UsedCovers(p, read);
    assert weight(c) == weight(d);
    var threads: nat, warps: nat :| Pinned(p, shape, d, threads, warps);
    AxesAlike(p, shape, read, c, d);
    PinsAlike(p, shape, d, c, threads, warps);
    ActualAllowed(p, shape, AtCta(c), worlds(c));
    ActualAllowed(p, shape, AtCta(d), worlds(d));
  }

  lemma ProjectInside(grid: Shape, used: Axes, c: Index)
    requires Lanes.Inside(c, grid)
    ensures Lanes.Inside(Project(c, used), grid) && Lanes.Inside(Project(c, used), Reduced(grid, used))
    ensures Lanes.Inside(c, Reduced(grid, used)) ==> Project(c, used) == c
  {
  }

  // What a launch counts is what its CTAs hold, in every world.
  ghost predicate LaunchHolds(p: Pred, shape: Shape, grid: Shape, weight: Weight, threads: nat, warps: nat) {
    forall worlds: Index -> World :: Ctas(p, shape, grid, worlds) ==>
      && (forall c :: Lanes.Inside(c, grid) ==> Weighed(weight, shape, worlds, c))
      && threads == LinearSum((c: Index) => HeldTimes(weight, shape, worlds, c), grid, Count(grid))
      && warps == LinearSum((c: Index) => WarpTimes(weight, shape, worlds, c), grid, Count(grid))
  }

  lemma LaunchKeeps(p: Pred, shape: Shape, grid: Shape, read: Axes, ranges: seq<(int, int)>, weight: Weight,
                    groups: seq<Group>)
    requires AllFormed(p) && WeightReads(weight, read) && RangesOf(OverCtas(Constraints(p)), shape, ranges)
    requires Count(grid) > 0
    requires var m := Reduced(grid, Used(p, read)); Keeps(p, shape, m, ranges, weight, groups, Count(m))
    ensures LaunchHolds(p, shape, grid, weight, GroupThreads(groups) * Rest(grid, Used(p, read)),
                        GroupWarps(groups) * Rest(grid, Used(p, read)))
  {
    hide AllFormed, Used, Rest, GroupThreads, GroupWarps, PinnedBefore, RangesOf, WeightReads, Ctas;
    forall worlds: Index -> World | Ctas(p, shape, grid, worlds)
      ensures forall c :: Lanes.Inside(c, grid) ==> Weighed(weight, shape, worlds, c)
      ensures GroupThreads(groups) * Rest(grid, Used(p, read)) ==
              LinearSum((c: Index) => HeldTimes(weight, shape, worlds, c), grid, Count(grid))
      ensures GroupWarps(groups) * Rest(grid, Used(p, read)) ==
              LinearSum((c: Index) => WarpTimes(weight, shape, worlds, c), grid, Count(grid))
    {
      WorldsKeep(p, shape, grid, read, ranges, weight, groups, worlds);
    }
  }

  lemma FewerCtas(p: Pred, shape: Shape, grid: Shape, used: Axes, worlds: Index -> World)
    requires Count(grid) > 0 && Ctas(p, shape, grid, worlds)
    ensures Ctas(p, shape, Reduced(grid, used), worlds)
  {
    hide AllowsActual, OneElection;
    ReducedFits(grid, used);
  }

  lemma WorldsKeep(p: Pred, shape: Shape, grid: Shape, read: Axes, ranges: seq<(int, int)>, weight: Weight,
                   groups: seq<Group>, worlds: Index -> World)
    requires AllFormed(p) && WeightReads(weight, read) && RangesOf(OverCtas(Constraints(p)), shape, ranges)
    requires Count(grid) > 0 && Ctas(p, shape, grid, worlds)
    requires var m := Reduced(grid, Used(p, read)); Keeps(p, shape, m, ranges, weight, groups, Count(m))
    ensures forall c :: Lanes.Inside(c, grid) ==> Weighed(weight, shape, worlds, c)
    ensures GroupThreads(groups) * Rest(grid, Used(p, read)) ==
            LinearSum((c: Index) => HeldTimes(weight, shape, worlds, c), grid, Count(grid))
    ensures GroupWarps(groups) * Rest(grid, Used(p, read)) ==
            LinearSum((c: Index) => WarpTimes(weight, shape, worlds, c), grid, Count(grid))
  {
    hide AllFormed, Used, Rest, GroupThreads, GroupWarps, PinnedBefore, RangesOf, WeightReads, Ctas, HeldTimes, WarpTimes,
      LinearSum, Thread, Settled, Weighed, Project, Count, Reduced;
    var used := Used(p, read);
    var m := Reduced(grid, used);
    FewerCtas(p, shape, grid, used, worlds);
    assert Gathered(shape, m, weight, groups, Count(m), worlds);
    forall c | Lanes.Inside(c, grid)
      ensures HeldTimes(weight, shape, worlds, c) == HeldTimes(weight, shape, worlds, Project(c, used))
      ensures WarpTimes(weight, shape, worlds, c) == WarpTimes(weight, shape, worlds, Project(c, used))
      ensures Weighed(weight, shape, worlds, c)
    {
      var d := Project(c, used);
      ProjectInside(grid, used, c);
      ThreadOfLinear(d, m);
      assert Settled(p, shape, Thread(Linear(d, m), m)) && Weighed(weight, shape, worlds, Thread(Linear(d, m), m));
      ProjectHolds(p, shape, grid, read, weight, worlds, c);
    }
    ProjectedSum((c: Index) => HeldTimes(weight, shape, worlds, c), grid, used);
    ProjectedSum((c: Index) => WarpTimes(weight, shape, worlds, c), grid, used);
  }

  // A sum that reads a CTA only through the axes used multiplies by the others.
  lemma ProjectedSum(f: Index -> nat, grid: Shape, used: Axes)
    requires Count(grid) > 0 && forall c :: Lanes.Inside(c, grid) ==> f(c) == f(Project(c, used))
    ensures LinearSum(f, grid, Count(grid)) ==
            Rest(grid, used) * LinearSum(f, Reduced(grid, used), Count(Reduced(grid, used)))
  {
    hide LinearSum, Thread, Rest, ReadsOnly;
    var m := Reduced(grid, used);
    var h := (c: Index) => f(Project(c, used));
    ProjectReads(f, h, used);
    UnreadAxesMultiply(h, used, grid);
    forall i: int | 0 <= i < Count(grid) ensures f(Thread(i, grid)) == h(Thread(i, grid)) {
      LinearOfThread(i, grid);
    }
    SameSum(f, h, grid, Count(grid));
    ReducedFits(grid, used);
    forall i: int | 0 <= i < Count(m) ensures f(Thread(i, m)) == h(Thread(i, m)) {
      LinearOfThread(i, m);
    }
    SameSum(f, h, m, Count(m));
  }

  lemma ProjectReads(f: Index -> nat, h: Index -> nat, used: Axes)
    requires forall c: Index :: h(c) == f(Project(c, used))
    ensures ReadsOnly(h, used)
  {
    forall c: Index, d: Index | Agree(c, d, used) ensures h(c) == h(d) {
      assert Project(c, used) == Project(d, used);
    }
  }

  lemma NoFactor(x: nat, y: nat, z: nat)
    ensures x * y * z == 0 <==> x == 0 || y == 0 || z == 0
  {
    if x > 0 && y > 0 && z > 0 {
      Grows(x, y);
      Grows(x * y, z);
    }
  }

  // On an empty grid no CTA is read or every one read counts for none.
  lemma NoRest(grid: Shape, used: Axes)
    requires Count(grid) == 0 && Count(Reduced(grid, used)) > 0
    ensures Rest(grid, used) == 0
  {
    var m := Reduced(grid, used);
    NoFactor(grid.nx, grid.ny, grid.nz);
    NoFactor(m.nx, m.ny, m.nz);
    NoFactor(Unread(grid.nx, used.x), Unread(grid.ny, used.y), Unread(grid.nz, used.z));
  }

  lemma EmptyGrid(p: Pred, shape: Shape, grid: Shape, read: Axes, weight: Weight, groups: seq<Group>)
    requires Count(grid) == 0 && |groups| <= Count(Reduced(grid, Used(p, read)))
    ensures LaunchHolds(p, shape, grid, weight, GroupThreads(groups) * Rest(grid, Used(p, read)),
                        GroupWarps(groups) * Rest(grid, Used(p, read)))
  {
    hide Used, Ctas, Rest, Reduced, Weighed;
    var rest := Rest(grid, Used(p, read));
    if groups != [] {
      NoRest(grid, Used(p, read));
    }
    assert GroupThreads(groups) * rest == 0 && GroupWarps(groups) * rest == 0;
    hide GroupThreads, GroupWarps;
    forall c ensures !Lanes.Inside(c, grid) {
      NoneInside(grid, c);
    }
    hide Count;
  }

  lemma NoneInside(grid: Shape, c: Index)
    requires Count(grid) == 0
    ensures !Lanes.Inside(c, grid)
  {
    NoFactor(grid.nx, grid.ny, grid.nz);
  }

  // Each group has a CTA of its key, and no two groups have one key.
  ghost predicate Stand(over: seq<Constraint>, ranges: seq<(int, int)>, m: Shape, groups: seq<Group>, firsts: seq<Index>)
    requires |ranges| == |over|
  {
    && |firsts| == |groups|
    && (forall i :: 0 <= i < |groups| ==> Lanes.Inside(firsts[i], m) && KeyAt(over, ranges, firsts[i]) == groups[i].key)
    && (forall i, j :: 0 <= i < j < |groups| ==> groups[i].key != groups[j].key)
  }

  lemma NoneStand(over: seq<Constraint>, ranges: seq<(int, int)>, m: Shape)
    requires |ranges| == |over|
    ensures Stand(over, ranges, m, [], [])
  {
  }

  lemma NextStands(over: seq<Constraint>, ranges: seq<(int, int)>, m: Shape, groups: seq<Group>, firsts: seq<Index>,
                   c: Index, g: Group, more: nat, next: seq<Group>)
    requires |ranges| == |over| && Stand(over, ranges, m, groups, firsts) && Lanes.Inside(c, m)
    requires g.key == KeyAt(over, ranges, c)
    requires var i := FindKey(groups, g.key);
      next == if i < |groups| then groups[i := g.(weight := g.weight + more)] else groups + [g.(weight := more)]
    ensures Stand(over, ranges, m, next, if FindKey(groups, g.key) < |groups| then firsts else firsts + [c])
  {
    hide KeyAt, FindKey, Lanes.Inside;
  }

  lemma StandUnlike(p: Pred, shape: Shape, ranges: seq<(int, int)>, m: Shape, groups: seq<Group>, firsts: seq<Index>)
    requires RangesOf(OverCtas(Constraints(p)), shape, ranges)
    requires Stand(OverCtas(Constraints(p)), ranges, m, groups, firsts) && |groups| > LANE_BUDGET / Count(shape)
    ensures ManyUnlike(p, shape, m)
  {
    hide KeyAt, Distinct, Lanes.Inside, LaneRange;
    forall i, j | 0 <= i < j < |firsts| ensures Distinct(p, shape, firsts[i], firsts[j]) {
      KeysDistinct(p, shape, ranges, firsts[i], firsts[j]);
    }
    assert Unlike(p, shape, m, firsts);
  }

  // The CTAs of the axes read, in groups by key; where no reading overflows, none only past the budget or where one
  // is not countable.
  method Grouped(p: Pred, shape: Shape, ghost grid: Shape, m: Shape, ranges: seq<(int, int)>, weight: Weight)
    returns (groups: Option<seq<Group>>)
    requires AllFormed(p) && m.nx <= grid.nx && m.ny <= grid.ny && m.nz <= grid.nz
    requires RangesOf(OverCtas(Constraints(p)), shape, ranges)
    ensures groups.Some? ==> Keeps(p, shape, m, ranges, weight, groups.value, Count(m))
    ensures groups.Some? && NoOverflow(p, shape, grid) ==> Holds3(p, shape, m, ranges, weight, groups.value, Count(m))
    ensures groups.None? && NoOverflow(p, shape, grid) ==>
      (exists c :: Lanes.Inside(c, m) && !Countable(p, shape, weight, c)) || ManyUnlike(p, shape, m)
  {
    hide Tally, KeyAt, RangesOf, NoOverflow, Stand, ManyUnlike, AllFormed, Thread, Holds3, Grounded, GroupIs, Keeps, PinnedBefore, Pinned;
    ghost var exact := NoOverflow(p, shape, grid);
    var over := OverCtas(Constraints(p));
    var out: seq<Group> := [];
    var n := 0;
    ghost var firsts: seq<Index> := [];
    RangesFit(over, shape, ranges);
    NoneStand(over, ranges, m);
    NoGroups(p, shape, m, ranges, weight);
    KeepsNone(p, shape, m, ranges, weight);
    while n < Count(m)
      invariant 0 <= n <= Count(m)
      invariant Keeps(p, shape, m, ranges, weight, out, n)
      invariant exact ==> Holds3(p, shape, m, ranges, weight, out, n)
      invariant Stand(over, ranges, m, out, firsts)
    {
      var c := Thread(n, m);
      LinearOfThread(n, m);
      var key := KeyAt(over, ranges, c);
      var i := FindKey(out, key);
      var g: Group;
      if i < |out| {
        g := out[i];
        KeptGroup(p, shape, m, ranges, weight, out, n, i);
        FoundPins(p, shape, m, ranges, g, n);
        if exact {
          GroupGrounded(p, shape, m, ranges, weight, out, n, i);
          FoundTalliesAlike(p, shape, grid, m, ranges, g, n);
        }
      } else {
        var t := Tally(p, shape, AtCta(c));
        NotCountable(p, shape, weight, c);
        if t.None? || !Exact(t.value) {
          return None;
        }
        g := Group(key, 0, t.value.0.certain, t.value.1.certain);
        OwnTally(p, shape, c, g);
        ExactPins(p, shape, c);
      }
      var more := 0;
      if g.threads > 0 {
        if weight(c).None? {
          if exact {
            NoWeight(p, shape, weight, c, g);
          }
          return None;
        }
        more := weight(c).value;
      }
      var next := if i < |out| then out[i := g.(weight := g.weight + more)] else out + [g.(weight := more)];
      KeepsNext(p, shape, m, ranges, weight, out, n, g, more, next);
      if exact {
        TakesCta(p, shape, m, ranges, weight, out, n, g, more, next);
      }
      NextStands(over, ranges, m, out, firsts, c, g, more, next);
      firsts := if i < |out| then firsts else firsts + [c];
      out := next;
      n := n + 1;
      if |out| > LANE_BUDGET / Count(shape) {
        StandUnlike(p, shape, ranges, m, out, firsts);
        return None;
      }
    }
    groups := Some(out);
  }

  lemma RangesFit(over: seq<Constraint>, shape: Shape, ranges: seq<(int, int)>)
    requires RangesOf(over, shape, ranges)
    ensures |ranges| == |over| && Count(shape) > 0
  {
  }

  lemma GroupGrounded(p: Pred, shape: Shape, m: Shape, ranges: seq<(int, int)>, weight: Weight, groups: seq<Group>,
                      n: nat, i: nat)
    requires n <= Count(m) && RangesOf(OverCtas(Constraints(p)), shape, ranges) && i < |groups|
    requires Holds3(p, shape, m, ranges, weight, groups, n)
    ensures Grounded(p, shape, m, ranges, groups[i], n)
  {
    hide Grounded;
  }

  lemma KeptGroup(p: Pred, shape: Shape, m: Shape, ranges: seq<(int, int)>, weight: Weight, groups: seq<Group>,
                  n: nat, i: nat)
    requires n <= Count(m) && RangesOf(OverCtas(Constraints(p)), shape, ranges) && i < |groups|
    requires Keeps(p, shape, m, ranges, weight, groups, n)
    ensures PinnedBefore(p, shape, m, ranges, groups[i], n)
  {
    hide PinnedBefore;
  }

  lemma NotCountable(p: Pred, shape: Shape, weight: Weight, c: Index)
    ensures Tally(p, shape, AtCta(c)).None? || !Exact(Tally(p, shape, AtCta(c)).value) ==> !Countable(p, shape, weight, c)
  {
    hide Tally;
  }

  lemma OwnTally(p: Pred, shape: Shape, c: Index, g: Group)
    requires Tally(p, shape, AtCta(c)).Some? && Exact(Tally(p, shape, AtCta(c)).value)
    requires g.threads == Tally(p, shape, AtCta(c)).value.0.certain && g.warps == Tally(p, shape, AtCta(c)).value.1.certain
    ensures GroupIs(p, shape, c, g)
  {
    hide Tally;
  }

  lemma NoWeight(p: Pred, shape: Shape, weight: Weight, c: Index, g: Group)
    requires GroupIs(p, shape, c, g) && g.threads > 0 && weight(c).None?
    ensures !Countable(p, shape, weight, c)
  {
    hide Tally;
  }

  lemma ReducedFits(grid: Shape, used: Axes)
    requires Count(grid) > 0
    ensures var m := Reduced(grid, used); m.nx <= grid.nx && m.ny <= grid.ny && m.nz <= grid.nz && Count(m) > 0
  {
    PositiveExtents(grid);
    var m := Reduced(grid, used);
    Grows(m.nx, m.ny);
    Grows(m.nx * m.ny, m.nz);
  }

  /** What every CTA weighs and holds reads only the axes used. */
  lemma WeightedReadsUsed(p: Pred, shape: Shape, read: Axes, weight: Weight)
    requires AllFormed(p) && Count(shape) > 0 && WeightReads(weight, read)
    ensures ReadsOnly((c: Index) => WeightedThreads(p, shape, weight, c), Used(p, read))
    ensures ReadsOnly((c: Index) => WeightedWarps(p, shape, weight, c), Used(p, read))
    ensures forall c: Index, d: Index :: Agree(c, d, Used(p, read)) && Countable(p, shape, weight, c) ==>
      Countable(p, shape, weight, d)
  {
    hide Tally, AllFormed, Used;
    forall c: Index, d: Index | Agree(c, d, Used(p, read))
      ensures Tally(p, shape, AtCta(c)) == Tally(p, shape, AtCta(d)) && weight(c) == weight(d)
    {
      UsedCovers(p, read);
      AgreedTalliesAlike(p, shape, Used(p, read), c, d);
    }
  }

  lemma UsedCovers(p: Pred, read: Axes)
    ensures Covered(read, Used(p, read))
    ensures forall k, t :: k in Constraints(p) && k.cta.Some? && t in k.form.terms ==> Covered(AxesOf(t.0), Used(p, read))
  {
  }

  // Each CTA of the grid agrees with the one of the reduced grid.
  lemma Projected(grid: Shape, used: Axes, c: Index) returns (d: Index)
    requires Lanes.Inside(c, grid)
    ensures Lanes.Inside(d, Reduced(grid, used)) && Agree(d, c, used)
  {
    d := Index(if used.x then c.x else 0, if used.y then c.y else 0, if used.z then c.z else 0);
  }

  // The groups' sums, times the CTAs of the axes not read, are the launch's.
  lemma LaunchIs(p: Pred, shape: Shape, grid: Shape, read: Axes, ranges: seq<(int, int)>, weight: Weight,
                 groups: seq<Group>)
    requires AllFormed(p) && WeightReads(weight, read) && RangesOf(OverCtas(Constraints(p)), shape, ranges)
    requires var m := Reduced(grid, Used(p, read)); Holds3(p, shape, m, ranges, weight, groups, Count(m))
    ensures forall c :: Lanes.Inside(c, grid) ==> Countable(p, shape, weight, c)
    ensures GroupThreads(groups) * Rest(grid, Used(p, read)) ==
            LinearSum((c: Index) => WeightedThreads(p, shape, weight, c), grid, Count(grid))
    ensures GroupWarps(groups) * Rest(grid, Used(p, read)) ==
            LinearSum((c: Index) => WeightedWarps(p, shape, weight, c), grid, Count(grid))
  {
    hide AllFormed, LaneRange, Grounded, GroupThreads, GroupWarps, WeightedThreads, WeightedWarps, Countable, LinearSum,
      Thread, Used, Rest;
    WeightedReadsUsed(p, shape, read, weight);
    var used := Used(p, read);
    var m := Reduced(grid, used);
    UnreadAxesMultiply((c: Index) => WeightedThreads(p, shape, weight, c), used, grid);
    UnreadAxesMultiply((c: Index) => WeightedWarps(p, shape, weight, c), used, grid);
    forall c | Lanes.Inside(c, grid) ensures Countable(p, shape, weight, c) {
      var d := Projected(grid, used, c);
      ThreadOfLinear(d, m);
      assert Countable(p, shape, weight, Thread(Linear(d, m), m));
    }
  }

  /**
   * The threads and warps over a launch, weighted by CTA: what the CTAs of the grid hold, their comparisons read over
   * the integers, although one CTA of each group is counted and the axes not read only multiply. Where no reading
   * overflows it is the sum of the CTAs' own tallies too, and none only where one is not countable or a limit is met: of
   * CTAs gone through, of those no two of which are read alike, or of the word.
   */
  method WeightedLaunch(p: Pred, shape: Shape, grid: Shape, read: Axes, weight: Weight) returns (r: Option<(nat, nat)>)
    requires AllFormed(p) && WeightReads(weight, read)
    ensures r.Some? ==> LaunchHolds(p, shape, grid, weight, r.value.0, r.value.1)
    ensures r.Some? ==> r.value.0 <= WORD_MAX && r.value.1 <= WORD_MAX
    ensures r.Some? && Count(grid) > 0 && NoOverflow(p, shape, grid) ==>
      && (forall c :: Lanes.Inside(c, grid) ==> Countable(p, shape, weight, c))
      && r.value.0 == LinearSum((c: Index) => WeightedThreads(p, shape, weight, c), grid, Count(grid))
      && r.value.1 == LinearSum((c: Index) => WeightedWarps(p, shape, weight, c), grid, Count(grid))
    ensures r.None? && Count(grid) > 0 && NoOverflow(p, shape, grid) ==> Uncounted(p, shape, grid, read, weight)
  {
    hide AllFormed, LaneRange, Holds3, GroupThreads, GroupWarps, WeightedThreads, WeightedWarps, Countable, LinearSum,
      Used, Rest, NoOverflow, RangesOf, Uncounted, Keeps, LaunchHolds;
    var over := OverCtas(Constraints(p));
    var used := UsedAxes(over, read);
    UsedIs(p, read);
    var m := Reduced(grid, used);
    var ctas := CheckedProduct(m.nx, m.ny, m.nz);
    var rest := CheckedProduct(Unread(grid.nx, used.x), Unread(grid.ny, used.y), Unread(grid.nz, used.z));
    if ctas.None? || rest.None? || ctas.value > CTA_BUDGET || Count(shape) == 0 {
      if Count(grid) > 0 {
        TooMany(p, shape, grid, read, weight);
      }
      return None;
    }
    RestIs(grid, used);
    var ranges := Ranges(over, shape);
    if ranges.None? {
      Overflows(p, shape, grid, read, weight);
      return None;
    }
    var groups: Option<seq<Group>> := None;
    if Count(grid) > 0 {
      ReducedFits(grid, used);
      groups := Grouped(p, shape, grid, m, ranges.value, weight);
    } else {
      groups := Grouped(p, shape, m, m, ranges.value, weight);
    }
    if groups.None? {
      if Count(grid) > 0 && NoOverflow(p, shape, grid) {
        NoCount(p, shape, grid, read, weight);
      }
      return None;
    }
    r := Multiplied(GroupThreads(groups.value), GroupWarps(groups.value), rest.value);
    if Count(grid) > 0 {
      LaunchKeeps(p, shape, grid, read, ranges.value, weight, groups.value);
    } else {
      FewKept(p, shape, m, ranges.value, weight, groups.value);
      EmptyGrid(p, shape, grid, read, weight, groups.value);
    }
    if Count(grid) > 0 && NoOverflow(p, shape, grid) {
      LaunchIs(p, shape, grid, read, ranges.value, weight, groups.value);
      PositiveRest(grid, used);
      if r.None? {
        Exceeds(p, shape, grid, read, weight);
      }
    }
  }

  lemma FewKept(p: Pred, shape: Shape, m: Shape, ranges: seq<(int, int)>, weight: Weight, groups: seq<Group>)
    requires RangesOf(OverCtas(Constraints(p)), shape, ranges) && Keeps(p, shape, m, ranges, weight, groups, Count(m))
    ensures |groups| <= Count(m)
  {
    hide PinnedBefore;
  }

  // Both sums times the CTAs of the axes not read, where they fit.
  method Multiplied(threads: nat, warps: nat, rest: nat) returns (r: Option<(nat, nat)>)
    ensures r.Some? ==> r.value == (threads * rest, warps * rest) && r.value.0 <= WORD_MAX && r.value.1 <= WORD_MAX
    ensures r.None? && rest > 0 ==> threads * rest > WORD_MAX || warps * rest > WORD_MAX
  {
    LaunchGrows(threads, rest);
    LaunchGrows(warps, rest);
    var t, w := threads * rest, warps * rest;
    if threads > WORD_MAX || warps > WORD_MAX || t > WORD_MAX || w > WORD_MAX {
      return None;
    }
    r := Some((t, w));
  }

  // Why a launch has no count.
  ghost predicate Uncounted(p: Pred, shape: Shape, grid: Shape, read: Axes, weight: Weight) {
    var m := Reduced(grid, Used(p, read));
    || Count(shape) == 0
    || Count(m) > CTA_BUDGET || Rest(grid, Used(p, read)) > WORD_MAX || ManyUnlike(p, shape, m)
    || (exists k, t: int :: k in Constraints(p) && k.cta.Some? && 0 <= t < Count(shape) &&
          FormAt(k.form, Reading(Thread(t, shape), NOWHERE)).None?)
    || (exists c :: Lanes.Inside(c, m) && !Countable(p, shape, weight, c))
    || LinearSum((c: Index) => WeightedThreads(p, shape, weight, c), grid, Count(grid)) > WORD_MAX
    || LinearSum((c: Index) => WeightedWarps(p, shape, weight, c), grid, Count(grid)) > WORD_MAX
  }

  lemma UsedIs(p: Pred, read: Axes)
    ensures Used(p, read) == UsedAxes(OverCtas(Constraints(p)), read)
  {
  }

  lemma RestIs(grid: Shape, used: Axes)
    ensures Rest(grid, used) == Unread(grid.nx, used.x) * Unread(grid.ny, used.y) * Unread(grid.nz, used.z)
  {
  }

  lemma PositiveRest(grid: Shape, used: Axes)
    requires Count(grid) > 0
    ensures Rest(grid, used) > 0
  {
    PositiveExtents(grid);
    Grows(Unread(grid.nx, used.x), Unread(grid.ny, used.y));
    Grows(Unread(grid.nx, used.x) * Unread(grid.ny, used.y), Unread(grid.nz, used.z));
  }

  lemma LaunchGrows(x: nat, k: nat)
    ensures k > 0 ==> x * k >= x
  {
    if k > 0 && x > 0 {
      Grows(x, k);
    }
  }

  // A partial product of positive extents is at most the grid's.
  lemma ProductGrows(x: nat, y: nat, z: nat, a: nat, b: nat, c: nat)
    requires 0 < x <= a && 0 < y <= b && 0 < z <= c
    ensures x <= a * b * c && x * y <= a * b * c && x * y * z <= a * b * c
  {
    Grows(a, b);
    Grows(a * b, c);
    TimesGrows(x, y, a, b);
    TimesGrows(x * y, z, a * b, c);
  }

  lemma TimesGrows(x: nat, y: nat, a: nat, b: nat)
    requires x <= a && y <= b
    ensures x * y <= a * b
  {
    assert a * b - x * y == (a - x) * b + x * (b - y) by {
      assert (a - x) * b == a * b - x * b;
      assert x * (b - y) == x * b - x * y;
    }
    assert (a - x) * b >= 0 && x * (b - y) >= 0;
  }

  lemma TooMany(p: Pred, shape: Shape, grid: Shape, read: Axes, weight: Weight)
    requires Count(grid) > 0
    requires var used := Used(p, read); var m := Reduced(grid, used);
      || CheckedProduct(m.nx, m.ny, m.nz).None?
      || CheckedProduct(Unread(grid.nx, used.x), Unread(grid.ny, used.y), Unread(grid.nz, used.z)).None?
      || CheckedProduct(m.nx, m.ny, m.nz).value > CTA_BUDGET
      || Count(shape) == 0
    ensures Uncounted(p, shape, grid, read, weight)
  {
    hide Countable, LinearSum, Used, LaneRange, ManyUnlike, FormAt;
    var used := Used(p, read);
    var m := Reduced(grid, used);
    PositiveExtents(grid);
    var a, b, c := Unread(grid.nx, used.x), Unread(grid.ny, used.y), Unread(grid.nz, used.z);
    ProductGrows(m.nx, m.ny, m.nz, m.nx, m.ny, m.nz);
    ProductGrows(a, b, c, a, b, c);
  }

  lemma Overflows(p: Pred, shape: Shape, grid: Shape, read: Axes, weight: Weight)
    requires Count(shape) > 0 && exists k :: k in OverCtas(Constraints(p)) && LaneRange(k, shape, Count(shape)).None?
    ensures Uncounted(p, shape, grid, read, weight)
  {
    hide Countable, LinearSum, Used, LaneRange, ManyUnlike, FormAt, Reading, Thread;
    var k :| k in OverCtas(Constraints(p)) && LaneRange(k, shape, Count(shape)).None?;
    LaneRangeEnds(k, shape, Count(shape));
    assert k in Constraints(p) && k.cta.Some?;
  }

  lemma NoCount(p: Pred, shape: Shape, grid: Shape, read: Axes, weight: Weight)
    requires Count(shape) > 0
    requires var m := Reduced(grid, Used(p, read));
      (exists c :: Lanes.Inside(c, m) && !Countable(p, shape, weight, c)) || ManyUnlike(p, shape, m)
    ensures Uncounted(p, shape, grid, read, weight)
  {
    hide Countable, LinearSum, Used, LaneRange, ManyUnlike, FormAt;
  }

  lemma Exceeds(p: Pred, shape: Shape, grid: Shape, read: Axes, weight: Weight)
    requires Count(shape) > 0
    requires LinearSum((c: Index) => WeightedThreads(p, shape, weight, c), grid, Count(grid)) > WORD_MAX ||
      LinearSum((c: Index) => WeightedWarps(p, shape, weight, c), grid, Count(grid)) > WORD_MAX
    ensures Uncounted(p, shape, grid, read, weight)
  {
    hide Countable, LinearSum, Used, LaneRange, ManyUnlike, FormAt;
  }
}
