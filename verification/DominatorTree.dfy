/** What the Cooper-Harvey-Kennedy iteration keeps while its dominator tree is
    still wrong: which claims each reassignment of an immediate dominator
    preserves, and why a pass that changes nothing leaves the true one. */
module DominatorTree {
  import opened Wrappers
  import opened Graphs
  import opened DepthFirst

  const UNREACHABLE: nat := 0xFFFF_FFFF_FFFF_FFFF

  /** Immediate dominators as guessed so far, and the reverse postorder position of each block. */
  datatype Tree = Tree(idom: seq<Option<BlockId>>, idx: seq<nat>, root: BlockId)

  ghost predicate Processed(t: Tree, b: BlockId) {
    b < |t.idom| && (b == t.root || t.idom[b].Some?)
  }

  ghost predicate Rooted(t: Tree) {
    && |t.idom| == |t.idx| && t.root < |t.idom|
    && forall b: nat :: 0 <= b < |t.idom| && b != t.root && t.idom[b].Some? ==>
         Processed(t, t.idom[b].value) && t.idx[t.idom[b].value] < t.idx[b]
  }

  /** `a` is `b` or on `b`'s way up to the root. */
  ghost predicate Above(t: Tree, a: BlockId, b: BlockId)
    requires Rooted(t)
    decreases if b < |t.idx| then t.idx[b] else 0
  {
    a == b || (Processed(t, b) && b != t.root && Above(t, a, t.idom[b].value))
  }

  lemma {:induction false} AboveOrder(t: Tree, a: BlockId, b: BlockId)
    requires Rooted(t) && Processed(t, b) && Above(t, a, b)
    ensures Processed(t, a) && (a == b || t.idx[a] < t.idx[b])
    decreases t.idx[b]
  {
    if a != b {
      AboveOrder(t, a, t.idom[b].value);
    }
  }

  lemma {:induction false} AboveTransitive(t: Tree, a: BlockId, b: BlockId, c: BlockId)
    requires Rooted(t) && Above(t, a, b) && Above(t, b, c)
    ensures Above(t, a, c)
    decreases if c < |t.idx| then t.idx[c] else 0
  {
    if b != c {
      AboveTransitive(t, a, b, t.idom[c].value);
    }
  }

  /** The way up is a line: of two blocks on it, the later one is below. */
  lemma {:induction false} AboveLinear(t: Tree, a: BlockId, b: BlockId, c: BlockId)
    requires Rooted(t) && Processed(t, c) && Above(t, a, c) && Above(t, b, c)
    requires b < |t.idx| && a < |t.idx| && t.idx[a] < t.idx[b]
    ensures Above(t, a, b)
    decreases t.idx[c]
  {
    if b != c {
      if a == c {
        AboveOrder(t, b, c);
      } else {
        AboveLinear(t, a, b, t.idom[c].value);
      }
    }
  }

  function Rehung(t: Tree, b: BlockId, z: BlockId): Tree
    requires b < |t.idom|
  {
    t.(idom := t.idom[b := Some(z)])
  }

  /** Hanging `b` under `z` replaces what was above `b`, for everything below `b`. */
  lemma {:induction false} AboveRehung(t: Tree, b: BlockId, z: BlockId, a: BlockId, x: BlockId)
    requires Rooted(t) && Processed(t, z) && b < |t.idom| && b != t.root && t.idx[z] < t.idx[b]
    ensures Rooted(Rehung(t, b, z))
    ensures Above(Rehung(t, b, z), a, x) <==>
            if Above(t, b, x) then (Above(t, a, x) && Above(t, b, a)) || Above(t, a, z) else Above(t, a, x)
    decreases if x < |t.idx| then t.idx[x] else 0
  {
    var t' := Rehung(t, b, z);
    assert forall y: nat :: Processed(t, y) ==> Processed(t', y);
    if x == b {
      NotBelowItself(t, b, z);
      AboveRehung(t, b, z, a, z);
      if Above(t, a, b) && Above(t, b, a) {
        AboveTwice(t, a, b);
      }
    } else if Processed(t, x) && x != t.root {
      AboveRehung(t, b, z, a, t.idom[x].value);
    }
  }

  lemma NotBelowItself(t: Tree, b: BlockId, z: BlockId)
    requires Rooted(t) && Processed(t, z) && b < |t.idom| && t.idx[z] < t.idx[b]
    ensures !Above(t, b, z)
  {
    if Above(t, b, z) {
      AboveOrder(t, b, z);
    }
  }

  lemma AboveTwice(t: Tree, a: BlockId, b: BlockId)
    requires Rooted(t) && Above(t, a, b) && Above(t, b, a)
    ensures a == b
  {
    if a != b {
      AboveOrder(t, a, b);
      AboveOrder(t, b, a);
    }
  }

  // -- what the iteration keeps ---------------------------------------------

  ghost predicate Numbered(g: Cfg, root: BlockId, rpo: seq<BlockId>, idx: seq<nat>) {
    && g.Valid() && SearchOrder(g, root, rpo) && |rpo| <= |g.blocks| == |idx|
    && (forall k: nat :: 0 <= k < |rpo| ==> rpo[k] < |idx| && idx[rpo[k]] == k)
    && (forall b: nat :: 0 <= b < |idx| && b !in rpo ==> idx[b] == UNREACHABLE)
  }

  /** `p` is a predecessor of `b` earlier in the order. */
  ghost predicate Earlier(g: Cfg, t: Tree, p: BlockId, b: BlockId) {
    g.Edge(p, b) && p < |t.idx| && b < |t.idx| && t.idx[p] < t.idx[b]
  }

  ghost predicate Grounded(g: Cfg, rpo: seq<BlockId>, t: Tree) {
    && Numbered(g, t.root, rpo, t.idx) && Rooted(t)
    && (forall b: nat :: Processed(t, b) ==> b in rpo)
  }

  /** Every strict dominator of a block dominates the one now taken as immediate. */
  ghost predicate Safe(g: Cfg, t: Tree) {
    forall b: nat, d: nat :: Processed(t, b) && b != t.root && StrictlyDominates(g, t.root, d, b) ==>
      Dominates(g, t.root, d, t.idom[b].value)
  }

  ghost predicate CommonAbove(g: Cfg, t: Tree, b: BlockId, v: BlockId)
    requires Rooted(t) && g.Has(b)
  {
    forall p: nat :: p in g.blocks[b].preds && Processed(t, p) ==> Above(t, v, p)
  }

  /** What is above every processed predecessor of a block is above its immediate dominator. */
  ghost predicate Met(g: Cfg, t: Tree)
    requires Rooted(t) && |t.idom| == |g.blocks|
  {
    forall b: nat, v: nat :: Processed(t, b) && b != t.root && CommonAbove(g, t, b, v) ==> Above(t, v, t.idom[b].value)
  }

  /** In this pass, blocks before position `i` hang on the way up from each earlier
      predecessor; for the others that still holds of what is at `i` or after. */
  ghost predicate Passed(g: Cfg, rpo: seq<BlockId>, t: Tree, i: nat)
    requires Rooted(t)
  {
    && i <= |rpo|
    && (forall j: nat :: 0 <= j < i ==> Processed(t, rpo[j]))
    && (forall b: nat, p: nat :: Processed(t, b) && b != t.root && Earlier(g, t, p, b) && t.idx[b] < i ==>
          Above(t, t.idom[b].value, p))
    && (forall b: nat, p: nat, v: nat ::
          (Processed(t, b) && b != t.root && Earlier(g, t, p, b) && i <= t.idx[b] &&
           v < |t.idx| && i <= t.idx[v] && Above(t, v, t.idom[b].value)) ==> Above(t, v, p))
  }

  ghost predicate Iterating(g: Cfg, rpo: seq<BlockId>, t: Tree, i: nat) {
    Grounded(g, rpo, t) && Safe(g, t) && Met(g, t) && Passed(g, rpo, t, i)
  }

  /** `z` is the lowest block above every processed predecessor of `b`. */
  ghost predicate MeetOf(g: Cfg, t: Tree, b: BlockId, z: BlockId)
    requires Rooted(t) && g.Has(b)
  {
    Processed(t, z) && forall v: nat :: Above(t, v, z) <==> CommonAbove(g, t, b, v)
  }

  lemma IteratingStarts(g: Cfg, rpo: seq<BlockId>, t: Tree)
    requires Numbered(g, t.root, rpo, t.idx) && |t.idom| == |t.idx| && t.root < |t.idom|
    requires forall b: nat :: 0 <= b < |t.idom| ==> t.idom[b].None?
    ensures Iterating(g, rpo, t, 1)
  {
  }

  /** A finished pass starts the next one. */
  lemma PassEnds(g: Cfg, rpo: seq<BlockId>, t: Tree)
    requires Iterating(g, rpo, t, |rpo|)
    ensures Iterating(g, rpo, t, 1)
  {
    forall b: nat, p: nat, v: nat | Processed(t, b) && b != t.root && Earlier(g, t, p, b) && v < |t.idx| &&
                     Above(t, v, t.idom[b].value)
      ensures Above(t, v, p)
    {
      AboveTransitive(t, v, t.idom[b].value, p);
    }
  }

  lemma EarlierPred(g: Cfg, rpo: seq<BlockId>, t: Tree, b: BlockId) returns (p: BlockId)
    requires Numbered(g, t.root, rpo, t.idx) && b in rpo && b != t.root
    ensures Earlier(g, t, p, b) && p in rpo
  {
    var k :| 0 <= k < |rpo| && rpo[k] == b;
    var j :| 0 <= j < k && g.Edge(rpo[j], rpo[k]);
    p := rpo[j];
  }

  /** The meet of the processed predecessors lies above an earlier one. */
  lemma MeetIsEarlier(g: Cfg, rpo: seq<BlockId>, t: Tree, i: nat, z: BlockId)
    requires Iterating(g, rpo, t, i) && 1 <= i < |rpo| && MeetOf(g, t, rpo[i], z)
    ensures t.idx[z] < t.idx[rpo[i]]
  {
    var p := EarlierPred(g, rpo, t, rpo[i]);
    assert Above(t, z, z);
    assert p in g.blocks[rpo[i]].preds && Processed(t, p);
    AboveOrder(t, z, p);
  }

  /** A dominator of `x` above a block on `x`'s way up dominates that block too. */
  lemma {:induction false} SafeUp(g: Cfg, t: Tree, d: BlockId, z: BlockId, x: BlockId)
    requires Rooted(t) && Safe(g, t) && Processed(t, x)
    requires Dominates(g, t.root, d, x) && Above(t, z, x) && Above(t, d, z)
    ensures Dominates(g, t.root, d, z)
    decreases t.idx[x]
  {
    if z != x {
      if d == x {
        AboveOrder(t, z, x);
        AboveOrder(t, d, z);
      } else {
        SafeUp(g, t, d, z, t.idom[x].value);
      }
    }
  }

  /** A dominator of a processed block is above it. */
  lemma {:induction false} SafeAbove(g: Cfg, rpo: seq<BlockId>, t: Tree, d: BlockId, x: BlockId)
    requires Grounded(g, rpo, t) && Safe(g, t) && Processed(t, x) && Dominates(g, t.root, d, x)
    ensures Above(t, d, x)
    decreases t.idx[x]
  {
    if x == t.root {
      assert g.Has(x) by {
        assert x in rpo;
      }
      assert Connects(g, x, x, [x]);
    } else if d != x {
      SafeAbove(g, rpo, t, d, t.idom[x].value);
    }
  }

  /** One step of a pass: hanging the block at position `i` under the meet of its
      processed predecessors keeps everything the iteration relies on. */
  lemma StepKeeps(g: Cfg, rpo: seq<BlockId>, t: Tree, i: nat, z: BlockId)
    requires Iterating(g, rpo, t, i) && 1 <= i < |rpo| && MeetOf(g, t, rpo[i], z)
    ensures Iterating(g, rpo, Rehung(t, rpo[i], z), i + 1)
  {
    MeetIsEarlier(g, rpo, t, i, z);
    var b := rpo[i];
    AboveRehung(t, b, z, b, b);
    StepSafe(g, rpo, t, i, z);
    StepMet(g, rpo, t, i, z);
    StepPassed(g, rpo, t, i, z);
  }

  lemma StepSafe(g: Cfg, rpo: seq<BlockId>, t: Tree, i: nat, z: BlockId)
    requires Iterating(g, rpo, t, i) && 1 <= i < |rpo| && MeetOf(g, t, rpo[i], z)
    ensures Safe(g, Rehung(t, rpo[i], z))
  {
    var b := rpo[i];
    forall d: nat | StrictlyDominates(g, t.root, d, b)
      ensures Dominates(g, t.root, d, z)
    {
      forall p: nat | p in g.blocks[b].preds && Processed(t, p)
        ensures Dominates(g, t.root, d, p) && Above(t, d, p)
      {
        assert p in rpo;
        StrictDominatorOfPred(g, t.root, d, p, b);
        SafeAbove(g, rpo, t, d, p);
      }
      assert CommonAbove(g, t, b, d);
      var p := EarlierPred(g, rpo, t, b);
      assert p in g.blocks[b].preds && Processed(t, p);
      assert Above(t, z, z);
      SafeUp(g, t, d, z, p);
    }
  }

  lemma StepMet(g: Cfg, rpo: seq<BlockId>, t: Tree, i: nat, z: BlockId)
    requires Iterating(g, rpo, t, i) && 1 <= i < |rpo| && MeetOf(g, t, rpo[i], z)
    requires Rooted(Rehung(t, rpo[i], z)) && t.idx[z] < t.idx[rpo[i]]
    ensures Met(g, Rehung(t, rpo[i], z))
  {
    var t' := Rehung(t, rpo[i], z);
    forall c: nat, v: nat | Processed(t', c) && c != t.root && CommonAbove(g, t', c, v)
      ensures Above(t', v, t'.idom[c].value)
    {
      CommonRehung(g, rpo, t, i, z, c, v);
      if c == rpo[i] {
        MetHere(g, t, rpo[i], z, v);
      } else {
        MetElsewhere(g, rpo, t, i, z, c, v);
      }
    }
  }

  lemma MetHere(g: Cfg, t: Tree, b: BlockId, z: BlockId, v: BlockId)
    requires Rooted(t) && Processed(t, z) && b < |t.idom| && b != t.root && t.idx[z] < t.idx[b]
    requires Rooted(Rehung(t, b, z)) && Above(t, v, z)
    ensures Above(Rehung(t, b, z), v, z)
  {
    NotBelowItself(t, b, z);
    AboveRehung(t, b, z, v, z);
  }

  /** Rehanging only takes blocks away from above the processed predecessors. */
  lemma CommonRehung(g: Cfg, rpo: seq<BlockId>, t: Tree, i: nat, z: BlockId, c: BlockId, v: BlockId)
    requires Iterating(g, rpo, t, i) && 1 <= i < |rpo| && MeetOf(g, t, rpo[i], z)
    requires Rooted(Rehung(t, rpo[i], z)) && t.idx[z] < t.idx[rpo[i]]
    requires g.Has(c) && CommonAbove(g, Rehung(t, rpo[i], z), c, v)
    ensures CommonAbove(g, t, c, v)
  {
    PassAt(g, rpo, t, i);
    hide Safe, Passed, Grounded;
    var b := rpo[i];
    forall p: nat | p in g.blocks[c].preds && Processed(t, p)
      ensures Above(t, v, p)
    {
      assert Above(Rehung(t, b, z), v, p);
      AboveRehung(t, b, z, v, p);
      if Above(t, b, p) && Above(t, v, z) {
        AboveOrder(t, b, p);
        assert Above(t, z, t.idom[b].value) by {
          assert Above(t, z, z);
        }
        AboveTransitive(t, v, z, t.idom[b].value);
        AboveTransitive(t, v, b, p);
      }
    }
  }

  lemma MetElsewhere(g: Cfg, rpo: seq<BlockId>, t: Tree, i: nat, z: BlockId, c: BlockId, v: BlockId)
    requires Iterating(g, rpo, t, i) && 1 <= i < |rpo| && MeetOf(g, t, rpo[i], z)
    requires Rooted(Rehung(t, rpo[i], z)) && t.idx[z] < t.idx[rpo[i]]
    requires Processed(t, c) && c != t.root && c != rpo[i]
    requires CommonAbove(g, t, c, v) && CommonAbove(g, Rehung(t, rpo[i], z), c, v)
    ensures Above(Rehung(t, rpo[i], z), v, t.idom[c].value)
  {
    var b := rpo[i];
    var y := t.idom[c].value;
    assert Above(t, v, y);
    AboveRehung(t, b, z, v, y);
    if Above(t, b, y) {
      AboveOrder(t, b, y);
      var p := EarlierPred(g, rpo, t, c);
      assert Above(t, b, p);
      assert p in g.blocks[c].preds && Processed(Rehung(t, b, z), p);
      AboveRehung(t, b, z, v, p);
    }
  }

  lemma PassAt(g: Cfg, rpo: seq<BlockId>, t: Tree, i: nat)
    requires Iterating(g, rpo, t, i) && 1 <= i < |rpo|
    ensures Rooted(t) && rpo[i] < |t.idom| && rpo[i] != t.root && t.idx[rpo[i]] == i
    ensures forall j :: 0 <= j < i ==> Processed(t, rpo[j])
  {
  }

  lemma StepPassed(g: Cfg, rpo: seq<BlockId>, t: Tree, i: nat, z: BlockId)
    requires Iterating(g, rpo, t, i) && 1 <= i < |rpo| && MeetOf(g, t, rpo[i], z)
    requires Rooted(Rehung(t, rpo[i], z)) && t.idx[z] < t.idx[rpo[i]]
    ensures Passed(g, rpo, Rehung(t, rpo[i], z), i + 1)
  {
    hide Above, Iterating, Grounded, MeetOf;
    PassAt(g, rpo, t, i);
    var b := rpo[i];
    var t' := Rehung(t, b, z);
    forall c: nat, p: nat | Processed(t', c) && c != t.root && Earlier(g, t', p, c) && t.idx[c] < i + 1
      ensures Above(t', t'.idom[c].value, p)
    {
      HangsOnEarlier(g, rpo, t, i, z, c, p);
    }
    forall c: nat, p: nat, v: nat | Processed(t', c) && c != t.root && Earlier(g, t', p, c) && i + 1 <= t.idx[c] &&
                     v < |t.idx| && i + 1 <= t.idx[v] && Above(t', v, t'.idom[c].value)
      ensures Above(t', v, p)
    {
      StillOnEarlier(g, rpo, t, i, z, c, p, v);
    }
  }

  lemma HangsOnEarlier(g: Cfg, rpo: seq<BlockId>, t: Tree, i: nat, z: BlockId, c: BlockId, p: BlockId)
    requires Iterating(g, rpo, t, i) && 1 <= i < |rpo| && MeetOf(g, t, rpo[i], z)
    requires Rooted(Rehung(t, rpo[i], z)) && t.idx[z] < t.idx[rpo[i]]
    requires Processed(Rehung(t, rpo[i], z), c) && c != t.root && Earlier(g, t, p, c) && t.idx[c] < i + 1
    ensures Above(Rehung(t, rpo[i], z), Rehung(t, rpo[i], z).idom[c].value, p)
  {
    var b := rpo[i];
    assert c in rpo;
    assert t.idx[p] != UNREACHABLE;
    assert p in rpo;
    var y := Rehung(t, b, z).idom[c].value;
    if c == b {
      assert Above(t, z, z);
      assert p in g.blocks[b].preds && Processed(t, p);
    } else {
      assert t.idx[c] != i;
    }
    assert Above(t, y, p);
    AboveRehung(t, b, z, y, p);
    NotBelowItself(t, b, p);
  }

  lemma StillOnEarlier(g: Cfg, rpo: seq<BlockId>, t: Tree, i: nat, z: BlockId, c: BlockId, p: BlockId, v: BlockId)
    requires Iterating(g, rpo, t, i) && 1 <= i < |rpo| && MeetOf(g, t, rpo[i], z)
    requires Rooted(Rehung(t, rpo[i], z)) && t.idx[z] < t.idx[rpo[i]]
    requires Processed(t, c) && c != t.root && Earlier(g, t, p, c) && i + 1 <= t.idx[c]
    requires v < |t.idx| && i + 1 <= t.idx[v] && Above(Rehung(t, rpo[i], z), v, t.idom[c].value)
    ensures Above(Rehung(t, rpo[i], z), v, p)
  {
    var b := rpo[i];
    AboveRehung(t, b, z, v, t.idom[c].value);
    if Above(t, v, z) {
      AboveOrder(t, v, z);
    }
    assert Above(t, v, p);
    AboveRehung(t, b, z, v, p);
    if Above(t, b, p) {
      if Processed(t, p) {
        AboveLinear(t, b, v, p);
      }
    }
  }

  // -- the fixpoint ----------------------------------------------------------

  ghost predicate Settled(g: Cfg, rpo: seq<BlockId>, t: Tree, i: nat)
    requires Grounded(g, rpo, t)
  {
    forall j: nat :: 1 <= j < i <= |rpo| && t.idom[rpo[j]].Some? ==> MeetOf(g, t, rpo[j], t.idom[rpo[j]].value)
  }

  /** Where no block changes in a pass, what is above a block is on every path to it. */
  lemma {:induction false} SettledOnPaths(g: Cfg, rpo: seq<BlockId>, t: Tree, a: BlockId, b: BlockId, p: seq<BlockId>)
    requires Iterating(g, rpo, t, |rpo|) && Settled(g, rpo, t, |rpo|)
    requires Above(t, a, b) && Connects(g, t.root, b, p)
    ensures a in p
    decreases |p|
  {
    if a != b {
      var q := p[|p| - 2];
      OnPathReaches(g, t.root, b, p, |p| - 2);
      OnPathReaches(g, t.root, b, p, |p| - 1);
      assert q in rpo && b in rpo;
      var j :| 0 <= j < |rpo| && rpo[j] == b;
      assert g.Edge(q, b);
      assert q in g.blocks[b].preds && Processed(t, q);
      assert MeetOf(g, t, b, t.idom[b].value);
      SettledOnPaths(g, rpo, t, a, q, p[..|p| - 1]);
    }
  }

  /** At the fixpoint, being above is dominating. */
  lemma SettledIsDominance(g: Cfg, rpo: seq<BlockId>, t: Tree, a: BlockId, b: BlockId)
    requires Iterating(g, rpo, t, |rpo|) && Settled(g, rpo, t, |rpo|) && b in rpo
    ensures Above(t, a, b) <==> Dominates(g, t.root, a, b)
  {
    var j :| 0 <= j < |rpo| && rpo[j] == b;
    assert Processed(t, b);
    if Above(t, a, b) {
      forall p | Connects(g, t.root, b, p)
        ensures a in p
      {
        SettledOnPaths(g, rpo, t, a, b, p);
      }
    }
    if Dominates(g, t.root, a, b) {
      SafeAbove(g, rpo, t, a, b);
    }
  }

  // -- termination -----------------------------------------------------------

  function Weight(t: Tree, b: BlockId): nat
    requires b < |t.idom|
  {
    match t.idom[b]
    case None => |t.idom|
    case Some(v) => if v < |t.idx| then t.idx[v] else 0
  }

  /** How far the guessed immediate dominators are from the root, over all blocks. */
  function Height(t: Tree, n: nat): nat
    requires n <= |t.idom|
  {
    if n == 0 then 0 else Weight(t, n - 1) + Height(t, n - 1)
  }

  lemma {:induction false} HeightDrops(t: Tree, b: BlockId, z: BlockId, n: nat)
    requires b < |t.idom| == |t.idx| && z < |t.idx| && n <= |t.idom|
    requires t.idx[z] < Weight(t, b)
    ensures Height(Rehung(t, b, z), n) <= Height(t, n)
    ensures b < n ==> Height(Rehung(t, b, z), n) < Height(t, n)
  {
    if n > 0 {
      HeightDrops(t, b, z, n - 1);
    }
  }

  /** A step that changes a block's immediate dominator moves it nearer the root. */
  lemma StepDescends(g: Cfg, rpo: seq<BlockId>, t: Tree, i: nat, z: BlockId)
    requires Iterating(g, rpo, t, i) && 1 <= i < |rpo| && MeetOf(g, t, rpo[i], z)
    requires t.idom[rpo[i]] != Some(z)
    ensures Height(Rehung(t, rpo[i], z), |t.idom|) < Height(t, |t.idom|)
  {
    var b := rpo[i];
    assert z in rpo;
    assert t.idx[z] < |t.idom|;
    if t.idom[b].Some? {
      assert Above(t, z, z);
      assert Above(t, z, t.idom[b].value);
      AboveOrder(t, z, t.idom[b].value);
    }
    HeightDrops(t, b, z, |t.idom|);
  }
}
