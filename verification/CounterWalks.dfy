/** What the walk to a counter's phi finds, told by the statements on the way. */
module CounterWalks {
  import opened Wrappers
  import opened Loops
  import opened LoopForest
  import opened LoopStays
  import opened Ssa
  import opened SymExprs
  import opened CounterRuns
  import opened InductionVariables

  // What a way adds up to: a constant, reads with their signs, and the loops it leaves with their counters' steps.
  type Way = (int, seq<(Register, nat, int)>, seq<(LoopId, Step)>)

  const NOTHING: Way := (0, [], [])

  function Joined(a: Way, b: Way): Way {
    (a.0 + b.0, a.1 + b.1, a.2 + b.2)
  }

  // The register an argument names is read at the statement as this value.
  ghost predicate Names(ssa: RegisterSsa, a: Arg, op: nat, w: Value)
    requires Ssa.Valid(ssa)
  {
    a.Reg? && ReadAt(ssa, a.r, op) == Some(w)
  }

  // What an argument adds with its sign: an immediate that fits, or a read.
  ghost predicate AddsTo(a: Arg, op: nat, sign: int, way: Way) {
    match a
    case Imm(x) => Fits(sign * x) && way == (sign * x, [], [])
    case Reg(r) => way == (0, [(r, op, sign)], [])
    case Else => false
  }

  // One step of the way from `v` back to `w`: a mov, an add from either side or a sub from its left side, of the loop's
  // own, or a counter of a loop directly in it from its exit to its start.
  ghost predicate Link(k: seq<Op>, ssa: RegisterSsa, f: Forest, l: LoopId, inner: Inner, v: Value, w: Value, way: Way)
    requires Ssa.Valid(ssa)
  {
    v.Result? && v.op < |k| &&
    if OwnOp(ssa, f, l, v.op) then
      match k[v.op]
      case Mov(_, src) => Names(ssa, src, v.op, w) && way == NOTHING
      case Add(_, x, y) =>
        (Names(ssa, x, v.op, w) && AddsTo(y, v.op, 1, way)) || (Names(ssa, y, v.op, w) && AddsTo(x, v.op, 1, way))
      case Sub(_, x, y) => Names(ssa, x, v.op, w) && AddsTo(y, v.op, -1, way)
      case Opaque(_) => false
    else
      v in inner && ChildOf(f, l, inner[v].0) && w == inner[v].1.start && way == (0, [], [(inner[v].0, inner[v].1.step)])
  }

  // A way of at most `n` steps from `v` back to the phi, which it comes to once.
  ghost predicate LeadsBack(k: seq<Op>, ssa: RegisterSsa, f: Forest, l: LoopId, inner: Inner, phi: Value, v: Value,
                            way: Way, n: nat)
    requires Ssa.Valid(ssa)
    decreases n
  {
    if v == phi then way == NOTHING
    else n > 0 && exists w, rest, last ::
      Link(k, ssa, f, l, inner, v, w, last) && LeadsBack(k, ssa, f, l, inner, phi, w, rest, n - 1) &&
      way == Joined(rest, last)
  }

  function WayOf(s: Step): Way {
    (s.constant as int, s.registers, s.exits)
  }

  lemma JoinedNothing(way: Way)
    ensures Joined(way, NOTHING) == way
  {
    assert way.1 + [] == way.1 && way.2 + [] == way.2;
  }

  lemma TermAdds(a: Arg, op: nat, sign: int)
    ensures Term(a, op, sign).Some? ==> AddsTo(a, op, sign, WayOf(Term(a, op, sign).value))
    ensures forall way :: AddsTo(a, op, sign, way) ==> Term(a, op, sign).Some? && way == WayOf(Term(a, op, sign).value)
  {
  }

  /** What the walk finds is a way back. */
  lemma {:induction false} FoundLeadsBack(k: seq<Op>, ssa: RegisterSsa, f: Forest, l: LoopId, inner: Inner, v: Value,
                                          phi: Value, n: nat)
    requires Ssa.Valid(ssa) && OffsetOf(k, ssa, f, l, inner, v, phi, n).Some?
    ensures LeadsBack(k, ssa, f, l, inner, phi, v, WayOf(OffsetOf(k, ssa, f, l, inner, v, phi, n).value), n)
    decreases n, 1
  {
    hide Ssa.Valid, ReadAt, OwnOp, AfterOf;
    if v != phi {
      if !OwnOp(ssa, f, l, v.op) {
        var (c, counter) := inner[v];
        FoundLeadsBack(k, ssa, f, l, inner, counter.start, phi, n - 1);
        var s := OffsetOf(k, ssa, f, l, inner, counter.start, phi, n - 1).value;
        var last: Way := (0, [], [(c, counter.step)]);
        assert Link(k, ssa, f, l, inner, v, counter.start, last);
        assert s.registers + last.1 == s.registers;
        assert WayOf(Through(s, c, counter.step)) == Joined(WayOf(s), last);
      } else {
        match k[v.op] {
          case Mov(_, src) => FoundAfter(k, ssa, f, l, inner, v, phi, src, None, n);
          case Add(_, x, y) =>
            if AfterOf(k, ssa, f, l, inner, v.op, phi, x, Some((y, 1)), n).Some? {
              FoundAfter(k, ssa, f, l, inner, v, phi, x, Some((y, 1)), n);
            } else {
              FoundAfter(k, ssa, f, l, inner, v, phi, y, Some((x, 1)), n);
            }
          case Sub(_, x, y) => FoundAfter(k, ssa, f, l, inner, v, phi, x, Some((y, -1)), n);
        }
      }
    }
  }

  lemma FoundAfter(k: seq<Op>, ssa: RegisterSsa, f: Forest, l: LoopId, inner: Inner, v: Value, phi: Value, from: Arg,
                   plus: Option<(Arg, int)>, n: nat)
    requires Ssa.Valid(ssa) && n > 0 && v != phi && v.Result? && v.op < |k| && OwnOp(ssa, f, l, v.op)
    requires Makes(k[v.op], from, plus) && AfterOf(k, ssa, f, l, inner, v.op, phi, from, plus, n).Some?
    ensures LeadsBack(k, ssa, f, l, inner, phi, v, WayOf(AfterOf(k, ssa, f, l, inner, v.op, phi, from, plus, n).value), n)
    decreases n, 0
  {
    hide Ssa.Valid, ReadAt, OwnOp, OffsetOf;
    var w := ReadAt(ssa, from.r, v.op).value;
    FoundLeadsBack(k, ssa, f, l, inner, w, phi, n - 1);
    var s := OffsetOf(k, ssa, f, l, inner, w, phi, n - 1).value;
    JoinedNothing(WayOf(s));
    var r := AfterOf(k, ssa, f, l, inner, v.op, phi, from, plus, n).value;
    if plus.None? {
      assert Link(k, ssa, f, l, inner, v, w, NOTHING);
    } else {
      var (a, sign) := plus.value;
      TermAdds(a, v.op, sign);
      var last := WayOf(Term(a, v.op, sign).value);
      assert last.2 == [] && s.exits + last.2 == s.exits;
      assert Link(k, ssa, f, l, inner, v, w, last);
      assert WayOf(r) == Joined(WayOf(s), last);
    }
  }

  // No way back to the phi adds up to a constant past i64.
  ghost predicate WaysFit(k: seq<Op>, ssa: RegisterSsa, f: Forest, l: LoopId, inner: Inner, phi: Value)
    requires Ssa.Valid(ssa)
  {
    forall v, way, n: nat :: LeadsBack(k, ssa, f, l, inner, phi, v, way, n) ==> Fits(way.0)
  }

  /** And one is found wherever there is one of as many steps, where no way's constant leaves i64. */
  lemma {:induction false} LeadsBackFound(k: seq<Op>, ssa: RegisterSsa, f: Forest, l: LoopId, inner: Inner, v: Value,
                                          phi: Value, way: Way, n: nat)
    requires Ssa.Valid(ssa) && WaysFit(k, ssa, f, l, inner, phi) && LeadsBack(k, ssa, f, l, inner, phi, v, way, n)
    ensures OffsetOf(k, ssa, f, l, inner, v, phi, n).Some?
    decreases n
  {
    hide Ssa.Valid, ReadAt, OwnOp, AfterOf, WaysFit;
    if v != phi {
      var w, rest, last :| Link(k, ssa, f, l, inner, v, w, last) && LeadsBack(k, ssa, f, l, inner, phi, w, rest, n - 1) &&
        way == Joined(rest, last);
      LeadsBackFound(k, ssa, f, l, inner, w, phi, rest, n - 1);
      if OwnOp(ssa, f, l, v.op) {
        match k[v.op] {
          case Mov(_, src) => AfterFound(k, ssa, f, l, inner, v, phi, src, None, w, last, n);
          case Add(_, x, y) =>
            if Names(ssa, x, v.op, w) && AddsTo(y, v.op, 1, last) {
              AfterFound(k, ssa, f, l, inner, v, phi, x, Some((y, 1)), w, last, n);
            } else {
              AfterFound(k, ssa, f, l, inner, v, phi, y, Some((x, 1)), w, last, n);
            }
          case Sub(_, x, y) => AfterFound(k, ssa, f, l, inner, v, phi, x, Some((y, -1)), w, last, n);
        }
      }
    }
  }

  lemma AfterFound(k: seq<Op>, ssa: RegisterSsa, f: Forest, l: LoopId, inner: Inner, v: Value, phi: Value, from: Arg,
                   plus: Option<(Arg, int)>, w: Value, last: Way, n: nat)
    requires Ssa.Valid(ssa) && WaysFit(k, ssa, f, l, inner, phi) && n > 0 && v != phi && v.Result? && v.op < |k|
    requires OwnOp(ssa, f, l, v.op) && Makes(k[v.op], from, plus) && Names(ssa, from, v.op, w)
    requires if plus.None? then last == NOTHING else AddsTo(plus.value.0, v.op, plus.value.1, last)
    requires OffsetOf(k, ssa, f, l, inner, w, phi, n - 1).Some?
    ensures AfterOf(k, ssa, f, l, inner, v.op, phi, from, plus, n).Some?
  {
    hide Ssa.Valid, ReadAt, OwnOp, OffsetOf, LeadsBack;
    if plus.Some? {
      var (a, sign) := plus.value;
      TermAdds(a, v.op, sign);
      var s := OffsetOf(k, ssa, f, l, inner, w, phi, n - 1).value;
      FoundLeadsBack(k, ssa, f, l, inner, w, phi, n - 1);
      LinkAdds(k, ssa, f, l, inner, v, from, plus, w, last);
      OneMore(k, ssa, f, l, inner, phi, v, w, WayOf(s), last, n);
      assert Fits(Joined(WayOf(s), last).0);
    }
  }

  lemma LinkAdds(k: seq<Op>, ssa: RegisterSsa, f: Forest, l: LoopId, inner: Inner, v: Value, from: Arg,
                 plus: Option<(Arg, int)>, w: Value, last: Way)
    requires Ssa.Valid(ssa) && v.Result? && v.op < |k| && OwnOp(ssa, f, l, v.op)
    requires Makes(k[v.op], from, plus) && Names(ssa, from, v.op, w)
    requires plus.Some? && AddsTo(plus.value.0, v.op, plus.value.1, last)
    ensures Link(k, ssa, f, l, inner, v, w, last)
  {
    hide Ssa.Valid, ReadAt, OwnOp;
  }

  lemma OneMore(k: seq<Op>, ssa: RegisterSsa, f: Forest, l: LoopId, inner: Inner, phi: Value, v: Value, w: Value,
                rest: Way, last: Way, n: nat)
    requires Ssa.Valid(ssa) && n > 0 && v != phi && Link(k, ssa, f, l, inner, v, w, last)
    requires LeadsBack(k, ssa, f, l, inner, phi, w, rest, n - 1)
    ensures LeadsBack(k, ssa, f, l, inner, phi, v, Joined(rest, last), n)
  {
    hide Ssa.Valid, Link, Joined;
  }
}
