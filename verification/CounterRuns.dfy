/** What a run does to a loop's counters: the phi of a trip's start plus a step, nested loops' counters included. */
module CounterRuns {
  import opened Wrappers
  import opened Divisions
  import opened Graphs
  import opened Dominators
  import opened NaturalLoops
  import opened Loops
  import opened LoopForest
  import opened LoopStays
  import opened Ssa
  import opened SymExprs

  datatype Arg = Imm(value: Int64) | Reg(r: Register) | Else

  // An unguarded mov, a scalar integer add or sub that does not saturate, or any other statement.
  datatype Op =
    | Mov(dst: Register, src: Arg)
    | Add(dst: Register, a: Arg, b: Arg)
    | Sub(dst: Register, a: Arg, b: Arg)
    | Opaque(writes: seq<Register>)

  function Writes(op: Op): (writes: seq<Register>)
    ensures forall r :: r in writes <==> if op.Opaque? then r in op.writes else r == op.dst
  {
    match op
    case Opaque(writes) => writes
    case _ => [op.dst]
  }

  ghost predicate FormOf(k: seq<Op>, ssa: RegisterSsa) {
    && Ssa.Valid(ssa)
    && (forall b: nat :: b < |ssa.g.blocks| ==> ssa.g.blocks[b].end <= |k|)
    && (forall s: nat, reg :: s in WritesOf(ssa.writes, reg) <==> s < |k| && reg in Writes(k[s]))
    && (forall s: nat :: s < |k| && k[s].Sub? && k[s].b.Imm? ==> k[s].b.value != MIN)
  }

  // -- runs ------------------------------------------------------------------------------

  // What each register holds before a statement at each block of a run's path.
  type History = (nat, nat, Register) -> int

  ghost function ArgAt(H: History, i: nat, s: nat, a: Arg): int {
    match a
    case Imm(v) => v
    case Reg(r) => H(i, s, r)
    case Else => 0
  }

  // The statement keeps what it does not write; a mov, an add and a sub of known operands are exact.
  ghost predicate Runs(k: seq<Op>, H: History, i: nat, s: nat) {
    s < |k| &&
    (forall r :: r !in Writes(k[s]) ==> H(i, s + 1, r) == H(i, s, r)) &&
    match k[s]
    case Mov(d, a) => !a.Else? ==> H(i, s + 1, d) == ArgAt(H, i, s, a)
    case Add(d, a, b) => !a.Else? && !b.Else? ==> H(i, s + 1, d) == ArgAt(H, i, s, a) + ArgAt(H, i, s, b)
    case Sub(d, a, b) => !a.Else? && !b.Else? ==> H(i, s + 1, d) == ArgAt(H, i, s, a) - ArgAt(H, i, s, b)
    case Opaque(_) => true
  }

  ghost predicate RunOf(k: seq<Op>, g: Cfg, p: seq<BlockId>, H: History) {
    && IsPath(g, p) && p[0] == ENTRY
    && (forall i, s :: 0 <= i < |p| && g.blocks[p[i]].start <= s < g.blocks[p[i]].end ==> Runs(k, H, i, s))
    && (forall i, r :: 0 <= i < |p| - 1 ==> Carries(g, p, H, i, r))
  }

  ghost predicate Carries(g: Cfg, p: seq<BlockId>, H: History, i: nat, r: Register)
    requires IsPath(g, p) && i < |p| - 1
  {
    H(i + 1, g.blocks[p[i + 1]].start, r) == H(i, g.blocks[p[i]].end, r)
  }

  lemma RunPrefix(k: seq<Op>, g: Cfg, p: seq<BlockId>, H: History, n: nat)
    requires RunOf(k, g, p, H) && 0 < n <= |p|
    ensures RunOf(k, g, p[..n], H)
  {
    hide Runs;
    Prefix(g, p, n);
    forall i, r | 0 <= i < n - 1 ensures Carries(g, p[..n], H, i, r) {
      assert Carries(g, p, H, i, r);
    }
  }

  // No statement from `from` of the block at `m` on, up to `end` of the path's last block, writes the register.
  ghost predicate Unwritten(ssa: RegisterSsa, reg: Register, p: seq<BlockId>, m: nat, from: nat, end: nat)
    requires IsPath(ssa.g, p)
  {
    forall i: nat, s: nat :: m <= i < |p| && Holds(ssa.g.blocks[p[i]], s) && (i == m ==> s >= from) && (i == |p| - 1 ==> s < end) ==>
      s !in WritesOf(ssa.writes, reg)
  }

  ghost predicate Point(g: Cfg, p: seq<BlockId>, end: nat) {
    IsPath(g, p) && g.blocks[p[|p| - 1]].start <= end <= g.blocks[p[|p| - 1]].end
  }

  /** What is not written since stays. */
  lemma {:induction false} Stays(k: seq<Op>, ssa: RegisterSsa, reg: Register, p: seq<BlockId>, H: History, m: nat,
                                 from: nat, end: nat)
    requires FormOf(k, ssa) && RunOf(k, ssa.g, p, H) && Point(ssa.g, p, end) && m < |p|
    requires ssa.g.blocks[p[m]].start <= from <= ssa.g.blocks[p[m]].end && (m == |p| - 1 ==> from <= end)
    requires Unwritten(ssa, reg, p, m, from, end)
    ensures H(|p| - 1, end, reg) == H(m, from, reg)
    decreases |p|, end
  {
    hide Ssa.Valid;
    var n := |p| - 1;
    var b := ssa.g.blocks[p[n]];
    if m == n && from == end {
    } else if end == b.start {
      RunPrefix(k, ssa.g, p, H, n);
      assert Carries(ssa.g, p, H, n - 1, reg);
      assert p[..n][n - 1] == p[n - 1];
      LaidBlock(ssa, p[n - 1]);
      UnwrittenPrefix(ssa, reg, p, m, from, end);
      Stays(k, ssa, reg, p[..n], H, m, from, ssa.g.blocks[p[n - 1]].end);
    } else {
      assert Runs(k, H, n, end - 1);
      assert Holds(b, end - 1) && end - 1 !in WritesOf(ssa.writes, reg);
      StillUnwritten(ssa, reg, p, m, from, end);
      Stays(k, ssa, reg, p, H, m, from, end - 1);
    }
  }

  lemma StillUnwritten(ssa: RegisterSsa, reg: Register, p: seq<BlockId>, m: nat, from: nat, end: nat)
    requires IsPath(ssa.g, p) && end > 0 && Unwritten(ssa, reg, p, m, from, end)
    ensures Unwritten(ssa, reg, p, m, from, end - 1)
  {
  }

  lemma LaidBlock(ssa: RegisterSsa, b: BlockId)
    requires Ssa.Valid(ssa) && ssa.g.Has(b)
    ensures ssa.g.blocks[b].start <= ssa.g.blocks[b].end
  {
  }

  lemma UnwrittenPrefix(ssa: RegisterSsa, reg: Register, p: seq<BlockId>, m: nat, from: nat, end: nat)
    requires IsPath(ssa.g, p) && |p| > 1 && m < |p| - 1 && Unwritten(ssa, reg, p, m, from, end)
    ensures IsPath(ssa.g, p[..|p| - 1])
    ensures Unwritten(ssa, reg, p[..|p| - 1], m, from, ssa.g.blocks[p[|p| - 2]].end)
  {
    var q := p[..|p| - 1];
    Prefix(ssa.g, p, |p| - 1);
    forall i: nat, s: nat | m <= i < |q| && Holds(ssa.g.blocks[q[i]], s) && (i == m ==> s >= from)
      ensures s !in WritesOf(ssa.writes, reg)
    {
      assert q[i] == p[i];
    }
  }

  // -- where a read's value was last written or merged ---------------------------------------

  // The value was written, or merged, at position `m`, the last of its block, and the register not written since.
  ghost predicate Since(ssa: RegisterSsa, v: Value, p: seq<BlockId>, end: nat, m: nat) {
    && IsPath(ssa.g, p) && m < |p| && LastAt(p, p[m], m) && Dominates(ssa.g, ENTRY, p[m], p[|p| - 1])
    && (v.Argument? ==> p[m] == v.block && Unwritten(ssa, v.reg, p, m, ssa.g.blocks[p[m]].start, end))
    && (v.Result? ==> Holds(ssa.g.blocks[p[m]], v.op) && v.op in WritesOf(ssa.writes, v.reg) &&
                      (m == |p| - 1 ==> v.op < end) && Unwritten(ssa, v.reg, p, m, v.op + 1, end))
  }

  lemma {:induction false} LastInFacts(ws: seq<nat>, start: nat, end: nat)
    ensures match LastIn(ws, start, end)
            case Some(w) => start <= w < end && w in ws && forall s :: w < s < end ==> s !in ws
            case None => forall s :: start <= s < end ==> s !in ws
    decreases end
  {
    if start < end && end - 1 !in ws {
      LastInFacts(ws, start, end - 1);
    }
  }

  /**
   * Every value a read sees was written or merged where every path to the read passes last, and stays until the read.
   */
  lemma {:induction false} SeenSince(ssa: RegisterSsa, reg: Register, p: seq<BlockId>, end: nat) returns (m: nat)
    requires Ssa.Valid(ssa) && p != [] && p[0] == ENTRY && Point(ssa.g, p, end) && Visited(ssa, p[|p| - 1])
    ensures SeenAt(ssa, reg, p[|p| - 1], end).reg == reg
    ensures !SeenAt(ssa, reg, p[|p| - 1], end).Undef? ==> Since(ssa, SeenAt(ssa, reg, p[|p| - 1], end), p, end, m)
    decreases |p|
  {
    hide Ssa.Valid, SeenAt, Dominates;
    var n := |p| - 1;
    var b := p[n];
    SeenCases(ssa, reg, b, end);
    LastInFacts(WritesOf(ssa.writes, reg), ssa.g.blocks[b].start, end);
    DominatesSelf(ssa.g, ENTRY, b);
    m := n;
    if LastIn(WritesOf(ssa.writes, reg), ssa.g.blocks[b].start, end).None? && (reg, b) !in ssa.phis &&
       ssa.doms.idom[b].Some? {
      var d := ssa.doms.idom[b].value;
      var j := DominatorOnPath(ssa, p, d);
      LaidBlock(ssa, d);
      assert p[..j + 1][j] == d;
      m := SeenSince(ssa, reg, p[..j + 1], ssa.g.blocks[d].end);
      SinceClimbs(ssa, reg, p, end, j, m);
    }
  }

  lemma SinceClimbs(ssa: RegisterSsa, reg: Register, p: seq<BlockId>, end: nat, j: nat, m: nat)
    requires Ssa.Valid(ssa) && Point(ssa.g, p, end) && p[0] == ENTRY && Visited(ssa, p[|p| - 1])
    requires p[|p| - 1] < |ssa.doms.idom| && j + 1 < |p| && ssa.doms.idom[p[|p| - 1]] == Some(p[j]) && LastAt(p, p[j], j)
    requires (reg, p[|p| - 1]) !in ssa.phis && Visited(ssa, p[j])
    requires LastIn(WritesOf(ssa.writes, reg), ssa.g.blocks[p[|p| - 1]].start, end).None?
    requires var v := SeenAt(ssa, reg, p[j], ssa.g.blocks[p[j]].end);
      v.reg == reg && (!v.Undef? ==> Since(ssa, v, p[..j + 1], ssa.g.blocks[p[j]].end, m))
    ensures var v := SeenAt(ssa, reg, p[j], ssa.g.blocks[p[j]].end); !v.Undef? ==> Since(ssa, v, p, end, m)
  {
    hide SeenAt, Dominates, Ssa.Valid;
    var v := SeenAt(ssa, reg, p[j], ssa.g.blocks[p[j]].end);
    if !v.Undef? {
      var q := p[..j + 1];
      IdomFacts(ssa, p[|p| - 1]);
      DominatesTransitive(ssa.g, ENTRY, p[m], p[j], p[|p| - 1]);
      var at := SameOccurrence(ssa, p[m], p, j);
      LastIndexIs(q, p[m], m);
      var from := if v.Argument? then ssa.g.blocks[p[m]].start else v.op + 1;
      UnwrittenOn(ssa, reg, p, end, j, m, from);
    }
  }

  lemma NotWriting(ssa: RegisterSsa, reg: Register, b: BlockId, s: nat)
    requires ssa.g.Has(b) && Holds(ssa.g.blocks[b], s) && !WritesInBlock(ssa.g, ssa.writes, reg, b)
    ensures s !in WritesOf(ssa.writes, reg)
  {
  }

  lemma UnwrittenOn(ssa: RegisterSsa, reg: Register, p: seq<BlockId>, end: nat, j: nat, m: nat, from: nat)
    requires Ssa.Valid(ssa) && Point(ssa.g, p, end) && p[0] == ENTRY && m <= j && j + 1 < |p|
    requires p[|p| - 1] < |ssa.doms.idom| && ssa.doms.idom[p[|p| - 1]] == Some(p[j]) && LastAt(p, p[j], j)
    requires (reg, p[|p| - 1]) !in ssa.phis && IsPath(ssa.g, p[..j + 1])
    requires LastIn(WritesOf(ssa.writes, reg), ssa.g.blocks[p[|p| - 1]].start, end).None?
    requires Unwritten(ssa, reg, p[..j + 1], m, from, ssa.g.blocks[p[j]].end)
    ensures Unwritten(ssa, reg, p, m, from, end)
  {
    hide Ssa.Valid;
    LastInFacts(WritesOf(ssa.writes, reg), ssa.g.blocks[p[|p| - 1]].start, end);
    forall i: nat, s: nat | m <= i < |p| && Holds(ssa.g.blocks[p[i]], s) && (i == m ==> s >= from) && (i == |p| - 1 ==> s < end)
      ensures s !in WritesOf(ssa.writes, reg)
    {
      if i <= j {
        assert p[..j + 1][i] == p[i];
      } else if i < |p| - 1 {
        NothingBetween(ssa, reg, p, j + 1, i);
        NotWriting(ssa, reg, p[i], s);
      }
    }
  }

  // -- steps ----------------------------------------------------------------------------------

  // The value read, none at a statement that is not reached.
  ghost function ReadAt(ssa: RegisterSsa, r: Register, at: nat): Option<Value>
    requires Ssa.Valid(ssa)
  {
    if b: nat :| b < |ssa.g.blocks| && Holds(ssa.g.blocks[b], at) && Visited(ssa, b) then Some(SeenAt(ssa, r, b, at)) else None
  }

  lemma ReadAtIs(ssa: RegisterSsa, r: Register, at: nat, b: BlockId)
    requires Ssa.Valid(ssa) && ssa.g.Has(b) && Holds(ssa.g.blocks[b], at)
    ensures ReadAt(ssa, r, at) == if Visited(ssa, b) then Some(SeenAt(ssa, r, b, at)) else None
  {
    hide Ssa.Valid, SeenAt;
    if x: nat :| x < |ssa.g.blocks| && Holds(ssa.g.blocks[x], at) && Visited(ssa, x) {
      OneBlock(ssa, x, b, at);
    }
    forall x: nat | x < |ssa.g.blocks| && Holds(ssa.g.blocks[x], at) ensures x == b {
      OneBlock(ssa, x, b, at);
    }
  }

  /**
   * What one trip adds: a constant, registers with a sign and the place they are read at, and for each nested loop
   * passed the step that loop adds on each of its own trips.
   */
  datatype Step = Step(constant: Int64, registers: seq<(Register, nat, int)>, exits: seq<(LoopId, Step)>)

  const ZERO: Step := Step(0, [], [])

  // What each register is where it is read.
  type Reading = (Register, nat) -> int

  // What each value the steps add is, and how many trips each nested loop makes, where they are one all along.
  datatype Amounts = Amounts(value: Value -> int, trips: LoopId -> int)

  ghost function ReadSum(registers: seq<(Register, nat, int)>, c: Reading): int {
    if registers == [] then 0 else
    var (r, at, sign) := registers[|registers| - 1];
    ReadSum(registers[..|registers| - 1], c) + sign * c(r, at)
  }

  ghost function StepValue(ssa: RegisterSsa, step: Step, r: Reading, c: Amounts): int
    requires Ssa.Valid(ssa)
    decreases step
  {
    step.constant + ReadSum(step.registers, r) + ExitSum(ssa, step.exits, c)
  }

  // Each nested loop's step times its trips.
  ghost function ExitSum(ssa: RegisterSsa, exits: seq<(LoopId, Step)>, c: Amounts): int
    requires Ssa.Valid(ssa)
    decreases exits
  {
    if exits == [] then 0 else
    ExitSum(ssa, exits[..|exits| - 1], c) + ExitValue(ssa, exits[|exits| - 1], c)
  }

  ghost function ExitValue(ssa: RegisterSsa, x: (LoopId, Step), c: Amounts): int
    requires Ssa.Valid(ssa)
    decreases x
  {
    c.trips(x.0) * StepValue(ssa, x.1, ReadingOf(ssa, c), c)
  }

  ghost function ReadingOf(ssa: RegisterSsa, c: Amounts): Reading
    requires Ssa.Valid(ssa)
  {
    (r: Register, at: nat) => if ReadAt(ssa, r, at).Some? then c.value(ReadAt(ssa, r, at).value) else 0
  }

  lemma {:induction false} ReadSumAppend(a: seq<(Register, nat, int)>, b: seq<(Register, nat, int)>, c: Reading)
    ensures ReadSum(a + b, c) == ReadSum(a, c) + ReadSum(b, c)
  {
    if b == [] {
      assert a + b == a;
    } else {
      assert (a + b)[..|a + b| - 1] == a + b[..|b| - 1];
      ReadSumAppend(a, b[..|b| - 1], c);
    }
  }

  lemma ExitSumNext(ssa: RegisterSsa, exits: seq<(LoopId, Step)>, x: (LoopId, Step), c: Amounts)
    requires Ssa.Valid(ssa)
    ensures ExitSum(ssa, exits + [x], c) ==
            ExitSum(ssa, exits, c) + c.trips(x.0) * StepValue(ssa, x.1, ReadingOf(ssa, c), c)
  {
    hide Ssa.Valid, StepValue, ReadingOf;
    assert (exits + [x])[..|exits|] == exits;
  }

  // -- what a step asks of a run --------------------------------------------------------------

  // From position `i` of the run on, each of the registers is read as `c` says.
  ghost predicate ReadsAre(g: Cfg, p: seq<BlockId>, H: History, i: nat, registers: seq<(Register, nat, int)>,
                           c: Reading)
    requires IsPath(g, p)
  {
    forall x, m :: x in registers && i <= m < |p| && Holds(g.blocks[p[m]], x.1) ==> H(m, x.1, x.0) == c(x.0, x.1)
  }

  // The read is of the value that `x` of the step reads.
  ghost predicate ReadsValue(ssa: RegisterSsa, step: Step, r: Register, at: nat, x: (Register, nat, int))
    requires Ssa.Valid(ssa)
  {
    x in step.registers && ReadAt(ssa, r, at) == ReadAt(ssa, x.0, x.1)
  }

  // From position `e` of the run on, a read of a value the step adds reads one amount.
  ghost predicate ReadsSteady(ssa: RegisterSsa, p: seq<BlockId>, H: History, e: nat, step: Step, c: Amounts)
    requires Ssa.Valid(ssa) && IsPath(ssa.g, p)
  {
    forall m, at: nat, r, x :: e <= m < |p| && Holds(ssa.g.blocks[p[m]], at) && ReadsValue(ssa, step, r, at, x) ==>
      H(m, at, r) == ReadingOf(ssa, c)(r, at)
  }

  /**
   * From position `e` of the run on, a read of a value the step adds reads one amount, and each nested loop the step
   * counts is left after one number of trips, its own step steady too.
   */
  ghost predicate Steady(ssa: RegisterSsa, f: Forest, p: seq<BlockId>, H: History, e: nat, step: Step, c: Amounts)
    requires Ssa.Valid(ssa) && IsPath(ssa.g, p)
    decreases step
  {
    && ReadsSteady(ssa, p, H, e, step, c)
    && forall i :: 0 <= i < |step.exits| ==> ExitSteady(ssa, f, p, H, e, step.exits[i], c)
  }

  ghost predicate ExitSteady(ssa: RegisterSsa, f: Forest, p: seq<BlockId>, H: History, e: nat, x: (LoopId, Step),
                             c: Amounts)
    requires Ssa.Valid(ssa) && IsPath(ssa.g, p)
    decreases x
  {
    x.0 < |f.loops| && Laps(ssa.g, f.loops[x.0].header, p, e, c.trips(x.0)) && Steady(ssa, f, p, H, e, x.1, c)
  }

  // The nested loops of a step lie in each other as they are counted.
  ghost predicate NestedIn(f: Forest, l: LoopId, step: Step)
    decreases step
  {
    forall i :: 0 <= i < |step.exits| ==> ExitNested(f, l, step.exits[i])
  }

  ghost predicate ExitNested(f: Forest, l: LoopId, x: (LoopId, Step))
    decreases x
  {
    ChildOf(f, l, x.0) && NestedIn(f, x.0, x.1)
  }

  lemma {:induction false} SteadyLater(ssa: RegisterSsa, f: Forest, p: seq<BlockId>, H: History, e: nat, e': nat,
                                       step: Step, c: Amounts)
    requires Ssa.Valid(ssa) && IsPath(ssa.g, p) && e <= e' && Steady(ssa, f, p, H, e, step, c)
    ensures Steady(ssa, f, p, H, e', step, c)
    decreases step
  {
    hide Ssa.Valid, Laps, ReadsValue, ReadingOf;
    forall i | 0 <= i < |step.exits| ensures ExitSteady(ssa, f, p, H, e', step.exits[i], c) {
      ExitLater(ssa, f, p, H, e, e', step.exits[i], c);
    }
  }

  lemma ExitLater(ssa: RegisterSsa, f: Forest, p: seq<BlockId>, H: History, e: nat, e': nat, x: (LoopId, Step),
                  c: Amounts)
    requires Ssa.Valid(ssa) && IsPath(ssa.g, p) && e <= e' && ExitSteady(ssa, f, p, H, e, x, c)
    ensures ExitSteady(ssa, f, p, H, e', x, c)
    decreases x
  {
    hide Ssa.Valid, Steady, Laps;
    LapsLater(ssa.g, f.loops[x.0].header, p, e, e', c.trips(x.0));
    SteadyLater(ssa, f, p, H, e, e', x.1, c);
  }

  lemma ReadsSteadyPrefix(ssa: RegisterSsa, p: seq<BlockId>, H: History, e: nat, step: Step, c: Amounts, n: nat)
    requires Ssa.Valid(ssa) && IsPath(ssa.g, p) && 0 < n <= |p| && IsPath(ssa.g, p[..n])
    requires ReadsSteady(ssa, p, H, e, step, c)
    ensures ReadsSteady(ssa, p[..n], H, e, step, c)
  {
    hide Ssa.Valid, ReadAt, ReadingOf;
    var q := p[..n];
    forall m, at: nat, r, x | e <= m < |q| && Holds(ssa.g.blocks[q[m]], at) && ReadsValue(ssa, step, r, at, x)
      ensures H(m, at, r) == ReadingOf(ssa, c)(r, at)
    {
      assert q[m] == p[m];
    }
  }

  // A part of the run that ends between two blocks no nested loop holds both of.
  ghost predicate EndsApart(f: Forest, l: LoopId, p: seq<BlockId>, n: nat) {
    0 < n <= |p| && (n == |p| || Unshared(f, l, p[n - 1], p[n]))
  }

  lemma {:induction false} SteadyPrefix(ssa: RegisterSsa, f: Forest, l: LoopId, p: seq<BlockId>, H: History, e: nat,
                                        step: Step, c: Amounts, n: nat)
    requires Ssa.Valid(ssa) && ForestOf(ssa.g, f) && IsPath(ssa.g, p) && NestedIn(f, l, step) && EndsApart(f, l, p, n)
    requires IsPath(ssa.g, p[..n]) && Steady(ssa, f, p, H, e, step, c)
    ensures Steady(ssa, f, p[..n], H, e, step, c)
    decreases step
  {
    hide Ssa.Valid, ForestOf, Laps, ReadsSteady, Unshared;
    ReadsSteadyPrefix(ssa, p, H, e, step, c, n);
    forall i | 0 <= i < |step.exits| ensures ExitSteady(ssa, f, p[..n], H, e, step.exits[i], c) {
      assert ExitNested(f, l, step.exits[i]);
      ExitPrefix(ssa, f, l, p, H, e, step.exits[i], c, n);
    }
  }

  lemma ExitPrefix(ssa: RegisterSsa, f: Forest, l: LoopId, p: seq<BlockId>, H: History, e: nat, x: (LoopId, Step),
                   c: Amounts, n: nat)
    requires Ssa.Valid(ssa) && ForestOf(ssa.g, f) && IsPath(ssa.g, p) && ExitNested(f, l, x) && EndsApart(f, l, p, n)
    requires IsPath(ssa.g, p[..n]) && ExitSteady(ssa, f, p, H, e, x, c)
    ensures ExitSteady(ssa, f, p[..n], H, e, x, c)
    decreases x
  {
    hide Ssa.Valid, ForestOf, Laps, Steady, InBody;
    if n < |p| {
      BodyIsBlocks(ssa.g, f, x.0, p[n - 1]);
      BodyIsBlocks(ssa.g, f, x.0, p[n]);
      UnsharedChild(ssa.g, f, l, x.0, p[n - 1], p[n]);
    }
    LapsPrefix(ssa.g, f.loops[x.0].header, p, e, c.trips(x.0), n);
    SteadyPrefix(ssa, f, x.0, p, H, e, x.1, c, n);
  }

  /** What one trip asks: the step's own registers read as `r` says, and its nested loops steady. */
  ghost predicate Calm(ssa: RegisterSsa, f: Forest, p: seq<BlockId>, H: History, i: nat, step: Step, r: Reading,
                       c: Amounts)
    requires Ssa.Valid(ssa) && IsPath(ssa.g, p)
  {
    && ReadsAre(ssa.g, p, H, i, step.registers, r)
    && forall j :: 0 <= j < |step.exits| ==> ExitSteady(ssa, f, p, H, i, step.exits[j], c)
  }

  lemma CalmPrefix(ssa: RegisterSsa, f: Forest, l: LoopId, p: seq<BlockId>, H: History, i: nat, step: Step, r: Reading,
                   c: Amounts, n: nat)
    requires Ssa.Valid(ssa) && ForestOf(ssa.g, f) && IsPath(ssa.g, p) && 0 < n <= |p| && IsPath(ssa.g, p[..n])
    requires step.exits == [] || (NestedIn(f, l, step) && EndsApart(f, l, p, n))
    requires Calm(ssa, f, p, H, i, step, r, c)
    ensures Calm(ssa, f, p[..n], H, i, step, r, c)
  {
    hide Ssa.Valid, ForestOf, ExitSteady, EndsApart;
    forall x, m | x in step.registers && i <= m < n && Holds(ssa.g.blocks[p[..n][m]], x.1) ensures H(m, x.1, x.0) == r(x.0, x.1) {
      assert p[..n][m] == p[m];
    }
    forall j | 0 <= j < |step.exits| ensures ExitSteady(ssa, f, p[..n], H, i, step.exits[j], c) {
      assert ExitNested(f, l, step.exits[j]);
      ExitPrefix(ssa, f, l, p, H, i, step.exits[j], c, n);
    }
  }

  // -- moves ----------------------------------------------------------------------------------

  // A run stopped where `v` was written or merged last, its path through the phi's block.
  ghost predicate Sees(k: seq<Op>, ssa: RegisterSsa, phi: Value, v: Value, p: seq<BlockId>, H: History, end: nat)
    requires Ssa.Valid(ssa)
  {
    && RunOf(k, ssa.g, p, H) && Point(ssa.g, p, end) && phi.Argument? && phi.block in p
    && exists m :: Since(ssa, v, p, end, m)
  }

  ghost predicate MovesBy(k: seq<Op>, ssa: RegisterSsa, f: Forest, phi: Value, v: Value, step: Step, p: seq<BlockId>,
                          H: History, end: nat, r: Reading, c: Amounts)
    requires Ssa.Valid(ssa) && Sees(k, ssa, phi, v, p, H, end)
  {
    var i := LastIndex(p, phi.block);
    Calm(ssa, f, p, H, i, step, r, c) ==>
      H(|p| - 1, end, v.reg) == H(i, ssa.g.blocks[phi.block].start, phi.reg) + StepValue(ssa, step, r, c)
  }

  /** In every run, where `v` was written last it is the phi of the last trip's start plus the step. */
  ghost predicate Moves(k: seq<Op>, ssa: RegisterSsa, f: Forest, phi: Value, v: Value, step: Step)
    requires Ssa.Valid(ssa)
  {
    forall p, H: History, end, r: Reading, c: Amounts :: Sees(k, ssa, phi, v, p, H, end) ==>
      MovesBy(k, ssa, f, phi, v, step, p, H, end, r, c)
  }

  lemma PhiMoves(k: seq<Op>, ssa: RegisterSsa, f: Forest, phi: Value)
    requires FormOf(k, ssa) && phi.Argument?
    ensures Moves(k, ssa, f, phi, phi, ZERO)
  {
    hide Ssa.Valid, Dominates;
    forall p, H: History, end, r: Reading, c: Amounts | Sees(k, ssa, phi, phi, p, H, end)
      ensures MovesBy(k, ssa, f, phi, phi, ZERO, p, H, end, r, c)
    {
      var m: nat :| Since(ssa, phi, p, end, m);
      LastIndexIs(p, phi.block, m);
      LaidBlock(ssa, phi.block);
      Stays(k, ssa, phi.reg, p, H, m, ssa.g.blocks[p[m]].start, end);
    }
  }

  lemma MovesOne(k: seq<Op>, ssa: RegisterSsa, f: Forest, phi: Value, v: Value, step: Step, p: seq<BlockId>, H: History,
                 end: nat, r: Reading, c: Amounts)
    requires Ssa.Valid(ssa) && Moves(k, ssa, f, phi, v, step) && Sees(k, ssa, phi, v, p, H, end)
    ensures MovesBy(k, ssa, f, phi, v, step, p, H, end, r, c)
  {
    hide Ssa.Valid, Sees, MovesBy;
  }

  lemma AllMove(k: seq<Op>, ssa: RegisterSsa, f: Forest, phi: Value, v: Value, step: Step)
    requires Ssa.Valid(ssa)
    requires forall p, H: History, end, r: Reading, c: Amounts :: Sees(k, ssa, phi, v, p, H, end) ==>
      MovesBy(k, ssa, f, phi, v, step, p, H, end, r, c)
    ensures Moves(k, ssa, f, phi, v, step)
  {
    hide Ssa.Valid, Sees, MovesBy;
  }

  // A read that sees a value is where it was written or merged last.
  lemma SeenSees(k: seq<Op>, ssa: RegisterSsa, phi: Value, reg: Register, p: seq<BlockId>, H: History, end: nat)
    requires Ssa.Valid(ssa) && RunOf(k, ssa.g, p, H) && Point(ssa.g, p, end) && Visited(ssa, p[|p| - 1])
    requires phi.Argument? && phi.block in p && !SeenAt(ssa, reg, p[|p| - 1], end).Undef?
    ensures SeenAt(ssa, reg, p[|p| - 1], end).reg == reg
    ensures Sees(k, ssa, phi, SeenAt(ssa, reg, p[|p| - 1], end), p, H, end)
  {
    hide Ssa.Valid, SeenAt, Since;
    var m := SeenSince(ssa, reg, p, end);
  }

  // The block of an instruction in the loop was run since the loop's header.
  lemma SinceHeader(g: Cfg, h: BlockId, p: seq<BlockId>, m: nat, i: nat)
    requires g.Valid() && IsPath(g, p) && p[0] == ENTRY && LastAt(p, h, i) && m < |p| && LastAt(p, p[m], m)
    requires InBody(g, h, p[m]) && Dominates(g, ENTRY, p[m], p[|p| - 1])
    ensures i <= m
  {
    hide InBody, Dominates;
    if m < i {
      HeaderDominatesBody(g, h, p[m]);
      RoundTheBlock(g, h, p, m, i);
      DominatesAntisymmetric(g, ENTRY, p[m], h);
    }
  }

  // A block not run since the header, but on every path to where the path ends, is on every path to the header.
  lemma RoundTheBlock(g: Cfg, h: BlockId, p: seq<BlockId>, m: nat, i: nat)
    requires IsPath(g, p) && p[0] == ENTRY && i < |p| && p[i] == h && m < i && LastAt(p, p[m], m)
    requires Dominates(g, ENTRY, p[m], p[|p| - 1])
    ensures Dominates(g, ENTRY, p[m], h)
  {
    var c, last := p[m], p[|p| - 1];
    PathSlice(g, p, i, |p|);
    Prefix(g, p, i + 1);
    forall q | Connects(g, ENTRY, h, q) ensures c in q {
      PathJoin(g, ENTRY, h, last, q, p[i..|p|]);
      assert c in q + p[i..|p|][1..];
    }
  }

  // -- one statement ------------------------------------------------------------------------------

  // The step a known operand adds at `op`.
  function Term(a: Arg, op: nat, sign: int): Option<Step> {
    match a
    case Imm(v) => if Fits(sign * v) then Some(Step(sign * v, [], [])) else None
    case Reg(r) => Some(Step(0, [(r, op, sign)], []))
    case Else => None
  }

  // How the statement makes its register from `from` and what it adds.
  ghost predicate Makes(op: Op, from: Arg, plus: Option<(Arg, int)>) {
    || (op.Mov? && from == op.src && plus == None)
    || (op.Add? && ((from == op.a && plus == Some((op.b, 1))) || (from == op.b && plus == Some((op.a, 1)))))
    || (op.Sub? && from == op.a && plus == Some((op.b, -1)))
  }

  ghost predicate Extends(s: Step, op: nat, plus: Option<(Arg, int)>, r: Step) {
    r.exits == s.exits &&
    match plus
    case None => r == s
    case Some((a, sign)) =>
      Term(a, op, sign).Some? &&
      var t := Term(a, op, sign).value;
      r.constant == s.constant + t.constant && r.registers == s.registers + t.registers
  }

  // A block the loop is the innermost one of.
  ghost predicate OwnBlock(g: Cfg, f: Forest, l: LoopId, b: BlockId) {
    g.Has(b) && l < |f.loops| && b < |f.blockLoop| && f.blockLoop[b] == Some(l)
  }

  // A loop of the forest and a phi at its header.
  ghost predicate LoopOf(ssa: RegisterSsa, f: Forest, l: LoopId, phi: Value) {
    ForestOf(ssa.g, f) && l < |f.loops| && phi.Argument? && phi.block == f.loops[l].header
  }

  lemma OwnInBody(g: Cfg, f: Forest, l: LoopId, b: BlockId)
    requires ForestOf(g, f) && OwnBlock(g, f, l, b)
    ensures g.Has(b) && l < |f.loops| && InBody(g, f.loops[l].header, b)
  {
    hide DominanceOf, Nested, InBody;
  }

  lemma FormValid(k: seq<Op>, ssa: RegisterSsa)
    requires FormOf(k, ssa)
    ensures ssa.g.Valid() && Ssa.Valid(ssa)
  {
  }

  lemma LaidApart(ssa: RegisterSsa, a: BlockId, b: BlockId)
    requires Ssa.Valid(ssa) && a < b && ssa.g.Has(b)
    ensures ssa.g.blocks[a].end <= ssa.g.blocks[b].start
  {
  }

  lemma OneBlock(ssa: RegisterSsa, a: BlockId, b: BlockId, op: nat)
    requires Ssa.Valid(ssa) && ssa.g.Has(a) && ssa.g.Has(b) && Holds(ssa.g.blocks[a], op) && Holds(ssa.g.blocks[b], op)
    ensures a == b
  {
    if a < b {
      LaidApart(ssa, a, b);
    } else if b < a {
      LaidApart(ssa, b, a);
    }
  }

  /** A statement in the loop moves its register by what its operand moved and what it adds. */
  lemma StatementMoves(k: seq<Op>, ssa: RegisterSsa, f: Forest, l: LoopId, phi: Value, v: Value, b: BlockId,
                       from: Register, plus: Option<(Arg, int)>, s: Step, r: Step)
    requires FormOf(k, ssa) && LoopOf(ssa, f, l, phi) && v.Result? && v.op < |k| && OwnBlock(ssa.g, f, l, b)
    requires Holds(ssa.g.blocks[b], v.op) && Visited(ssa, b) && NestedIn(f, l, s)
    requires Makes(k[v.op], Reg(from), plus) && Extends(s, v.op, plus, r)
    requires !SeenAt(ssa, from, b, v.op).Undef? && Moves(k, ssa, f, phi, SeenAt(ssa, from, b, v.op), s)
    ensures Moves(k, ssa, f, phi, v, r)
  {
    hide Ssa.Valid, SeenAt, Dominates, Moves, Makes, Extends, InBody, Sees, NestedIn, LoopOf, OwnBlock;
    forall p, H: History, end, rd: Reading, c: Amounts | Sees(k, ssa, phi, v, p, H, end)
      ensures MovesBy(k, ssa, f, phi, v, r, p, H, end, rd, c)
    {
      RunMoves(k, ssa, f, l, phi, v, b, from, plus, s, r, p, H, end, rd, c);
    }
    AllMove(k, ssa, f, phi, v, r);
  }

  lemma RunMoves(k: seq<Op>, ssa: RegisterSsa, f: Forest, l: LoopId, phi: Value, v: Value, b: BlockId, from: Register,
                 plus: Option<(Arg, int)>, s: Step, r: Step, p: seq<BlockId>, H: History, end: nat, rd: Reading,
                 c: Amounts)
    requires FormOf(k, ssa) && LoopOf(ssa, f, l, phi) && v.Result? && v.op < |k| && OwnBlock(ssa.g, f, l, b)
    requires Holds(ssa.g.blocks[b], v.op) && Visited(ssa, b) && NestedIn(f, l, s)
    requires Makes(k[v.op], Reg(from), plus) && Extends(s, v.op, plus, r)
    requires !SeenAt(ssa, from, b, v.op).Undef? && Moves(k, ssa, f, phi, SeenAt(ssa, from, b, v.op), s)
    requires Sees(k, ssa, phi, v, p, H, end)
    ensures MovesBy(k, ssa, f, phi, v, r, p, H, end, rd, c)
  {
    hide Ssa.Valid, SeenAt, Dominates, Moves, Makes, Extends, InBody, NestedIn, ForestOf, Calm;
    var i := LastIndex(p, phi.block);
    if Calm(ssa, f, p, H, i, r, rd, c) {
      var m: nat :| Since(ssa, v, p, end, m);
      OneBlock(ssa, b, p[m], v.op);
      FormValid(k, ssa);
      OwnInBody(ssa.g, f, l, b);
      SinceHeader(ssa.g, phi.block, p, m, i);
      Stays(k, ssa, v.reg, p, H, m, v.op + 1, end);
      OperandMoved(k, ssa, f, l, phi, v.op, from, s, p, H, m, i, rd, c, r, plus);
      Made(k, ssa, f, v, from, plus, s, r, p, H, m, i, rd, c);
    }
  }

  // A part of the run that ends in the loop's own block parts its nested loops, wherever it goes on.
  lemma OwnEndsApart(ssa: RegisterSsa, f: Forest, l: LoopId, p: seq<BlockId>, m: nat)
    requires ForestOf(ssa.g, f) && m < |p| && OwnBlock(ssa.g, f, l, p[m])
    ensures EndsApart(f, l, p, m + 1)
  {
    hide ForestOf;
    OutsideWhere(ssa.g, f, l, p[m]);
  }

  // The operand's value, from the run's prefix ending before the statement.
  lemma OperandMoved(k: seq<Op>, ssa: RegisterSsa, f: Forest, l: LoopId, phi: Value, op: nat, from: Register, s: Step,
                     p: seq<BlockId>, H: History, m: nat, i: nat, rd: Reading, c: Amounts, r: Step,
                     plus: Option<(Arg, int)>)
    requires FormOf(k, ssa) && LoopOf(ssa, f, l, phi) && RunOf(k, ssa.g, p, H) && LastAt(p, phi.block, i) && i <= m < |p|
    requires Holds(ssa.g.blocks[p[m]], op) && Visited(ssa, p[m]) && Extends(s, op, plus, r)
    requires OwnBlock(ssa.g, f, l, p[m]) && NestedIn(f, l, s)
    requires !SeenAt(ssa, from, p[m], op).Undef? && Moves(k, ssa, f, phi, SeenAt(ssa, from, p[m], op), s)
    requires Calm(ssa, f, p, H, i, r, rd, c)
    ensures H(m, op, from) == H(i, ssa.g.blocks[phi.block].start, phi.reg) + StepValue(ssa, s, rd, c)
  {
    hide Ssa.Valid, SeenAt, Dominates, StepValue, Moves, ForestOf, NestedIn, EndsApart, ExitSteady, Sees, Runs, Carries,
      Calm, OwnBlock, MovesBy;
    FormValid(k, ssa);
    var q := p[..m + 1];
    RunPrefix(k, ssa.g, p, H, m + 1);
    assert q[m] == p[m];
    LastIndexIs(q, phi.block, i);
    var w := SeenAt(ssa, from, p[m], op);
    assert Point(ssa.g, q, op);
    SeenSees(k, ssa, phi, from, q, H, op);
    OwnEndsApart(ssa, f, l, p, m);
    CalmPart(ssa, f, p, H, i, r, s, rd, c);
    CalmPrefix(ssa, f, l, p, H, i, s, rd, c, m + 1);
    MovedTo(k, ssa, f, phi, w, s, q, H, op, i, rd, c);
  }

  lemma MovedTo(k: seq<Op>, ssa: RegisterSsa, f: Forest, phi: Value, v: Value, s: Step, p: seq<BlockId>, H: History,
                end: nat, i: nat, rd: Reading, c: Amounts)
    requires Ssa.Valid(ssa) && IsPath(ssa.g, p) && Moves(k, ssa, f, phi, v, s) && Sees(k, ssa, phi, v, p, H, end)
    requires phi.Argument? && LastAt(p, phi.block, i) && Calm(ssa, f, p, H, i, s, rd, c)
    ensures H(|p| - 1, end, v.reg) == H(i, StartOf(ssa.g, phi.block), phi.reg) + StepValue(ssa, s, rd, c)
  {
    hide Ssa.Valid, Moves, Sees, Calm, StepValue, ReadingOf;
    assert ssa.g.Has(p[i]);
    LastIndexIs(p, phi.block, i);
    assert MovesBy(k, ssa, f, phi, v, s, p, H, end, rd, c) by {
      MovesOne(k, ssa, f, phi, v, s, p, H, end, rd, c);
    }
  }

  ghost function StartOf(g: Cfg, b: BlockId): nat {
    if g.Has(b) then g.blocks[b].start else 0
  }

  lemma CalmPart(ssa: RegisterSsa, f: Forest, p: seq<BlockId>, H: History, i: nat, r: Step, s: Step, rd: Reading,
                 c: Amounts)
    requires Ssa.Valid(ssa) && IsPath(ssa.g, p) && Calm(ssa, f, p, H, i, r, rd, c)
    requires (forall x :: x in s.registers ==> x in r.registers) && (forall x :: x in s.exits ==> x in r.exits)
    ensures Calm(ssa, f, p, H, i, s, rd, c)
  {
    hide Ssa.Valid, ExitSteady;
    forall j | 0 <= j < |s.exits| ensures ExitSteady(ssa, f, p, H, i, s.exits[j], c) {
      assert s.exits[j] in r.exits;
    }
  }

  // What the statement makes of its operands.
  lemma Made(k: seq<Op>, ssa: RegisterSsa, f: Forest, v: Value, from: Register, plus: Option<(Arg, int)>, s: Step,
             r: Step, p: seq<BlockId>, H: History, m: nat, i: nat, rd: Reading, c: Amounts)
    requires FormOf(k, ssa) && v.Result? && v.op < |k| && RunOf(k, ssa.g, p, H) && i <= m < |p|
    requires Holds(ssa.g.blocks[p[m]], v.op) && v.op in WritesOf(ssa.writes, v.reg)
    requires Makes(k[v.op], Reg(from), plus) && Extends(s, v.op, plus, r) && Calm(ssa, f, p, H, i, r, rd, c)
    ensures H(m, v.op + 1, v.reg) == H(m, v.op, from) + StepValue(ssa, r, rd, c) - StepValue(ssa, s, rd, c)
  {
    hide Ssa.Valid, ExitSteady, ExitSum, ReadSum;
    var op := v.op;
    assert Runs(k, H, m, op);
    assert v.reg in Writes(k[op]);
    if plus.Some? {
      var (a, sign) := plus.value;
      var t := Term(a, op, sign).value;
      ReadSumAppend(s.registers, t.registers, rd);
      if a.Reg? {
        assert (a.r, op, sign) in r.registers;
        assert H(m, op, a.r) == rd(a.r, op);
        OneRead(a.r, op, sign, rd);
      } else {
        NoRead(rd);
      }
    }
  }

  lemma NoRead(c: Reading)
    ensures ReadSum([], c) == 0
  {
  }

  lemma OneRead(r: Register, at: nat, sign: int, c: Reading)
    ensures ReadSum([(r, at, sign)], c) == sign * c(r, at)
  {
    assert [(r, at, sign)][..0] == [];
  }

  // -- counters -----------------------------------------------------------------------------------------

  // A phi, or a value written in a block of the loop.
  ghost predicate MadeIn(g: Cfg, h: BlockId, v: Value) {
    !v.Undef? && (v.Result? ==> exists b: nat :: b < |g.blocks| && Holds(g.blocks[b], v.op) && InBody(g, h, b))
  }

  /** A header's phi: its value on entry, and what every back edge adds. */
  datatype Counter = Counter(phi: Value, start: Value, step: Step)

  // The same constant and exits, and the same values read with the same signs.
  ghost predicate Same(ssa: RegisterSsa, a: Step, b: Step)
    requires Ssa.Valid(ssa)
  {
    && a.constant == b.constant && a.exits == b.exits && |a.registers| == |b.registers|
    && forall i :: 0 <= i < |a.registers| ==> SameRead(ssa, a.registers[i], b.registers[i])
  }

  ghost predicate SameRead(ssa: RegisterSsa, x: (Register, nat, int), y: (Register, nat, int))
    requires Ssa.Valid(ssa)
  {
    ReadAt(ssa, x.0, x.1) == ReadAt(ssa, y.0, y.1) && x.2 == y.2
  }

  ghost predicate CounterFedBy(k: seq<Op>, ssa: RegisterSsa, f: Forest, l: LoopId, ct: Counter, v: Value)
    requires Ssa.Valid(ssa) && ForestOf(ssa.g, f)
  {
    l < |f.loops| && CounterIs(k, ssa, f, l, ct.phi.reg, ct) && Fed(ssa, f.loops[l].header, ct.phi.reg, v)
  }

  // What some back edge of the loop feeds the register's phi.
  ghost predicate Fed(ssa: RegisterSsa, h: BlockId, reg: Register, v: Value)
    requires Ssa.Valid(ssa)
  {
    exists from :: IncomingEdge(ssa, h, from) && FromBody(ssa.g, h, from) && OnEdge(ssa, h, reg, from) == v
  }

  ghost predicate FromBody(g: Cfg, h: BlockId, from: Option<BlockId>) {
    from.Some? && InBody(g, h, from.value)
  }

  /** The phi of the loop's header, one value where the loop is entered, and moved by one step along every back edge. */
  ghost predicate CounterIs(k: seq<Op>, ssa: RegisterSsa, f: Forest, l: LoopId, reg: Register, ct: Counter)
    requires Ssa.Valid(ssa) && ForestOf(ssa.g, f) && l < |f.loops|
  {
    var h := f.loops[l].header;
    && ct.phi == Argument(h, reg) && ct.step != ZERO && NestedIn(f, l, ct.step)
    && forall from :: IncomingEdge(ssa, h, from) ==> EdgeFits(k, ssa, f, h, reg, ct, from)
  }

  ghost predicate EdgeFits(k: seq<Op>, ssa: RegisterSsa, f: Forest, h: BlockId, reg: Register, ct: Counter,
                           from: Option<BlockId>)
    requires Ssa.Valid(ssa) && IncomingEdge(ssa, h, from)
  {
    if FromBody(ssa.g, h, from) then FedBy(k, ssa, f, ct, OnEdge(ssa, h, reg, from)) && MadeIn(ssa.g, h, OnEdge(ssa, h, reg, from))
    else OnEdge(ssa, h, reg, from) == ct.start
  }

  ghost predicate FedBy(k: seq<Op>, ssa: RegisterSsa, f: Forest, ct: Counter, v: Value)
    requires Ssa.Valid(ssa)
  {
    exists s :: Moves(k, ssa, f, ct.phi, v, s) && Same(ssa, s, ct.step)
  }

  lemma HeaderHas(g: Cfg, f: Forest, l: LoopId)
    requires ForestOf(g, f) && l < |f.loops|
    ensures g.Has(f.loops[l].header)
  {
    hide DominanceOf, Nested, HasForwardCycle, AcyclicBut, InnermostIs, InBody, BackEdge, Strictly;
    var h := f.loops[l].header;
    assert IsHeader(g, h);
    HeaderReached(g, h);
  }

  // -- what a counter holds ----------------------------------------------------------------------------------

  lemma {:induction false} SameSum(ssa: RegisterSsa, a: seq<(Register, nat, int)>, b: seq<(Register, nat, int)>,
                                   c: Amounts)
    requires Ssa.Valid(ssa) && |a| == |b| && forall i :: 0 <= i < |a| ==> SameRead(ssa, a[i], b[i])
    ensures ReadSum(a, ReadingOf(ssa, c)) == ReadSum(b, ReadingOf(ssa, c))
  {
    hide Ssa.Valid, ReadAt;
    if a != [] {
      var n := |a| - 1;
      assert SameRead(ssa, a[n], b[n]);
      SameSum(ssa, a[..n], b[..n], c);
    }
  }

  // Of two steps alike, one moves as the other does where the other is steady.
  lemma SameStep(ssa: RegisterSsa, f: Forest, p: seq<BlockId>, H: History, e: nat, i: nat, s: Step, step: Step,
                 c: Amounts)
    requires Ssa.Valid(ssa) && IsPath(ssa.g, p) && e <= i && Steady(ssa, f, p, H, e, step, c) && Same(ssa, s, step)
    ensures Calm(ssa, f, p, H, i, s, ReadingOf(ssa, c), c)
    ensures StepValue(ssa, s, ReadingOf(ssa, c), c) == StepValue(ssa, step, ReadingOf(ssa, c), c)
  {
    hide Ssa.Valid, ReadAt, ReadingOf, ExitSteady, ExitSum, SameRead, ReadsSteady;
    SteadyLater(ssa, f, p, H, e, i, step, c);
    StepReads(ssa, p, H, i, s, step, c);
    SameSum(ssa, s.registers, step.registers, c);
  }

  lemma StepReads(ssa: RegisterSsa, p: seq<BlockId>, H: History, i: nat, s: Step, step: Step, c: Amounts)
    requires Ssa.Valid(ssa) && IsPath(ssa.g, p) && ReadsSteady(ssa, p, H, i, step, c) && Same(ssa, s, step)
    ensures ReadsAre(ssa.g, p, H, i, s.registers, ReadingOf(ssa, c))
  {
    hide Ssa.Valid, ReadAt;
    forall x, m | x in s.registers && i <= m < |p| && Holds(ssa.g.blocks[p[m]], x.1)
      ensures H(m, x.1, x.0) == ReadingOf(ssa, c)(x.0, x.1)
    {
      var n :| 0 <= n < |s.registers| && s.registers[n] == x;
      assert SameRead(ssa, s.registers[n], step.registers[n]);
      assert ReadsValue(ssa, step, x.0, x.1, step.registers[n]);
    }
  }

  /** What a latch feeds back is the value at its trip's start plus the step. */
  lemma FedHolds(k: seq<Op>, ssa: RegisterSsa, f: Forest, l: LoopId, reg: Register, ct: Counter, p: seq<BlockId>,
                 H: History, e: nat, i: nat, c: Amounts)
    requires FormOf(k, ssa) && ForestOf(ssa.g, f) && l < |f.loops| && CounterIs(k, ssa, f, l, reg, ct)
    requires RunOf(k, ssa.g, p, H) && e <= i < |p| && LastAt(p, f.loops[l].header, i)
    requires Steady(ssa, f, p, H, e, ct.step, c)
    requires ssa.g.Edge(p[|p| - 1], f.loops[l].header) && InBody(ssa.g, f.loops[l].header, p[|p| - 1])
    ensures H(|p| - 1, ssa.g.blocks[p[|p| - 1]].end, reg) ==
            H(i, ssa.g.blocks[f.loops[l].header].start, reg) + StepValue(ssa, ct.step, ReadingOf(ssa, c), c)
  {
    hide Ssa.Valid, SeenAt, Moves, InBody, ForestOf, Dominates, Steady, Same, NestedIn, Runs, Carries, StepValue, Calm, Sees;
    var h, n := f.loops[l].header, |p| - 1;
    assert Connects(ssa.g, ENTRY, p[n], p);
    var from := Some(p[n]);
    assert IncomingEdge(ssa, h, from);
    assert EdgeFits(k, ssa, f, h, reg, ct, from);
    var v := OnEdge(ssa, h, reg, from);
    var s :| Moves(k, ssa, f, ct.phi, v, s) && Same(ssa, s, ct.step);
    LaidBlock(ssa, p[n]);
    LastIndexIs(p, h, i);
    SameStep(ssa, f, p, H, e, i, s, ct.step, c);
    SeenSees(k, ssa, ct.phi, reg, p, H, ssa.g.blocks[p[n]].end);
    assert MovesBy(k, ssa, f, ct.phi, v, s, p, H, ssa.g.blocks[p[n]].end, ReadingOf(ssa, c), c) by {
      MovesOne(k, ssa, f, ct.phi, v, s, p, H, ssa.g.blocks[p[n]].end, ReadingOf(ssa, c), c);
    }
  }

  // One trip, from one run of the header to the next.
  lemma TripHolds(k: seq<Op>, ssa: RegisterSsa, f: Forest, l: LoopId, reg: Register, ct: Counter, p: seq<BlockId>,
                  H: History, e: nat, i: nat, j: nat, c: Amounts)
    requires FormOf(k, ssa) && ForestOf(ssa.g, f) && l < |f.loops| && CounterIs(k, ssa, f, l, reg, ct)
    requires RunOf(k, ssa.g, p, H) && e <= i < j < |p| && p[j] == f.loops[l].header
    requires Steady(ssa, f, p, H, e, ct.step, c)
    requires InBody(ssa.g, f.loops[l].header, p[j - 1]) && LastAt(p[..j], f.loops[l].header, i)
    ensures var start := ssa.g.blocks[f.loops[l].header].start;
      H(j, start, reg) == H(i, start, reg) + StepValue(ssa, ct.step, ReadingOf(ssa, c), c)
  {
    hide Ssa.Valid, SeenAt, InBody, ForestOf, Dominates, CounterIs, FormOf, StepValue, ReadingOf, Runs, Steady, NestedIn;
    FormValid(k, ssa);
    RunPrefix(k, ssa.g, p, H, j);
    TripEndsApart(ssa.g, f, l, p, j);
    CounterNested(k, ssa, f, l, reg, ct);
    SteadyPrefix(ssa, f, l, p, H, e, ct.step, c, j);
    assert ssa.g.Edge(p[j - 1], p[j - 1 + 1]);
    assert p[..j][j - 1] == p[j - 1];
    FedHolds(k, ssa, f, l, reg, ct, p[..j], H, e, i, c);
    assert Carries(ssa.g, p, H, j - 1, reg);
  }

  // A part of the run that ends before the loop's header, or before leaving it, parts its nested loops.
  lemma TripEndsApart(g: Cfg, f: Forest, l: LoopId, p: seq<BlockId>, n: nat)
    requires g.Valid() && ForestOf(g, f) && l < |f.loops| && IsPath(g, p) && 0 < n <= |p|
    requires n < |p| ==> p[n] == f.loops[l].header || !InBody(g, f.loops[l].header, p[n])
    ensures EndsApart(f, l, p, n)
  {
    hide ForestOf, InBody;
    if n < |p| {
      assert g.Edge(p[n - 1], p[n - 1 + 1]);
      BodyIsBlocks(g, f, l, p[n]);
      BlockHasLoop(g, f, p[n]);
      OutsideWhere(g, f, l, p[n]);
    }
  }

  lemma BlockHasLoop(g: Cfg, f: Forest, b: BlockId)
    requires ForestOf(g, f) && g.Has(b)
    ensures b < |f.blockLoop|
  {
    hide DominanceOf, Nested, InBody, IsHeader, HasForwardCycle, AcyclicBut, InnermostIs;
  }

  lemma CounterNested(k: seq<Op>, ssa: RegisterSsa, f: Forest, l: LoopId, reg: Register, ct: Counter)
    requires Ssa.Valid(ssa) && ForestOf(ssa.g, f) && l < |f.loops| && CounterIs(k, ssa, f, l, reg, ct)
    ensures NestedIn(f, l, ct.step) && ct.phi == Argument(f.loops[l].header, reg)
  {
    hide Ssa.Valid, ForestOf, NestedIn, EdgeFits, IncomingEdge;
  }

  lemma PreviousHeader(p: seq<BlockId>, h: BlockId, e: nat, j: nat) returns (i: nat)
    requires e < j <= |p| && p[e] == h
    ensures e <= i < j && p[i] == h && LastAt(p[..j], h, i) && Times(p, h, j) == Times(p, h, i + 1)
  {
    var q := p[..j];
    assert q[e] == h;
    i := LastIndex(q, h);
    forall t | i < t < j ensures p[t] != h {
      assert q[t] == p[t];
    }
    TimesBetween(p, h, i, j);
  }

  lemma TimesAt(p: seq<BlockId>, h: BlockId, j: nat)
    requires j < |p| && p[j] == h
    ensures Times(p, h, j + 1) == Times(p, h, j) + 1
  {
  }

  /** At its loop's k-th trip since it was entered, a counter holds what it started from plus k - 1 steps. */
  lemma {:induction false} CounterHolds(k: seq<Op>, ssa: RegisterSsa, f: Forest, l: LoopId, reg: Register, ct: Counter,
                                        p: seq<BlockId>, H: History, e: nat, j: nat, c: Amounts)
    requires FormOf(k, ssa) && ForestOf(ssa.g, f) && l < |f.loops| && CounterIs(k, ssa, f, l, reg, ct)
    requires RunOf(k, ssa.g, p, H) && e <= j < |p| && p[e] == p[j] == f.loops[l].header
    requires Steady(ssa, f, p, H, e, ct.step, c)
    requires forall t :: e <= t <= j ==> InBody(ssa.g, f.loops[l].header, p[t])
    ensures var h := f.loops[l].header;
      H(j, ssa.g.blocks[h].start, reg) == H(e, ssa.g.blocks[h].start, reg) +
        (Times(p, h, j + 1) - Times(p, h, e) - 1) * StepValue(ssa, ct.step, ReadingOf(ssa, c), c)
    decreases j
  {
    hide Ssa.Valid, InBody, ForestOf, CounterIs, FormOf, StepValue, ReadingOf, RunOf, Steady, Times;
    var h := f.loops[l].header;
    TimesAt(p, h, j);
    if e < j {
      var i := PreviousHeader(p, h, e, j);
      TripHolds(k, ssa, f, l, reg, ct, p, H, e, i, j, c);
      CounterHolds(k, ssa, f, l, reg, ct, p, H, e, i, c);
      FormValid(k, ssa);
      Distributes(StepValue(ssa, ct.step, ReadingOf(ssa, c), c), Times(p, h, i + 1) - Times(p, h, e) - 1, 1);
    }
  }

  // -- through a nested loop's counter ---------------------------------------------------------------------

  // What a loop's counter feeds back is written in the loop, and moves by its step.
  lemma FedFacts(k: seq<Op>, ssa: RegisterSsa, f: Forest, l: LoopId, ct: Counter, v: Value) returns (s: Step)
    requires FormOf(k, ssa) && ForestOf(ssa.g, f) && CounterFedBy(k, ssa, f, l, ct, v)
    ensures v.reg == ct.phi.reg && MadeIn(ssa.g, f.loops[l].header, v) && ct.phi == Argument(f.loops[l].header, v.reg)
    ensures Moves(k, ssa, f, ct.phi, v, s) && Same(ssa, s, ct.step)
  {
    hide Ssa.Valid, SeenAt, Moves, InBody, ForestOf, Dominates, Same, MadeIn, NestedIn;
    var h, reg := f.loops[l].header, ct.phi.reg;
    var from: Option<BlockId> :| IncomingEdge(ssa, h, from) && FromBody(ssa.g, h, from) && OnEdge(ssa, h, reg, from) == v;
    assert EdgeFits(k, ssa, f, h, reg, ct, from);
    FormValid(k, ssa);
    PhiDominates(ssa, reg, from.value, ssa.g.blocks[from.value].end);
    s :| Moves(k, ssa, f, ct.phi, v, s) && Same(ssa, s, ct.step);
  }

  // The stay a block of a nested loop is in starts after the outer header `i` is of.
  lemma StayAround(g: Cfg, h: BlockId, p: seq<BlockId>, i: nat, m: nat) returns (e: nat, x: nat)
    requires IsPath(g, p) && p[0] == ENTRY && i <= m < |p| && InBody(g, h, p[m]) && !InBody(g, h, p[i])
    ensures i < e <= m < x <= |p| && StaysFrom(g, h, p, e, x - 1) && Leaves(g, h, p, x - 1)
    ensures Stay(g, h, p, x) == Times(p, h, x) - Times(p, h, e)
  {
    hide InBody, Stay, Leaves;
    x := StayEnds(g, h, p, m);
    assert InBody(g, h, p[x - 1]);
    e := StayStarts(g, h, p, x - 1);
  }

  // The part of the run up to where a stay ends, and how far of its last block.
  function EndOf(g: Cfg, p: seq<BlockId>, end: nat, x: nat): nat
    requires 0 < x <= |p|
  {
    if x == |p| || p[x - 1] >= |g.blocks| then end else g.blocks[p[x - 1]].end
  }

  lemma SincePart(k: seq<Op>, ssa: RegisterSsa, v: Value, p: seq<BlockId>, H: History, end: nat, m: nat, x: nat)
    requires FormOf(k, ssa) && RunOf(k, ssa.g, p, H) && Point(ssa.g, p, end) && v.Result? && Since(ssa, v, p, end, m)
    requires m < x <= |p|
    ensures RunOf(k, ssa.g, p[..x], H) && Point(ssa.g, p[..x], EndOf(ssa.g, p, end, x))
    ensures Since(ssa, v, p[..x], EndOf(ssa.g, p, end, x), m)
  {
    hide Ssa.Valid, Dominates, Runs, Carries;
    FormValid(k, ssa);
    var q := p[..x];
    RunPrefix(k, ssa.g, p, H, x);
    LaidBlock(ssa, q[x - 1]);
    if x < |p| {
      PathSlice(ssa.g, p, 0, x);
      if m < x - 1 {
        RoundTheBlock(ssa.g, p[x - 1], p, m, x - 1);
      } else {
        DominatesSelf(ssa.g, ENTRY, p[m]);
      }
      UnwrittenPart(ssa, v.reg, p, m, v.op + 1, end, x);
    } else {
      assert q == p;
    }
  }

  lemma UnwrittenPart(ssa: RegisterSsa, reg: Register, p: seq<BlockId>, m: nat, from: nat, end: nat, x: nat)
    requires IsPath(ssa.g, p) && m < x < |p| && IsPath(ssa.g, p[..x]) && Unwritten(ssa, reg, p, m, from, end)
    ensures Unwritten(ssa, reg, p[..x], m, from, ssa.g.blocks[p[x - 1]].end)
  {
    forall i: nat, s: nat | m <= i < x && Holds(ssa.g.blocks[p[..x][i]], s) && (i == m ==> s >= from)
      ensures s !in WritesOf(ssa.writes, reg)
    {
      assert p[..x][i] == p[i];
    }
  }

  // The part of a run from where it enters a loop to where it leaves it, a counter fed back in it last at `m`.
  ghost predicate Stayed(k: seq<Op>, ssa: RegisterSsa, f: Forest, l: LoopId, ct: Counter, v: Value, p: seq<BlockId>,
                         H: History, end: nat, m: nat, e: nat, x: nat)
    requires l < |f.loops|
  {
    && RunOf(k, ssa.g, p, H) && Point(ssa.g, p, end) && Since(ssa, v, p, end, m) && v.Result?
    && e <= m < x <= |p| && StaysFrom(ssa.g, f.loops[l].header, p, e, x - 1) && Leaves(ssa.g, f.loops[l].header, p, x - 1)
  }

  // A stay's last run of the header is before what is fed back in it last.
  lemma StayLast(k: seq<Op>, ssa: RegisterSsa, f: Forest, l: LoopId, ct: Counter, v: Value, p: seq<BlockId>, H: History,
                 end: nat, m: nat, e: nat, x: nat) returns (last: nat)
    requires FormOf(k, ssa) && l < |f.loops| && Stayed(k, ssa, f, l, ct, v, p, H, end, m, e, x)
    requires Since(ssa, v, p[..x], EndOf(ssa.g, p, end, x), m)
    ensures e <= last <= m && LastAt(p[..x], f.loops[l].header, last)
  {
    hide Ssa.Valid, InBody, Dominates, Runs, Carries, Unwritten, EndOf, Leaves;
    FormValid(k, ssa);
    var h, q := f.loops[l].header, p[..x];
    assert q[e] == h && q[m] == p[m];
    last := LastIndex(q, h);
    SinceHeader(ssa.g, h, q, m, last);
  }

  lemma SinceFacts(k: seq<Op>, ssa: RegisterSsa, f: Forest, l: LoopId, ct: Counter, v: Value, p: seq<BlockId>,
                   H: History, end: nat, m: nat, e: nat, x: nat)
    requires FormOf(k, ssa) && l < |f.loops| && Stayed(k, ssa, f, l, ct, v, p, H, end, m, e, x)
    ensures e <= m < x <= |p| && IsPath(ssa.g, p[..x]) && RunOf(k, ssa.g, p[..x], H) && v.Result?
    ensures Point(ssa.g, p[..x], EndOf(ssa.g, p, end, x)) && Since(ssa, v, p[..x], EndOf(ssa.g, p, end, x), m)
  {
    hide Ssa.Valid, Dominates, Runs, Carries, Unwritten, StaysFrom, Leaves, EndOf;
    SincePart(k, ssa, v, p, H, end, m, x);
  }

  // From where a value is written to the end it stays.
  lemma SinceStays(k: seq<Op>, ssa: RegisterSsa, v: Value, p: seq<BlockId>, H: History, end: nat, m: nat)
    requires FormOf(k, ssa) && RunOf(k, ssa.g, p, H) && Point(ssa.g, p, end) && v.Result? && Since(ssa, v, p, end, m)
    ensures H(|p| - 1, end, v.reg) == H(m, v.op + 1, v.reg)
  {
    hide Ssa.Valid, Dominates, Runs, Carries, Unwritten;
    Stays(k, ssa, v.reg, p, H, m, v.op + 1, end);
  }

  // What is fed back last in a stay: what the last header holds and a step.
  lemma LastFed(k: seq<Op>, ssa: RegisterSsa, f: Forest, l: LoopId, ct: Counter, v: Value, p: seq<BlockId>, H: History,
                end: nat, i: nat, m: nat, e: nat, x: nat, c: Amounts) returns (last: nat)
    requires l < |f.loops| && i <= e <= m < x <= |p| && IsPath(ssa.g, p[..x]) && Ssa.Valid(ssa)
    requires Steady(ssa, f, p[..x], H, i, ct.step, c) && Stayed(k, ssa, f, l, ct, v, p, H, end, m, e, x)
    requires FormOf(k, ssa) && ForestOf(ssa.g, f) && CounterFedBy(k, ssa, f, l, ct, v)
    ensures e <= last <= m && LastAt(p[..x], f.loops[l].header, last)
    ensures H(m, v.op + 1, v.reg) == HeaderHolds(ssa.g, H, f, l, last, v.reg) + StepValue(ssa, ct.step, ReadingOf(ssa, c), c)
  {
    hide *;
    FormValid(k, ssa);
    var q, z := p[..x], EndOf(ssa.g, p, end, x);
    HeaderHas(ssa.g, f, l);
    SinceFacts(k, ssa, f, l, ct, v, p, H, end, m, e, x);
    last := StayLast(k, ssa, f, l, ct, v, p, H, end, m, e, x);
    var s := FedFacts(k, ssa, f, l, ct, v);
    SameStep(ssa, f, q, H, i, last, s, ct.step, c);
    FedSees(k, ssa, ct.phi, v, q, H, z, m, last);
    MovedTo(k, ssa, f, ct.phi, v, s, q, H, z, last, ReadingOf(ssa, c), c);
    SinceStays(k, ssa, v, q, H, z, m);
    HeaderHoldsIs(ssa.g, H, f, l, last, v.reg);
  }

  lemma FedSees(k: seq<Op>, ssa: RegisterSsa, phi: Value, v: Value, p: seq<BlockId>, H: History, end: nat, m: nat,
                i: nat)
    requires Ssa.Valid(ssa) && RunOf(k, ssa.g, p, H) && Point(ssa.g, p, end) && Since(ssa, v, p, end, m)
    requires phi.Argument? && LastAt(p, phi.block, i)
    ensures Sees(k, ssa, phi, v, p, H, end)
  {
    hide Ssa.Valid, RunOf, Point, Since;
  }

  lemma HeaderHoldsIs(g: Cfg, H: History, f: Forest, l: LoopId, i: nat, reg: Register)
    requires l < |f.loops| && g.Has(f.loops[l].header)
    ensures HeaderHolds(g, H, f, l, i, reg) == H(i, StartOf(g, f.loops[l].header), reg)
  {
  }

  // What is fed back last in a stay: the start and a step for each of its trips.
  lemma ExitEnds(k: seq<Op>, ssa: RegisterSsa, f: Forest, l: LoopId, ct: Counter, v: Value, p: seq<BlockId>, H: History,
                 end: nat, i: nat, m: nat, e: nat, x: nat, c: Amounts)
    requires FormOf(k, ssa) && ForestOf(ssa.g, f) && CounterFedBy(k, ssa, f, l, ct, v)
    requires Stayed(k, ssa, f, l, ct, v, p, H, end, m, e, x) && i < e && ExitSteady(ssa, f, p, H, i, (l, ct.step), c)
    requires Stay(ssa.g, f.loops[l].header, p, x) == Times(p, f.loops[l].header, x) - Times(p, f.loops[l].header, e)
    ensures H(m, v.op + 1, v.reg) == HeaderHolds(ssa.g, H, f, l, e, v.reg) +
            c.trips(l) * StepValue(ssa, ct.step, ReadingOf(ssa, c), c)
  {
    hide *;
    FormValid(k, ssa);
    StayFacts(k, ssa, f, l, ct, v, p, H, end, i, m, e, x, c);
    StaySteady(k, ssa, f, l, ct, p, H, i, x, c);
    var last := LastFed(k, ssa, f, l, ct, v, p, H, end, i, m, e, x, c);
    StayCounted(k, ssa, f, l, ct, v, p, H, end, m, e, x, i, last, c);
    LapCount(ssa.g, f.loops[l].header, p, i, e, last, x, c.trips(l));
    Distributes(StepValue(ssa, ct.step, ReadingOf(ssa, c), c), c.trips(l) - 1, 1);
  }

  lemma StayFacts(k: seq<Op>, ssa: RegisterSsa, f: Forest, l: LoopId, ct: Counter, v: Value, p: seq<BlockId>,
                  H: History,
                  end: nat, i: nat, m: nat, e: nat, x: nat, c: Amounts)
    requires FormOf(k, ssa) && ForestOf(ssa.g, f) && CounterFedBy(k, ssa, f, l, ct, v)
    requires Stayed(k, ssa, f, l, ct, v, p, H, end, m, e, x) && ExitSteady(ssa, f, p, H, i, (l, ct.step), c)
    ensures l < |f.loops| && IsPath(ssa.g, p) && e <= m < x <= |p| && RunOf(k, ssa.g, p, H) && CounterIs(k, ssa, f, l, ct.phi.reg, ct)
    ensures v.Result? && Leaves(ssa.g, f.loops[l].header, p, x - 1) && Laps(ssa.g, f.loops[l].header, p, i, c.trips(l))
  {
    hide Ssa.Valid, ForestOf, CounterIs, Fed, Since, StaysFrom, Leaves, Laps, Steady, Runs, Carries;
  }

  // What the last header of a stay holds.
  lemma StayCounted(k: seq<Op>, ssa: RegisterSsa, f: Forest, l: LoopId, ct: Counter, v: Value, p: seq<BlockId>,
                    H: History, end: nat, m: nat, e: nat, x: nat, i: nat, last: nat, c: Amounts)
    requires FormOf(k, ssa) && ForestOf(ssa.g, f) && CounterFedBy(k, ssa, f, l, ct, v)
    requires Stayed(k, ssa, f, l, ct, v, p, H, end, m, e, x) && i <= e <= last < x && IsPath(ssa.g, p[..x])
    requires Steady(ssa, f, p[..x], H, i, ct.step, c) && LastAt(p[..x], f.loops[l].header, last)
    ensures var q := p[..x];
      HeaderHolds(ssa.g, H, f, l, last, v.reg) == HeaderHolds(ssa.g, H, f, l, e, v.reg) +
        (Times(q, f.loops[l].header, last + 1) - Times(q, f.loops[l].header, e) - 1) *
        StepValue(ssa, ct.step, ReadingOf(ssa, c), c)
  {
    hide Ssa.Valid, InBody, ForestOf, Steady, Runs, Carries, StepValue, ReadingOf, CounterIs, Since, Leaves, Times;
    FormValid(k, ssa);
    HeaderHas(ssa.g, f, l);
    var q := p[..x];
    var s := FedFacts(k, ssa, f, l, ct, v);
    RunPrefix(k, ssa.g, p, H, x);
    SteadyLater(ssa, f, q, H, i, e, ct.step, c);
    forall t | e <= t <= last ensures InBody(ssa.g, f.loops[l].header, q[t]) {
      assert q[t] == p[t];
    }
    CounterHolds(k, ssa, f, l, v.reg, ct, q, H, e, last, c);
  }

  // A nested loop's steps are steady up to where a stay in it ends.
  lemma StaySteady(k: seq<Op>, ssa: RegisterSsa, f: Forest, l: LoopId, ct: Counter, p: seq<BlockId>, H: History, i: nat,
                   x: nat, c: Amounts)
    requires FormOf(k, ssa) && ForestOf(ssa.g, f) && l < |f.loops| && CounterIs(k, ssa, f, l, ct.phi.reg, ct)
    requires RunOf(k, ssa.g, p, H) && 0 < x <= |p| && Leaves(ssa.g, f.loops[l].header, p, x - 1)
    requires ExitSteady(ssa, f, p, H, i, (l, ct.step), c)
    ensures IsPath(ssa.g, p[..x]) && Steady(ssa, f, p[..x], H, i, ct.step, c)
  {
    hide Ssa.Valid, ForestOf, CounterIs, InBody, Steady, NestedIn, Laps, Runs, Carries, EndsApart;
    FormValid(k, ssa);
    Prefix(ssa.g, p, x);
    CounterNested(k, ssa, f, l, ct.phi.reg, ct);
    TripEndsApart(ssa.g, f, l, p, x);
    SteadyPrefix(ssa, f, l, p, H, i, ct.step, c, x);
  }

  // The trips of a stay are the laps it makes.
  lemma LapCount(g: Cfg, h: BlockId, p: seq<BlockId>, i: nat, e: nat, last: nat, x: nat, n: int)
    requires i < e <= last < x <= |p| && Laps(g, h, p, i, n) && Leaves(g, h, p, x - 1) && LastAt(p[..x], h, last)
    requires Stay(g, h, p, x) == Times(p, h, x) - Times(p, h, e)
    ensures Times(p[..x], h, last + 1) - Times(p[..x], h, e) == n
  {
    hide Stay, Leaves, Times;
    var t: nat := x - 1;
    assert Stay(g, h, p, t + 1) == n;
    TimesPrefix(p, h, x, last + 1);
    TimesPrefix(p, h, x, e);
    forall t | last < t < x ensures p[t] != h {
      assert p[..x][t] == p[t];
    }
    assert p[..x][last] == p[last];
    TimesBetween(p, h, last, x);
  }

  ghost function HeaderHolds(g: Cfg, H: History, f: Forest, l: LoopId, i: nat, reg: Register): int {
    if l < |f.loops| && g.Has(f.loops[l].header) then H(i, g.blocks[f.loops[l].header].start, reg) else 0
  }

  // What a nested loop's counter starts from, where the outer loop's trip enters it.
  lemma ExitStarts(k: seq<Op>, ssa: RegisterSsa, f: Forest, l: LoopId, phi: Value, s: Step, cl: LoopId, ct: Counter,
                   p: seq<BlockId>, H: History, i: nat, e: nat, rd: Reading, c: Amounts)
    requires FormOf(k, ssa) && LoopOf(ssa, f, l, phi) && ChildOf(f, l, cl) && cl < |f.loops|
    requires CounterIs(k, ssa, f, cl, ct.phi.reg, ct) && !ct.start.Undef? && Moves(k, ssa, f, phi, ct.start, s)
    requires RunOf(k, ssa.g, p, H) && LastAt(p, phi.block, i) && i < e < |p| && p[e] == f.loops[cl].header
    requires !InBody(ssa.g, f.loops[cl].header, p[e - 1]) && NestedIn(f, l, s) && Calm(ssa, f, p, H, i, s, rd, c)
    ensures HeaderHolds(ssa.g, H, f, cl, e, ct.phi.reg) ==
            H(i, ssa.g.blocks[phi.block].start, phi.reg) + StepValue(ssa, s, rd, c)
  {
    hide Ssa.Valid, SeenAt, Moves, InBody, ForestOf, Dominates, MadeIn, NestedIn, Runs, StepValue, Calm, EndsApart, Sees,
      FedBy;
    FormValid(k, ssa);
    var h, q, reg, from := f.loops[cl].header, p[..e], ct.phi.reg, Some(p[e - 1]);
    RunPrefix(k, ssa.g, p, H, e);
    assert q[e - 1] == p[e - 1] && q[i] == p[i];
    assert Connects(ssa.g, ENTRY, p[e - 1], q);
    assert ssa.g.Edge(p[e - 1], p[e - 1 + 1]);
    assert IncomingEdge(ssa, h, from);
    assert EdgeFits(k, ssa, f, h, reg, ct, from);
    LaidBlock(ssa, p[e - 1]);
    var z := ssa.g.blocks[p[e - 1]].end;
    SeenSees(k, ssa, phi, reg, q, H, z);
    LastIndexIs(q, phi.block, i);
    EntryEndsApart(ssa.g, f, l, cl, p, e);
    CalmPrefix(ssa, f, l, p, H, i, s, rd, c, e);
    assert MovesBy(k, ssa, f, phi, ct.start, s, q, H, z, rd, c) by {
      MovesOne(k, ssa, f, phi, ct.start, s, q, H, z, rd, c);
    }
    assert Carries(ssa.g, p, H, e - 1, reg);
  }

  lemma EntryEndsApart(g: Cfg, f: Forest, l: LoopId, cl: LoopId, p: seq<BlockId>, e: nat)
    requires ForestOf(g, f) && ChildOf(f, l, cl) && 0 < e < |p| && p[e] == f.loops[cl].header
    requires !InBody(g, f.loops[cl].header, p[e - 1])
    ensures EndsApart(f, l, p, e)
  {
    hide ForestOf, InBody;
    BodyIsBlocks(g, f, cl, p[e - 1]);
    EntryUnshared(g, f, l, cl, p[e - 1]);
  }

  // A step and the exit of a nested loop after it.
  function Through(s: Step, l: LoopId, step: Step): Step {
    Step(s.constant, s.registers, s.exits + [(l, step)])
  }

  lemma ThroughParts(ssa: RegisterSsa, f: Forest, p: seq<BlockId>, H: History, i: nat, s: Step, l: LoopId, step: Step,
                     rd: Reading, c: Amounts)
    requires Ssa.Valid(ssa) && IsPath(ssa.g, p) && Calm(ssa, f, p, H, i, Through(s, l, step), rd, c)
    ensures Calm(ssa, f, p, H, i, s, rd, c) && ExitSteady(ssa, f, p, H, i, (l, step), c)
  {
    hide Ssa.Valid, ExitSteady;
    CalmPart(ssa, f, p, H, i, Through(s, l, step), s, rd, c);
    assert Through(s, l, step).exits[|s.exits|] == (l, step);
  }

  lemma ThroughValue(ssa: RegisterSsa, s: Step, l: LoopId, step: Step, rd: Reading, c: Amounts)
    requires Ssa.Valid(ssa)
    ensures StepValue(ssa, Through(s, l, step), rd, c) ==
            StepValue(ssa, s, rd, c) + c.trips(l) * StepValue(ssa, step, ReadingOf(ssa, c), c)
  {
    hide Ssa.Valid, ReadingOf, ExitSum;
    ExitSumNext(ssa, s.exits, (l, step), c);
  }

  lemma RunsThrough(k: seq<Op>, ssa: RegisterSsa, f: Forest, l: LoopId, phi: Value, v: Value, s: Step, cl: LoopId,
                    ct: Counter, p: seq<BlockId>, H: History, end: nat, rd: Reading, c: Amounts)
    requires FormOf(k, ssa) && LoopOf(ssa, f, l, phi) && ChildOf(f, l, cl) && CounterFedBy(k, ssa, f, cl, ct, v)
    requires v.Result? && !ct.start.Undef? && Moves(k, ssa, f, phi, ct.start, s) && NestedIn(f, l, s)
    requires Sees(k, ssa, phi, v, p, H, end)
    ensures MovesBy(k, ssa, f, phi, v, Through(s, cl, ct.step), p, H, end, rd, c)
  {
    hide Ssa.Valid, SeenAt, Moves, InBody, ForestOf, Dominates, MadeIn, NestedIn, Runs, Carries, StepValue, Calm, Same,
      Unwritten, CounterIs, Fed, Stay, Times, StaysFrom, Leaves, ExitSteady, Through, Laps;
    FormValid(k, ssa);
    var i, h := LastIndex(p, phi.block), f.loops[cl].header;
    if Calm(ssa, f, p, H, i, Through(s, cl, ct.step), rd, c) {
      var m: nat :| Since(ssa, v, p, end, m);
      var s' := FedFacts(k, ssa, f, cl, ct, v);
      MadeAt(ssa, f, l, cl, v, p[m]);
      SinceHeader(ssa.g, phi.block, p, m, i);
      var e, x := StayAround(ssa.g, h, p, i, m);
      ThroughParts(ssa, f, p, H, i, s, cl, ct.step, rd, c);
      ExitEnds(k, ssa, f, cl, ct, v, p, H, end, i, m, e, x, c);
      StayEntered(ssa.g, h, p, e, x - 1);
      ExitStarts(k, ssa, f, l, phi, s, cl, ct, p, H, i, e, rd, c);
      Stays(k, ssa, v.reg, p, H, m, v.op + 1, end);
      ThroughValue(ssa, s, cl, ct.step, rd, c);
    }
  }

  lemma StayEntered(g: Cfg, h: BlockId, p: seq<BlockId>, e: nat, t: nat)
    requires StaysFrom(g, h, p, e, t) && e > 0
    ensures e < |p| && p[e] == h && !InBody(g, h, p[e - 1])
  {
    hide InBody;
  }

  lemma MadeHere(ssa: RegisterSsa, h: BlockId, v: Value, b: BlockId)
    requires Ssa.Valid(ssa) && MadeIn(ssa.g, h, v) && v.Result? && ssa.g.Has(b) && Holds(ssa.g.blocks[b], v.op)
    ensures InBody(ssa.g, h, b)
  {
    hide Ssa.Valid, InBody;
    var a: nat :| a < |ssa.g.blocks| && Holds(ssa.g.blocks[a], v.op) && InBody(ssa.g, h, a);
    OneBlock(ssa, a, b, v.op);
  }

  // Where a nested loop's counter is written, and the outer header: in the nested loop, and not.
  lemma MadeAt(ssa: RegisterSsa, f: Forest, l: LoopId, cl: LoopId, v: Value, b: BlockId)
    requires cl < |f.loops| && l < |f.loops| && v.Result? && MadeIn(ssa.g, f.loops[cl].header, v)
    requires ssa.g.Has(b) && Holds(ssa.g.blocks[b], v.op)
    requires Ssa.Valid(ssa) && ForestOf(ssa.g, f) && ChildOf(f, l, cl)
    ensures InBody(ssa.g, f.loops[cl].header, b) && InBody(ssa.g, f.loops[l].header, b)
    ensures !InBody(ssa.g, f.loops[cl].header, f.loops[l].header)
  {
    hide *;
    MadeHere(ssa, f.loops[cl].header, v, b);
    InOuter(ssa.g, f, l, cl, b);
    ChildInside(ssa.g, f, l, cl);
    BodyIsBlocks(ssa.g, f, cl, f.loops[l].header);
  }

  lemma InOuter(g: Cfg, f: Forest, l: LoopId, cl: LoopId, b: BlockId)
    requires ForestOf(g, f) && ChildOf(f, l, cl) && InBody(g, f.loops[cl].header, b)
    ensures l < |f.loops| && InBody(g, f.loops[l].header, b)
  {
    hide ForestOf, InBody;
    ChildInside(g, f, l, cl);
    BodyIsBlocks(g, f, cl, b);
    BodyIsBlocks(g, f, l, b);
  }

  /**
   * A loop's counter takes the outer one's value at its start to the same plus its own step once a trip, at its exit.
   */
  lemma ExitMoves(k: seq<Op>, ssa: RegisterSsa, f: Forest, l: LoopId, phi: Value, v: Value, s: Step, cl: LoopId,
                  ct: Counter)
    requires FormOf(k, ssa) && LoopOf(ssa, f, l, phi) && ChildOf(f, l, cl) && CounterFedBy(k, ssa, f, cl, ct, v)
    requires v.Result? && !ct.start.Undef? && Moves(k, ssa, f, phi, ct.start, s) && NestedIn(f, l, s)
    ensures Moves(k, ssa, f, phi, v, Through(s, cl, ct.step))
  {
    hide Ssa.Valid, Moves, Sees, LoopOf, CounterFedBy, NestedIn, ChildOf, Through;
    forall p, H: History, end, rd: Reading, c: Amounts | Sees(k, ssa, phi, v, p, H, end)
      ensures MovesBy(k, ssa, f, phi, v, Through(s, cl, ct.step), p, H, end, rd, c)
    {
      RunsThrough(k, ssa, f, l, phi, v, s, cl, ct, p, H, end, rd, c);
    }
    AllMove(k, ssa, f, phi, v, Through(s, cl, ct.step));
  }
}
