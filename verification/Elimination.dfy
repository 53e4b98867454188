/** What a thread's run is, and that leaving out the statements flagged unused changes
    no branch and no effect of it. */
module Elimination {
  import opened Wrappers
  import opened Graphs
  import opened DepthFirst
  import opened Dominators
  import opened Frontiers
  import opened Ssa
  import opened SsaQueries
  import opened DeadCode

  /** The meaning of statements on the whole register file, over any state `W` of everything else: the registers one
      leaves, what it does to the world, what is seen of it, where a branch goes when it runs and when it does not,
      and which register values a guard takes as true. */
  datatype Machine<!W(!new)> = Machine(
    after: (nat, Register -> int, W) -> (Register -> int),
    next: (nat, Register -> int, W) -> W,
    shows: (nat, Register -> int, W) -> seq<int>,
    goes: (nat, Register -> int, W) -> nat,
    falls: nat -> nat,
    truth: int -> bool)

  /** An effect: what is seen of a statement that is not pure. */
  datatype Event = Event(stmt: nat, seen: seq<int>)

  ghost predicate MayChange(stmt: Stmt, r: Register) {
    match stmt
    case Instr(_, _, writes, _, _) => r in writes
    case Unparsed(registers) => r in registers || r == Cc
    case Label => false
  }

  ghost predicate SameOn(stmt: Stmt, x: Register -> int, y: Register -> int) {
    forall r :: DependsOn(stmt, r) ==> x(r) == y(r)
  }

  /** The machine does of each statement what the statement says it reads and writes. */
  ghost predicate Heeds<W(!new)>(m: Machine<W>, k: seq<Stmt>) {
    && (forall s: nat, x: Register -> int, w: W, r :: s < |k| && !MayChange(k[s], r) ==> m.after(s, x, w)(r) == x(r))
    && (forall s: nat, x: Register -> int, y: Register -> int, w: W :: s < |k| && SameOn(k[s], x, y) ==>
          DoesSame(m, k[s], s, x, y, w))
  }

  ghost predicate DoesSame<W(!new)>(m: Machine<W>, stmt: Stmt, s: nat, x: Register -> int, y: Register -> int, w: W) {
    && m.next(s, x, w) == m.next(s, y, w) && m.shows(s, x, w) == m.shows(s, y, w) && m.goes(s, x, w) == m.goes(s, y, w)
    && forall r :: MayChange(stmt, r) ==> m.after(s, x, w)(r) == m.after(s, y, w)(r)
  }

  datatype State<!W(!new)> = State(
    path: seq<BlockId>,
    at: nat,
    regs: Register -> int,
    world: W,
    way: nat,
    trace: seq<Event>,
    halted: bool)

  function GuardTrue<W(!new)>(m: Machine<W>, stmt: Stmt, regs: Register -> int): bool {
    match stmt
    case Instr(_, _, _, guard, _) =>
      guard.None? || m.truth(regs(guard.value.reg)) != guard.value.negated
    case _ => true
  }

  /** Statement `s` runs. */
  function RunStmt<W(!new)>(m: Machine<W>, k: seq<Stmt>, s: nat, st: State<W>): State<W>
    requires s < |k|
  {
    var pure := k[s].Instr? && k[s].pure;
    st.(at := st.at + 1,
        regs := m.after(s, st.regs, st.world),
        world := if pure then st.world else m.next(s, st.regs, st.world),
        way := if pure then st.way else m.goes(s, st.regs, st.world),
        trace := if pure then st.trace else st.trace + [Event(s, m.shows(s, st.regs, st.world))])
  }

  /** Statement `s` is passed over: a branch not taken falls through. */
  function SkipStmt<W(!new)>(m: Machine<W>, k: seq<Stmt>, s: nat, st: State<W>): State<W>
    requires s < |k|
  {
    st.(at := st.at + 1, way := if k[s].Instr? && !k[s].pure then m.falls(s) else st.way)
  }

  ghost predicate At<W(!new)>(k: seq<Stmt>, g: Cfg, st: State<W>) {
    && IsPath(g, st.path) && st.path[0] == ENTRY
    && g.blocks[st.path[|st.path| - 1]].start <= st.at <= g.blocks[st.path[|st.path| - 1]].end <= |k|
  }

  /** One step: the next statement, left out where `out` says so, or the next block. */
  ghost function Step<W(!new)>(m: Machine<W>, k: seq<Stmt>, g: Cfg, out: nat -> bool, st: State<W>): State<W>
    requires At(k, g, st)
  {
    var b := st.path[|st.path| - 1];
    if st.halted then st
    else if st.at < g.blocks[b].end then
      if k[st.at].Label? then st.(at := st.at + 1)
      else if !out(st.at) && GuardTrue(m, k[st.at], st.regs) then RunStmt(m, k, st.at, st)
      else SkipStmt(m, k, st.at, st)
    else if st.way < |g.blocks[b].succs| && g.Edge(b, g.blocks[b].succs[st.way]) then
      var c := g.blocks[b].succs[st.way];
      st.(path := st.path + [c], at := g.blocks[c].start, way := 0)
    else st.(halted := true)
  }

  ghost predicate Kernel(k: seq<Stmt>, g: Cfg) {
    && g.Valid() && g.Laid() && forall b: nat :: b < |g.blocks| ==> g.blocks[b].end <= |k|
  }

  lemma StepStays<W(!new)>(m: Machine<W>, k: seq<Stmt>, g: Cfg, out: nat -> bool, st: State<W>)
    requires Kernel(k, g) && At(k, g, st)
    ensures At(k, g, Step(m, k, g, out, st))
  {
    var after := Step(m, k, g, out, st);
    if after.path != st.path {
      PathExtend(g, ENTRY, st.path[|st.path| - 1], after.path[|after.path| - 1], st.path);
    }
  }

  /** The state after `n` steps. */
  ghost function Run<W(!new)>(m: Machine<W>, k: seq<Stmt>, g: Cfg, out: nat -> bool, st: State<W>,
                       n: nat): (r: State<W>)
    requires Kernel(k, g) && At(k, g, st)
    ensures At(k, g, r)
  {
    if n == 0 then st
    else
      var before := Run(m, k, g, out, st, n - 1);
      StepStays(m, k, g, out, before);
      Step(m, k, g, out, before)
  }

  ghost function Start<W(!new)>(g: Cfg, regs: Register -> int, world: W): State<W>
    requires g.Valid()
  {
    State([ENTRY], g.blocks[ENTRY].start, regs, world, 0, [], false)
  }

  /** The guard of every instruction the run reaches reads as the oracle says. */
  ghost predicate OracleRight<W(!new)>(m: Machine<W>, k: seq<Stmt>, g: Cfg, oracle: Oracle, st: State<W>)
    requires At(k, g, st)
  {
    var b := st.path[|st.path| - 1];
    !st.halted && st.at < g.blocks[b].end && k[st.at].Instr? && oracle(st.at).Some? ==>
      GuardTrue(m, k[st.at], st.regs) == oracle(st.at).value
  }

  /** Each unused statement left out, and each that never runs. */
  function LeftOut(k: seq<Stmt>, flags: seq<bool>, oracle: Oracle): nat -> bool {
    (s: nat) => s < |k| && k[s].Instr? && ((s < |flags| && flags[s]) || oracle(s) == Some(false))
  }

  /** Every definition a read of its guard may see is live. */
  ghost predicate GuardIsLive(k: seq<Stmt>, ssa: RegisterSsa, live: set<nat>, s: nat)
    requires Valid(ssa) && s < |k| && k[s].Instr?
  {
    k[s].guard.Some? ==> forall op: nat :: MaySee(ssa, s, k[s].guard.value.reg, op) ==> op in live
  }

  /** `out` leaves out every unused statement and nothing that may run else; a statement
      that never runs may stay where the definitions of its guard do. */
  ghost predicate Omits(k: seq<Stmt>, ssa: RegisterSsa, oracle: Oracle, flags: seq<bool>, live: set<nat>,
                        out: nat -> bool)
    requires Valid(ssa) && |flags| == |k|
  {
    forall s: nat :: s < |k| ==>
      (flags[s] ==> out(s)) &&
      (out(s) ==> k[s].Instr? && (flags[s] || oracle(s) == Some(false))) &&
      (k[s].Instr? && oracle(s) == Some(false) && !out(s) ==> GuardIsLive(k, ssa, live, s))
  }

  /** The same, but of those that never run only the pure ones that stay need their guards' definitions. */
  ghost predicate OmitsPure(k: seq<Stmt>, ssa: RegisterSsa, oracle: Oracle, flags: seq<bool>, live: set<nat>,
                            out: nat -> bool)
    requires Valid(ssa) && |flags| == |k|
  {
    forall s: nat :: s < |k| ==>
      (flags[s] ==> out(s)) &&
      (out(s) ==> k[s].Instr? && (flags[s] || oracle(s) == Some(false))) &&
      (k[s].Instr? && k[s].pure && oracle(s) == Some(false) && !out(s) ==> GuardIsLive(k, ssa, live, s))
  }

  lemma OmitsOmitsPure(k: seq<Stmt>, ssa: RegisterSsa, oracle: Oracle, flags: seq<bool>, live: set<nat>,
                       out: nat -> bool)
    requires Valid(ssa) && |flags| == |k| && Omits(k, ssa, oracle, flags, live, out)
    ensures OmitsPure(k, ssa, oracle, flags, live, out)
  {
    hide GuardIsLive;
  }

  lemma LeftOutOmits(k: seq<Stmt>, ssa: RegisterSsa, oracle: Oracle, flags: seq<bool>, live: set<nat>)
    requires Eliminates(k, ssa, oracle, flags, live)
    ensures Omits(k, ssa, oracle, flags, live, LeftOut(k, flags, oracle))
  {
  }

  // -- the two runs agree ----------------------------------------------------

  /** The two states differ at most in registers whose last write on the path is dead. */
  ghost predicate Agree<W(!new)>(k: seq<Stmt>, ssa: RegisterSsa, live: set<nat>, a: State<W>, b: State<W>)
    requires At(k, ssa.g, a)
  {
    && b == a.(regs := b.regs)
    && forall reg :: LiveNow(ssa, live, a.path, a.at, reg) ==> a.regs(reg) == b.regs(reg)
  }

  ghost predicate LiveNow(ssa: RegisterSsa, live: set<nat>, path: seq<BlockId>, at: nat, reg: Register)
    requires IsPath(ssa.g, path)
  {
    var w := LastWrite(ssa.g, ssa.writes, reg, path, at);
    w.Result? ==> w.op in live
  }

  lemma LastWriteNext(ssa: RegisterSsa, path: seq<BlockId>, at: nat, reg: Register)
    requires IsPath(ssa.g, path) && ssa.g.blocks[path[|path| - 1]].start <= at
    ensures LastWrite(ssa.g, ssa.writes, reg, path, at + 1) ==
            if at in WritesOf(ssa.writes, reg) then Result(at, reg)
            else LastWrite(ssa.g, ssa.writes, reg, path, at)
  {
  }

  lemma LastWriteEnters(ssa: RegisterSsa, path: seq<BlockId>, c: BlockId, reg: Register)
    requires IsPath(ssa.g, path) && ssa.g.Has(c) && IsPath(ssa.g, path + [c])
    ensures LastWrite(ssa.g, ssa.writes, reg, path + [c], ssa.g.blocks[c].start) ==
            LastWrite(ssa.g, ssa.writes, reg, path, ssa.g.blocks[path[|path| - 1]].end)
  {
    var p := path + [c];
    assert p[..|p| - 1] == path;
    assert p[|p| - 2] == path[|path| - 1];
  }

  /** A register whose definitions seen here are all live holds the same value in both runs. */
  lemma SeenAgree<W(!new)>(k: seq<Stmt>, ssa: RegisterSsa, live: set<nat>, a: State<W>, b: State<W>, reg: Register)
    requires Valid(ssa) && At(k, ssa.g, a) && Agree(k, ssa, live, a, b)
    requires a.at < ssa.g.blocks[a.path[|a.path| - 1]].end
    requires forall op: nat :: MaySee(ssa, a.at, reg, op) ==> op in live
    ensures a.regs(reg) == b.regs(reg)
  {
    hide MayBe, SeenAt, Valid;
    var c := a.path[|a.path| - 1];
    var w := LastWrite(ssa.g, ssa.writes, reg, a.path, a.at);
    assert Connects(ssa.g, ENTRY, c, a.path);
    SourcesAreReachingDefinitions(ssa, reg, c, a.at, w);
    if w.Result? {
      WrittenIsOf(ssa, reg, a.path, a.at);
      assert MaySee(ssa, a.at, reg, w.op);
    }
  }

  /** A register a live statement reads holds the same value in both runs. */
  lemma ReadsAgree<W(!new)>(k: seq<Stmt>, ssa: RegisterSsa, oracle: Oracle, live: set<nat>, a: State<W>, b: State<W>,
                     reg: Register)
    requires FormOf(k, ssa) && LiveClosed(k, ssa, oracle, live)
    requires At(k, ssa.g, a) && Agree(k, ssa, live, a, b)
    requires a.at < ssa.g.blocks[a.path[|a.path| - 1]].end && a.at in live
    requires reg in Reads(k[a.at], oracle(a.at))
    ensures a.regs(reg) == b.regs(reg)
  {
    hide Valid, MaySee, Agree;
    SeenAgree(k, ssa, live, a, b, reg);
  }

  lemma {:induction false} WrittenIsOf(ssa: RegisterSsa, reg: Register, p: seq<BlockId>, end: nat)
    requires IsPath(ssa.g, p)
    ensures LastWrite(ssa.g, ssa.writes, reg, p, end).reg == reg
    decreases |p|
  {
    if LastIn(WritesOf(ssa.writes, reg), ssa.g.blocks[p[|p| - 1]].start, end).None? && |p| > 1 {
      Prefix(ssa.g, p, |p| - 1);
      WrittenIsOf(ssa, reg, p[..|p| - 1], ssa.g.blocks[p[|p| - 2]].end);
    }
  }

  /** Two register files alike on what a statement's operation reads are alike on what it depends on. */
  lemma InputsHold(stmt: Stmt, x: Register -> int, y: Register -> int)
    requires forall r :: r in Inputs(stmt) ==> x(r) == y(r)
    ensures SameOn(stmt, x, y)
  {
  }

  lemma WritesHold(stmt: Stmt, r: Register)
    ensures r in Writes(stmt) <==> MayChange(stmt, r)
  {
  }

  function Everything(): nat -> bool {
    (s: nat) => false
  }

  /** Passing statement `s` keeps the runs in agreement when each register it writes
      either has the same value in both or is dead until written again. */
  lemma PassesStatement<W(!new)>(k: seq<Stmt>, ssa: RegisterSsa, live: set<nat>,
                                 a: State<W>, b: State<W>, a': State<W>, b': State<W>)
    requires FormOf(k, ssa) && At(k, ssa.g, a) && At(k, ssa.g, a') && Agree(k, ssa, live, a, b)
    requires a.at < ssa.g.blocks[a.path[|a.path| - 1]].end
    requires a'.path == a.path && a'.at == a.at + 1 && b' == a'.(regs := b'.regs)
    requires forall reg :: reg !in Writes(k[a.at]) ==> a'.regs(reg) == a.regs(reg) && b'.regs(reg) == b.regs(reg)
    requires a.at in live ==> forall reg :: reg in Writes(k[a.at]) ==> a'.regs(reg) == b'.regs(reg)
    ensures Agree(k, ssa, live, a', b')
  {
    hide Valid, LastWrite, IsPath;
    forall reg | LiveNow(ssa, live, a'.path, a'.at, reg)
      ensures a'.regs(reg) == b'.regs(reg)
    {
      LastWriteNext(ssa, a.path, a.at, reg);
      assert a.at in WritesOf(ssa.writes, reg) <==> WritesReg(k, a.at, reg);
    }
  }

  /** Both runs read the guard and the inputs of a live statement alike. */
  lemma InputsAgree<W(!new)>(m: Machine<W>, k: seq<Stmt>, ssa: RegisterSsa, oracle: Oracle, live: set<nat>,
                             a: State<W>, b: State<W>)
    requires FormOf(k, ssa) && LiveClosed(k, ssa, oracle, live)
    requires At(k, ssa.g, a) && Agree(k, ssa, live, a, b)
    requires a.at < ssa.g.blocks[a.path[|a.path| - 1]].end && a.at in live
    requires k[a.at].Instr? ==> oracle(a.at) != Some(false)
    ensures GuardTrue(m, k[a.at], a.regs) == GuardTrue(m, k[a.at], b.regs)
    ensures SameOn(k[a.at], a.regs, b.regs)
  {
    hide FormOf, LiveClosed, Agree, SameOn;
    forall reg | reg in Reads(k[a.at], oracle(a.at))
      ensures a.regs(reg) == b.regs(reg)
    {
      ReadsAgree(k, ssa, oracle, live, a, b, reg);
    }
    InputsHold(k[a.at], a.regs, b.regs);
  }

  /** One statement of the two runs. */
  lemma StatementAgrees<W(!new)>(m: Machine<W>, k: seq<Stmt>, ssa: RegisterSsa, oracle: Oracle, flags: seq<bool>,
                                 live: set<nat>, out: nat -> bool, a: State<W>, b: State<W>)
    requires Heeds(m, k) && Eliminates(k, ssa, oracle, flags, live) && OmitsPure(k, ssa, oracle, flags, live, out)
    requires Kernel(k, ssa.g) && At(k, ssa.g, a) && Agree(k, ssa, live, a, b)
    requires OracleRight(m, k, ssa.g, oracle, a) && !Leaks(m, k, oracle, out, b)
    requires !a.halted && a.at < ssa.g.blocks[a.path[|a.path| - 1]].end && !k[a.at].Label?
    ensures At(k, ssa.g, Step(m, k, ssa.g, Everything(), a))
    ensures Agree(k, ssa, live, Step(m, k, ssa.g, Everything(), a), Step(m, k, ssa.g, out, b))
  {
    hide FormOf, LiveClosed, LiveNow, IsPath, MaySee, Inputs, SameOn, Heeds;
    var s := a.at;
    StepStays(m, k, ssa.g, Everything(), a);
    StepIs(m, k, ssa.g, Everything(), a);
    StepIs(m, k, ssa.g, out, b);
    var a', b' := Step(m, k, ssa.g, Everything(), a), Step(m, k, ssa.g, out, b);
    hide Step;
    RunKeeps(m, k, a);
    RunKeeps(m, k, b);
    if s !in live {
      DeadIsPure(k, ssa, oracle, live, s);
    }
    if k[s].Instr? && oracle(s) == Some(false) {
      NeverRuns(m, k, ssa, oracle, flags, live, out, a, b);
    } else if s in live {
      LiveStatement(m, k, ssa, oracle, flags, live, out, a, b, a', b');
    }
    PassesStatement(k, ssa, live, a, b, a', b');
  }

  /** A statement that never runs is passed over in both runs, and where it is live the
      values it keeps agree. */
  lemma NeverRuns<W(!new)>(m: Machine<W>, k: seq<Stmt>, ssa: RegisterSsa, oracle: Oracle, flags: seq<bool>,
                           live: set<nat>, out: nat -> bool, a: State<W>, b: State<W>)
    requires Eliminates(k, ssa, oracle, flags, live) && OmitsPure(k, ssa, oracle, flags, live, out)
    requires At(k, ssa.g, a) && Agree(k, ssa, live, a, b) && OracleRight(m, k, ssa.g, oracle, a)
    requires !a.halted && a.at < ssa.g.blocks[a.path[|a.path| - 1]].end && !Leaks(m, k, oracle, out, b)
    requires k[a.at].Instr? && oracle(a.at) == Some(false)
    ensures !Runs(m, k, Everything(), a) && !Runs(m, k, out, b)
    ensures a.at in live ==> forall reg :: reg in Writes(k[a.at]) ==> a.regs(reg) == b.regs(reg)
  {
    hide FormOf, LiveClosed, LiveNow, IsPath, MaySee;
    var s := a.at;
    FormIsValid(k, ssa);
    if !out(s) && k[s].pure {
      SeenAgree(k, ssa, live, a, b, k[s].guard.value.reg);
    }
    if s in live {
      forall reg | reg in Writes(k[s])
        ensures a.regs(reg) == b.regs(reg)
      {
        ReadsAgree(k, ssa, oracle, live, a, b, reg);
      }
    }
  }

  lemma DeadIsPure(k: seq<Stmt>, ssa: RegisterSsa, oracle: Oracle, live: set<nat>, s: nat)
    requires FormOf(k, ssa) && LiveClosed(k, ssa, oracle, live) && s < |k| && s !in live
    ensures !Root(k[s], oracle(s))
  {
  }

  /** A statement with an effect that never runs is about to. */
  ghost predicate Leaks<W(!new)>(m: Machine<W>, k: seq<Stmt>, oracle: Oracle, out: nat -> bool, st: State<W>) {
    !st.halted && st.at < |k| && k[st.at].Instr? && !k[st.at].pure && oracle(st.at) == Some(false) && Runs(m, k, out, st)
  }

  /** Whether the step at a statement runs it. */
  ghost predicate Runs<W(!new)>(m: Machine<W>, k: seq<Stmt>, out: nat -> bool, st: State<W>)
    requires st.at < |k|
  {
    !out(st.at) && GuardTrue(m, k[st.at], st.regs)
  }

  lemma StepIs<W(!new)>(m: Machine<W>, k: seq<Stmt>, g: Cfg, out: nat -> bool, st: State<W>)
    requires At(k, g, st) && !st.halted && st.at < g.blocks[st.path[|st.path| - 1]].end && !k[st.at].Label?
    ensures Step(m, k, g, out, st) ==
            if Runs(m, k, out, st) then RunStmt(m, k, st.at, st) else SkipStmt(m, k, st.at, st)
  {
    hide IsPath;
  }

  /** A statement run on the same inputs does the same in both runs. */
  lemma RunsAlike<W(!new)>(m: Machine<W>, k: seq<Stmt>, a: State<W>, b: State<W>)
    requires a.at < |k| && b == a.(regs := b.regs) && Heeds(m, k) && SameOn(k[a.at], a.regs, b.regs)
    ensures var a', b' := RunStmt(m, k, a.at, a), RunStmt(m, k, b.at, b);
            b' == a'.(regs := b'.regs) && forall reg :: reg in Writes(k[a.at]) ==> a'.regs(reg) == b'.regs(reg)
  {
    hide SameOn;
    assert DoesSame(m, k[a.at], a.at, a.regs, b.regs, a.world);
    forall reg | reg in Writes(k[a.at]) ensures MayChange(k[a.at], reg) {
      WritesHold(k[a.at], reg);
    }
  }

  lemma RunKeeps<W(!new)>(m: Machine<W>, k: seq<Stmt>, st: State<W>)
    requires st.at < |k| && Heeds(m, k)
    ensures forall reg :: reg !in Writes(k[st.at]) ==> RunStmt(m, k, st.at, st).regs(reg) == st.regs(reg)
  {
    hide SameOn, DoesSame;
    forall reg | reg !in Writes(k[st.at]) ensures RunStmt(m, k, st.at, st).regs(reg) == st.regs(reg) {
      WritesHold(k[st.at], reg);
    }
  }

  lemma LiveStatement<W(!new)>(m: Machine<W>, k: seq<Stmt>, ssa: RegisterSsa, oracle: Oracle, flags: seq<bool>,
                               live: set<nat>, out: nat -> bool, a: State<W>, b: State<W>, a': State<W>, b': State<W>)
    requires Heeds(m, k) && Eliminates(k, ssa, oracle, flags, live) && OmitsPure(k, ssa, oracle, flags, live, out)
    requires At(k, ssa.g, a) && Agree(k, ssa, live, a, b) && OracleRight(m, k, ssa.g, oracle, a)
    requires !a.halted && a.at < ssa.g.blocks[a.path[|a.path| - 1]].end && !k[a.at].Label? && a.at in live
    requires k[a.at].Instr? ==> oracle(a.at) != Some(false)
    requires a' == if Runs(m, k, Everything(), a) then RunStmt(m, k, a.at, a) else SkipStmt(m, k, a.at, a)
    requires b' == if Runs(m, k, out, b) then RunStmt(m, k, b.at, b) else SkipStmt(m, k, b.at, b)
    ensures b' == a'.(regs := b'.regs)
    ensures forall reg :: reg in Writes(k[a.at]) ==> a'.regs(reg) == b'.regs(reg)
  {
    hide FormOf, LiveClosed, LiveNow, IsPath, Inputs, RunStmt, SameOn, Heeds, MaySee;
    var s := a.at;
    InputsAgree(m, k, ssa, oracle, live, a, b);
    if Runs(m, k, Everything(), a) {
      RunsAlike(m, k, a, b);
    } else {
      forall reg | reg in Writes(k[s])
        ensures a.regs(reg) == b.regs(reg)
      {
        ReadsAgree(k, ssa, oracle, live, a, b, reg);
      }
    }
  }

  lemma StepAgrees<W(!new)>(m: Machine<W>, k: seq<Stmt>, ssa: RegisterSsa, oracle: Oracle, flags: seq<bool>,
                            live: set<nat>, out: nat -> bool, a: State<W>, b: State<W>)
    requires Heeds(m, k) && Eliminates(k, ssa, oracle, flags, live) && OmitsPure(k, ssa, oracle, flags, live, out)
    requires Kernel(k, ssa.g) && At(k, ssa.g, a) && Agree(k, ssa, live, a, b)
    requires OracleRight(m, k, ssa.g, oracle, a)
    requires a.at < ssa.g.blocks[a.path[|a.path| - 1]].end ==> !Leaks(m, k, oracle, out, b)
    ensures At(k, ssa.g, Step(m, k, ssa.g, Everything(), a))
    ensures Agree(k, ssa, live, Step(m, k, ssa.g, Everything(), a), Step(m, k, ssa.g, out, b))
  {
    hide FormOf, LiveClosed, LiveNow, LastWrite;
    StepStays(m, k, ssa.g, Everything(), a);
    var c := a.path[|a.path| - 1];
    if a.halted {
    } else if a.at < ssa.g.blocks[c].end {
      if k[a.at].Label? {
        PassesLabel(k, ssa, live, a, b);
      } else {
        StatementAgrees(m, k, ssa, oracle, flags, live, out, a, b);
      }
    } else {
      var a' := Step(m, k, ssa.g, Everything(), a);
      if !a'.halted {
        EntersBlock(k, ssa, live, a, b, a');
      }
    }
  }

  lemma PassesLabel<W(!new)>(k: seq<Stmt>, ssa: RegisterSsa, live: set<nat>, a: State<W>, b: State<W>)
    requires FormOf(k, ssa) && At(k, ssa.g, a) && Agree(k, ssa, live, a, b)
    requires a.at < ssa.g.blocks[a.path[|a.path| - 1]].end && k[a.at].Label?
    ensures Agree(k, ssa, live, a.(at := a.at + 1), b.(at := b.at + 1))
  {
    PassesStatement(k, ssa, live, a, b, a.(at := a.at + 1), b.(at := b.at + 1));
  }

  lemma EntersBlock<W(!new)>(k: seq<Stmt>, ssa: RegisterSsa, live: set<nat>, a: State<W>, b: State<W>, a': State<W>)
    requires At(k, ssa.g, a) && At(k, ssa.g, a') && Agree(k, ssa, live, a, b)
    requires a.at == ssa.g.blocks[a.path[|a.path| - 1]].end
    requires exists c: nat :: ssa.g.Has(c) && a' == a.(path := a.path + [c], at := ssa.g.blocks[c].start, way := 0)
    ensures Agree(k, ssa, live, a', b.(path := a'.path, at := a'.at, way := 0))
  {
    var c: nat :| ssa.g.Has(c) && a' == a.(path := a.path + [c], at := ssa.g.blocks[c].start, way := 0);
    hide LastWrite, IsPath;
    forall reg
      ensures LiveNow(ssa, live, a'.path, a'.at, reg) <==> LiveNow(ssa, live, a.path, a.at, reg)
    {
      LastWriteEnters(ssa, a.path, c, reg);
    }
  }

  /** At a statement of its block, one with an effect that never runs is about to. */
  ghost predicate LeaksIn<W(!new)>(m: Machine<W>, k: seq<Stmt>, g: Cfg, oracle: Oracle, out: nat -> bool, st: State<W>)
    requires At(k, g, st)
  {
    st.at < g.blocks[st.path[|st.path| - 1]].end && Leaks(m, k, oracle, out, st)
  }

  /** It leaves an effect the original run does not. */
  lemma LeakShows<W(!new)>(m: Machine<W>, k: seq<Stmt>, ssa: RegisterSsa, oracle: Oracle, live: set<nat>,
                           out: nat -> bool, a: State<W>, b: State<W>)
    requires At(k, ssa.g, a) && Agree(k, ssa, live, a, b) && OracleRight(m, k, ssa.g, oracle, a)
    requires LeaksIn(m, k, ssa.g, oracle, out, b)
    ensures Step(m, k, ssa.g, Everything(), a).trace != Step(m, k, ssa.g, out, b).trace
  {
    hide IsPath, LiveNow, Inputs, SameOn, Heeds;
    StepIs(m, k, ssa.g, Everything(), a);
    StepIs(m, k, ssa.g, out, b);
    hide Step;
  }

  /** A never-run statement whose guard's definitions are live does not. */
  lemma OmitsNeverLeaks<W(!new)>(m: Machine<W>, k: seq<Stmt>, ssa: RegisterSsa, oracle: Oracle, flags: seq<bool>,
                                 live: set<nat>, out: nat -> bool, a: State<W>, b: State<W>)
    requires Eliminates(k, ssa, oracle, flags, live) && Omits(k, ssa, oracle, flags, live, out)
    requires At(k, ssa.g, a) && Agree(k, ssa, live, a, b) && OracleRight(m, k, ssa.g, oracle, a)
    ensures !LeaksIn(m, k, ssa.g, oracle, out, b)
  {
    hide FormOf, LiveClosed, LiveNow, MaySee;
    if LeaksIn(m, k, ssa.g, oracle, out, b) {
      FormIsValid(k, ssa);
      if k[a.at].guard.Some? {
        SeenAgree(k, ssa, live, a, b, k[a.at].guard.value.reg);
      }
    }
  }

  /** Step by step, what the two runs are where the reduced one has not run what never runs. */
  lemma {:induction false} AgreeUntilLeak<W(!new)>(
      m: Machine<W>, k: seq<Stmt>, ssa: RegisterSsa, oracle: Oracle, flags: seq<bool>, live: set<nat>,
      out: nat -> bool, st: State<W>, n: nat)
    requires Heeds(m, k) && Eliminates(k, ssa, oracle, flags, live) && Kernel(k, ssa.g)
    requires OmitsPure(k, ssa, oracle, flags, live, out) && At(k, ssa.g, st)
    requires forall i: nat :: i < n ==> OracleRight(m, k, ssa.g, oracle, Run(m, k, ssa.g, Everything(), st, i))
    requires forall i: nat :: i < n ==> !LeaksIn(m, k, ssa.g, oracle, out, Run(m, k, ssa.g, out, st, i))
    ensures Agree(k, ssa, live, Run(m, k, ssa.g, Everything(), st, n), Run(m, k, ssa.g, out, st, n))
  {
    hide Eliminates, LiveNow, Step, OracleRight, Leaks, OmitsPure, Kernel;
    if n > 0 {
      AgreeUntilLeak(m, k, ssa, oracle, flags, live, out, st, n - 1);
      StepAgrees(m, k, ssa, oracle, flags, live, out,
                 Run(m, k, ssa.g, Everything(), st, n - 1), Run(m, k, ssa.g, out, st, n - 1));
    }
  }

  /** Both runs leave the same effects at every step up to the `n`th. */
  ghost predicate SameEffects<W(!new)>(m: Machine<W>, k: seq<Stmt>, g: Cfg, out: nat -> bool, st: State<W>, n: nat)
    requires Kernel(k, g) && At(k, g, st)
  {
    forall j: nat :: j <= n ==> Run(m, k, g, Everything(), st, j).trace == Run(m, k, g, out, st, j).trace
  }

  /** The run without the unused statements comes to none with an effect that never runs and reads its guard as true. */
  ghost predicate NeverLeaks<W(!new)>(m: Machine<W>, k: seq<Stmt>, g: Cfg, oracle: Oracle, out: nat -> bool,
                                      st: State<W>, n: nat)
    requires Kernel(k, g) && At(k, g, st)
  {
    forall i: nat :: i < n ==> !LeaksIn(m, k, g, oracle, out, Run(m, k, g, out, st, i))
  }

  lemma {:induction false} FirstLeak<W(!new)>(
      m: Machine<W>, k: seq<Stmt>, ssa: RegisterSsa, oracle: Oracle, flags: seq<bool>, live: set<nat>,
      out: nat -> bool, st: State<W>, n: nat)
    requires Heeds(m, k) && Eliminates(k, ssa, oracle, flags, live) && Kernel(k, ssa.g)
    requires OmitsPure(k, ssa, oracle, flags, live, out) && At(k, ssa.g, st)
    requires forall i: nat :: i < n ==> OracleRight(m, k, ssa.g, oracle, Run(m, k, ssa.g, Everything(), st, i))
    requires !NeverLeaks(m, k, ssa.g, oracle, out, st, n)
    ensures !SameEffects(m, k, ssa.g, out, st, n)
  {
    hide Eliminates, Agree, Step, OracleRight, LeaksIn, OmitsPure, Kernel;
    if NeverLeaks(m, k, ssa.g, oracle, out, st, n - 1) {
      var a, b := Run(m, k, ssa.g, Everything(), st, n - 1), Run(m, k, ssa.g, out, st, n - 1);
      AgreeUntilLeak(m, k, ssa, oracle, flags, live, out, st, n - 1);
      LeakShows(m, k, ssa, oracle, live, out, a, b);
      assert Run(m, k, ssa.g, Everything(), st, n).trace != Run(m, k, ssa.g, out, st, n).trace;
    } else {
      FirstLeak(m, k, ssa, oracle, flags, live, out, st, n - 1);
    }
  }

  /**
   * Where only the unused statements and the pure ones that never run are sure to be left out: the effects are the
   * original's at every step exactly where the reduced run never reads as true the guard of a statement with an effect
   * that never runs.
   */
  lemma SameEffectsWhere<W(!new)>(
      m: Machine<W>, k: seq<Stmt>, ssa: RegisterSsa, oracle: Oracle, flags: seq<bool>, live: set<nat>,
      out: nat -> bool, st: State<W>, n: nat)
    requires Heeds(m, k) && Eliminates(k, ssa, oracle, flags, live) && Kernel(k, ssa.g)
    requires OmitsPure(k, ssa, oracle, flags, live, out) && At(k, ssa.g, st)
    requires forall i: nat :: i < n ==> OracleRight(m, k, ssa.g, oracle, Run(m, k, ssa.g, Everything(), st, i))
    ensures SameEffects(m, k, ssa.g, out, st, n) <==> NeverLeaks(m, k, ssa.g, oracle, out, st, n)
  {
    hide Eliminates, LiveNow, Run, OracleRight, LeaksIn, OmitsPure, Kernel;
    if NeverLeaks(m, k, ssa.g, oracle, out, st, n) {
      forall j: nat | j <= n
        ensures Run(m, k, ssa.g, Everything(), st, j).trace == Run(m, k, ssa.g, out, st, j).trace
      {
        AgreeUntilLeak(m, k, ssa, oracle, flags, live, out, st, j);
      }
    } else {
      FirstLeak(m, k, ssa, oracle, flags, live, out, st, n);
    }
  }

  /** Dead-code elimination preserves meaning: from one start, the run without the
      unused statements is at every step where the original is, having branched alike
      and left the same effects in the same order. */
  lemma EliminationPreservesRuns<W(!new)>(
      m: Machine<W>, k: seq<Stmt>, ssa: RegisterSsa, oracle: Oracle, flags: seq<bool>, live: set<nat>,
      out: nat -> bool, regs: Register -> int, world: W, n: nat)
    requires Heeds(m, k) && Eliminates(k, ssa, oracle, flags, live) && Kernel(k, ssa.g)
    requires Omits(k, ssa, oracle, flags, live, out)
    requires At(k, ssa.g, Start(ssa.g, regs, world))
    requires forall i: nat :: i < n ==>
               OracleRight(m, k, ssa.g, oracle, Run(m, k, ssa.g, Everything(), Start(ssa.g, regs, world), i))
    ensures var a := Run(m, k, ssa.g, Everything(), Start(ssa.g, regs, world), n);
            var b := Run(m, k, ssa.g, out, Start(ssa.g, regs, world), n);
            Agree(k, ssa, live, a, b) &&
            a.path == b.path && a.at == b.at && a.halted == b.halted && a.world == b.world && a.trace == b.trace
  {
    hide *;
    KernelGraph(k, ssa.g);
    OmitsAgree(m, k, ssa, oracle, flags, live, out, Start(ssa.g, regs, world), n);
    AgreeIs(k, ssa, live, Run(m, k, ssa.g, Everything(), Start(ssa.g, regs, world), n),
            Run(m, k, ssa.g, out, Start(ssa.g, regs, world), n));
  }

  lemma KernelGraph(k: seq<Stmt>, g: Cfg)
    requires Kernel(k, g)
    ensures g.Valid()
  {
  }

  lemma AgreeIs<W(!new)>(k: seq<Stmt>, ssa: RegisterSsa, live: set<nat>, a: State<W>, b: State<W>)
    requires At(k, ssa.g, a) && Agree(k, ssa, live, a, b)
    ensures a.path == b.path && a.at == b.at && a.halted == b.halted && a.world == b.world && a.trace == b.trace
  {
    hide LiveNow;
  }

  lemma {:induction false} OmitsAgree<W(!new)>(
      m: Machine<W>, k: seq<Stmt>, ssa: RegisterSsa, oracle: Oracle, flags: seq<bool>, live: set<nat>,
      out: nat -> bool, st: State<W>, n: nat)
    requires Heeds(m, k) && Eliminates(k, ssa, oracle, flags, live) && Kernel(k, ssa.g)
    requires Omits(k, ssa, oracle, flags, live, out) && At(k, ssa.g, st)
    requires forall i: nat :: i < n ==> OracleRight(m, k, ssa.g, oracle, Run(m, k, ssa.g, Everything(), st, i))
    ensures Agree(k, ssa, live, Run(m, k, ssa.g, Everything(), st, n), Run(m, k, ssa.g, out, st, n))
  {
    hide Eliminates, Agree, Step, OracleRight, Omits, Kernel, At;
    if n == 0 {
      AgreeItself(k, ssa, live, st);
    } else {
      var a, b := Run(m, k, ssa.g, Everything(), st, n - 1), Run(m, k, ssa.g, out, st, n - 1);
      OmitsAgree(m, k, ssa, oracle, flags, live, out, st, n - 1);
      OmitsStep(m, k, ssa, oracle, flags, live, out, a, b);
    }
  }

  lemma AgreeItself<W(!new)>(k: seq<Stmt>, ssa: RegisterSsa, live: set<nat>, a: State<W>)
    requires At(k, ssa.g, a)
    ensures Agree(k, ssa, live, a, a)
  {
    hide LiveNow;
  }

  lemma OmitsStep<W(!new)>(m: Machine<W>, k: seq<Stmt>, ssa: RegisterSsa, oracle: Oracle, flags: seq<bool>,
                           live: set<nat>, out: nat -> bool, a: State<W>, b: State<W>)
    requires Heeds(m, k) && Eliminates(k, ssa, oracle, flags, live) && Omits(k, ssa, oracle, flags, live, out)
    requires Kernel(k, ssa.g) && At(k, ssa.g, a) && Agree(k, ssa, live, a, b)
    requires OracleRight(m, k, ssa.g, oracle, a)
    ensures At(k, ssa.g, Step(m, k, ssa.g, Everything(), a))
    ensures Agree(k, ssa, live, Step(m, k, ssa.g, Everything(), a), Step(m, k, ssa.g, out, b))
  {
    hide Eliminates, LiveNow, Step, OracleRight, Leaks, Omits, OmitsPure, Kernel;
    OmitsNeverLeaks(m, k, ssa, oracle, flags, live, out, a, b);
    EliminatesForm(k, ssa, oracle, flags, live);
    OmitsOmitsPure(k, ssa, oracle, flags, live, out);
    StepAgrees(m, k, ssa, oracle, flags, live, out, a, b);
  }

  lemma EliminatesForm(k: seq<Stmt>, ssa: RegisterSsa, oracle: Oracle, flags: seq<bool>, live: set<nat>)
    requires Eliminates(k, ssa, oracle, flags, live)
    ensures Valid(ssa) && |flags| == |k|
  {
  }

  // -- a never-run statement whose guard is dead -----------------------------

  /** One block: `p := 0`, then a store guarded by `p`, which never runs. */
  ghost function StoreNeverRuns(): seq<Stmt> {
    [Instr([], false, [Named(0)], None, true), Instr([], false, [], Some(Guard(Named(0), false)), false)]
  }

  /** A graph of one block of `n` statements, and its form where only statement `w` writes `p`. */
  ghost function OneBlock(n: nat): Cfg {
    Cfg([Block(0, n, [], [])])
  }

  ghost function OneBlockForm(n: nat, w: nat): RegisterSsa {
    RegisterSsa(OneBlock(n), DominanceInfo([None], [ENTRY], [0]), map[Named(0) := [w]], {})
  }

  ghost function StoreIsKnown(): Oracle {
    (s: nat) => if s == 1 then Some(false) else None
  }

  ghost function ZeroMachine(): Machine<int> {
    Machine((s: nat, x: Register -> int, w: int) => ((r: Register) => if s == 0 && r == Named(0) then 0 else x(r)),
            (s, x, w) => w, (s, x, w) => [], (s, x, w) => 0, s => 0, x => x != 0)
  }

  lemma FirstStep(g: Cfg, p: seq<BlockId>)
    requires IsPath(g, p) && |p| > 1
    ensures g.Edge(p[0], p[1])
  {
    assert g.Edge(p[0], p[0 + 1]);
  }

  lemma OneBlockPath(n: nat, p: seq<BlockId>)
    requires IsPath(OneBlock(n), p)
    ensures p == [ENTRY]
  {
    assert forall a, b :: !OneBlock(n).Edge(a, b);
    if |p| > 1 {
      FirstStep(OneBlock(n), p);
    }
  }

  lemma OneBlockDominance(n: nat, w: nat)
    ensures DominanceOf(OneBlock(n), ENTRY, OneBlockForm(n, w).doms)
  {
    var g := OneBlock(n);
    assert Connects(g, ENTRY, ENTRY, [ENTRY]);
    forall b: nat
      ensures Reaches(g, ENTRY, b) <==> b == ENTRY
    {
      if Reaches(g, ENTRY, b) {
        var p :| Connects(g, ENTRY, b, p);
        OneBlockPath(n, p);
      }
    }
    hide Reaches;
  }

  lemma OneBlockValid(n: nat, w: nat)
    requires w < n
    ensures Valid(OneBlockForm(n, w))
  {
    hide DominanceOf, InFrontier;
    OneBlockDominance(n, w);
    OneBlockFrontier(n);
    var g, ssa := OneBlock(n), OneBlockForm(n, w);
    assert Holds(g.blocks[0], w);
    assert WritesIn(g, ssa.writes);
  }

  lemma OneBlockFrontier(n: nat)
    ensures forall x: nat, y: nat :: !InFrontier(OneBlock(n), ENTRY, x, y)
  {
    hide Dominates;
  }

  // The form is the kernel's, where one statement writes the one register written.
  lemma OneBlockIsForm(k: seq<Stmt>, w: nat)
    requires w < |k| && k[w].Instr? && k[w].writes == [Named(0)]
    requires forall s: nat :: s < |k| && s != w ==> k[s].Instr? && k[s].writes == []
    ensures FormOf(k, OneBlockForm(|k|, w))
  {
    hide Valid;
    var g, ssa := OneBlock(|k|), OneBlockForm(|k|, w);
    OneBlockValid(|k|, w);
    forall s: nat | s < |k| ensures InSomeBlock(g, s) {
      assert Holds(g.blocks[0], s);
    }
    forall s: nat, reg
      ensures s in WritesOf(ssa.writes, reg) <==> WritesReg(k, s, reg)
    {
    }
  }

  lemma OneBlockStarts()
    ensures Kernel(StoreNeverRuns(), OneBlock(2))
    ensures At(StoreNeverRuns(), OneBlock(2), Start(OneBlock(2), r => 1, 0))
  {
  }

  /** The run of the store's kernel from registers all 1, without the statements `out` leaves out. */
  ghost function StoreRun(out: nat -> bool, n: nat): (st: State<int>)
    ensures At(StoreNeverRuns(), OneBlock(2), st)
  {
    OneBlockStarts();
    Run(ZeroMachine(), StoreNeverRuns(), OneBlock(2), out, Start(OneBlock(2), r => 1, 0), n)
  }

  ghost function OnlyFlagged(): nat -> bool {
    (s: nat) => s == 0
  }

  lemma StoreRunStarts(out: nat -> bool)
    ensures StoreRun(out, 0).path == [ENTRY] && StoreRun(out, 0).at == 0 && !StoreRun(out, 0).halted
    ensures StoreRun(out, 0).regs(Named(0)) == 1 && StoreRun(out, 0).trace == []
  {
    OneBlockStarts();
  }

  lemma StoreRunStep(out: nat -> bool, n: nat)
    ensures StoreRun(out, n + 1) == Step(ZeroMachine(), StoreNeverRuns(), OneBlock(2), out, StoreRun(out, n))
  {
    OneBlockStarts();
    hide Step, At;
  }

  /** With everything kept, the store's guard reads false: it does not run. */
  lemma StoreIsPassed()
    ensures StoreRun(Everything(), 2).trace == []
    ensures forall i: nat :: i < 2 ==>
              OracleRight(ZeroMachine(), StoreNeverRuns(), OneBlock(2), StoreIsKnown(), StoreRun(Everything(), i))
  {
    hide StoreRun, At;
    StoreRunStarts(Everything());
    StoreRunStep(Everything(), 0);
    FirstDefines(StoreRun(Everything(), 0));
    StoreRunStep(Everything(), 1);
    ThenPasses(StoreRun(Everything(), 1));
  }

  lemma FirstDefines(st: State<int>)
    requires At(StoreNeverRuns(), OneBlock(2), st) && st.path == [ENTRY] && st.at == 0 && !st.halted
    ensures var a := Step(ZeroMachine(), StoreNeverRuns(), OneBlock(2), Everything(), st);
      a.path == [ENTRY] && a.at == 1 && !a.halted && a.regs(Named(0)) == 0 && a.trace == st.trace
    ensures OracleRight(ZeroMachine(), StoreNeverRuns(), OneBlock(2), StoreIsKnown(), st)
  {
    hide IsPath;
  }

  lemma ThenPasses(st: State<int>)
    requires At(StoreNeverRuns(), OneBlock(2), st) && st.path == [ENTRY] && st.at == 1 && !st.halted
    requires st.regs(Named(0)) == 0
    ensures Step(ZeroMachine(), StoreNeverRuns(), OneBlock(2), Everything(), st).trace == st.trace
    ensures OracleRight(ZeroMachine(), StoreNeverRuns(), OneBlock(2), StoreIsKnown(), st)
  {
    hide IsPath;
  }

  /** With only the unused statement left out, it runs. */
  lemma StoreRuns()
    ensures StoreRun(OnlyFlagged(), 2).trace == [Event(1, [])]
  {
    StoreRunStarts(OnlyFlagged());
    StoreRunStep(OnlyFlagged(), 0);
    StoreRunStep(OnlyFlagged(), 1);
    hide StoreRun;
    assert StoreRun(OnlyFlagged(), 1).regs(Named(0)) == 1;
  }

  /** Skipping only the flagged statements is not enough: nothing keeps the guard of a
      statement that never runs, and without its definition the statement may run. */
  lemma NeverRunMustGoToo()
    ensures Heeds(ZeroMachine(), StoreNeverRuns())
    ensures Eliminates(StoreNeverRuns(), OneBlockForm(2, 0), StoreIsKnown(), [true, false], {})
    ensures forall s: nat :: s < 2 ==> (OnlyFlagged()(s) <==> [true, false][s])
    ensures forall i: nat :: i < 2 ==>
              OracleRight(ZeroMachine(), StoreNeverRuns(), OneBlock(2), StoreIsKnown(), StoreRun(Everything(), i))
    ensures StoreRun(OnlyFlagged(), 2).trace != StoreRun(Everything(), 2).trace
  {
    hide *;
    ZeroHeeds();
    NeverRunForm();
    StoreIsPassed();
    StoreRuns();
    EventShows();
  }

  lemma ZeroHeeds()
    ensures Heeds(ZeroMachine(), StoreNeverRuns())
  {
  }

  lemma EventShows()
    ensures [Event(1, [])] != []
  {
  }

  lemma NeverRunForm()
    ensures Eliminates(StoreNeverRuns(), OneBlockForm(2, 0), StoreIsKnown(), [true, false], {})
    ensures forall s: nat :: s < 2 ==> (OnlyFlagged()(s) <==> [true, false][s])
  {
    hide FormOf, Valid, MaySee;
    OneBlockIsForm(StoreNeverRuns(), 0);
    FormIsValid(StoreNeverRuns(), OneBlockForm(2, 0));
  }

  // -- a dead guard that never shows -----------------------------------------

  /** One block: a store guarded by `p`, then `p := 0`, then the store again; neither store ever runs. */
  ghost function StoreTwice(): seq<Stmt> {
    [Instr([], false, [], Some(Guard(Named(0), false)), false), Instr([], false, [Named(0)], None, true),
     Instr([], false, [], Some(Guard(Named(0), false)), false)]
  }

  ghost function BothKnown(): Oracle {
    (s: nat) => if s == 0 || s == 2 then Some(false) else None
  }

  ghost function OnlyMiddle(): nat -> bool {
    (s: nat) => s == 1
  }

  lemma StoreTwiceForm()
    ensures FormOf(StoreTwice(), OneBlockForm(3, 1)) && Valid(OneBlockForm(3, 1)) && Kernel(StoreTwice(), OneBlock(3))
    ensures Eliminates(StoreTwice(), OneBlockForm(3, 1), BothKnown(), [false, true, false], {})
    ensures OmitsPure(StoreTwice(), OneBlockForm(3, 1), BothKnown(), [false, true, false], {}, OnlyMiddle())
  {
    hide *;
    StoreTwiceIsForm();
    StoreTwiceFlags();
  }

  lemma StoreTwiceIsForm()
    ensures FormOf(StoreTwice(), OneBlockForm(3, 1)) && Valid(OneBlockForm(3, 1)) && Kernel(StoreTwice(), OneBlock(3))
  {
    hide Valid, MaySee;
    OneBlockIsForm(StoreTwice(), 1);
    FormIsValid(StoreTwice(), OneBlockForm(3, 1));
  }

  lemma StoreTwiceFlags()
    requires FormOf(StoreTwice(), OneBlockForm(3, 1)) && Valid(OneBlockForm(3, 1))
    ensures Eliminates(StoreTwice(), OneBlockForm(3, 1), BothKnown(), [false, true, false], {})
    ensures OmitsPure(StoreTwice(), OneBlockForm(3, 1), BothKnown(), [false, true, false], {}, OnlyMiddle())
  {
    hide FormOf, Valid, MaySee;
  }

  lemma SeesMiddle()
    ensures Valid(OneBlockForm(3, 1)) && MaySee(OneBlockForm(3, 1), 2, Named(0), 1)
  {
    hide Dominates, DominanceOf, InFrontier, FormOf, Eliminates, OmitsPure, Kernel, MayBe;
    StoreTwiceIsForm();
    var ssa := OneBlockForm(3, 1);
    OneBlockDominance(3, 1);
    assert Connects(ssa.g, ENTRY, ENTRY, [ENTRY]);
    assert Visited(ssa, ENTRY) && Holds(ssa.g.blocks[ENTRY], 2);
    hide Valid;
    var v := Result(1, Named(0));
    SeenCases(ssa, Named(0), ENTRY, 2);
    assert LastIn([1], 0, 2) == Some(1);
    assert SeenAt(ssa, Named(0), ENTRY, 2) == v;
    MayBeItself(ssa, v);
  }

  lemma MayBeItself(ssa: RegisterSsa, v: Value)
    requires Valid(ssa)
    ensures MayBe(ssa, v, v)
  {
    hide Valid, Takes;
    assert Flow(ssa, [v]);
  }

  ghost function TwiceStart<W(!new)>(regs: Register -> int, world: W): (st: State<W>)
    ensures At(StoreTwice(), OneBlock(3), st)
  {
    Start(OneBlock(3), regs, world)
  }

  /** However it runs, the reduced kernel keeps `p` as it started. */
  lemma {:induction false} KeepsStart<W(!new)>(m: Machine<W>, regs: Register -> int, world: W, i: nat)
    requires Heeds(m, StoreTwice()) && Kernel(StoreTwice(), OneBlock(3))
    ensures var b := Run(m, StoreTwice(), OneBlock(3), OnlyMiddle(), TwiceStart(regs, world), i);
      b.path == [ENTRY] && b.regs(Named(0)) == regs(Named(0))
  {
    hide Kernel, Heeds, Step;
    if i > 0 {
      KeepsStart(m, regs, world, i - 1);
      StepKeepsStart(m, Run(m, StoreTwice(), OneBlock(3), OnlyMiddle(), TwiceStart(regs, world), i - 1));
    }
  }

  lemma StepKeepsStart<W(!new)>(m: Machine<W>, st: State<W>)
    requires Heeds(m, StoreTwice()) && At(StoreTwice(), OneBlock(3), st) && st.path == [ENTRY]
    ensures var b := Step(m, StoreTwice(), OneBlock(3), OnlyMiddle(), st);
      b.path == [ENTRY] && b.regs(Named(0)) == st.regs(Named(0))
  {
    hide IsPath, Inputs, SameOn, Heeds;
    if st.at < 3 {
      RunKeeps(m, StoreTwice(), st);
    }
  }

  /**
   * A guard that sees an unused definition need not show: here the second store's does, and yet from every start at
   * which the first reads its guard as known, the run without that definition leaves the same effects.
   */
  lemma PinnedGuardNeverShows<W(!new)>(m: Machine<W>, regs: Register -> int, world: W, n: nat)
    requires Heeds(m, StoreTwice())
    requires OracleRight(m, StoreTwice(), OneBlock(3), BothKnown(), TwiceStart(regs, world))
    requires Kernel(StoreTwice(), OneBlock(3)) && forall i: nat :: i < n ==>
      OracleRight(m, StoreTwice(), OneBlock(3), BothKnown(),
                  Run(m, StoreTwice(), OneBlock(3), Everything(), TwiceStart(regs, world), i))
    ensures Eliminates(StoreTwice(), OneBlockForm(3, 1), BothKnown(), [false, true, false], {})
    ensures Valid(OneBlockForm(3, 1)) && MaySee(OneBlockForm(3, 1), 2, Named(0), 1)
    ensures SameEffects(m, StoreTwice(), OneBlock(3), OnlyMiddle(), TwiceStart(regs, world), n)
  {
    hide Valid, Eliminates, OmitsPure, Run, MaySee, Kernel, SameEffects;
    StoreTwiceForm();
    SeesMiddle();
    var st := TwiceStart(regs, world);
    assert m.truth(regs(Named(0))) == false;
    forall i: nat | i < n
      ensures !LeaksIn(m, StoreTwice(), OneBlock(3), BothKnown(), OnlyMiddle(),
                       Run(m, StoreTwice(), OneBlock(3), OnlyMiddle(), st, i))
    {
      KeepsStart(m, regs, world, i);
      assert StoreTwice()[0].guard == StoreTwice()[2].guard == Some(Guard(Named(0), false));
    }
    SameEffectsWhere(m, StoreTwice(), OneBlockForm(3, 1), BothKnown(), [false, true, false], {}, OnlyMiddle(), st, n);
  }
}
