/** Aggressive dead-code elimination over register SSA, and the runs it preserves. */
module DeadCode {
  import opened Wrappers
  import opened Graphs
  import opened Dominators
  import opened Ssa
  import opened SsaQueries

  datatype Guard = Guard(reg: Register, negated: bool)

  /** A statement as the analysis reads it: an instruction's source registers, CC read or
      not, the registers it writes, its guard, and whether its only effect is those. */
  datatype Stmt =
    | Instr(operands: seq<Register>, readsCc: bool, writes: seq<Register>, guard: Option<Guard>, pure: bool)
    | Unparsed(registers: seq<Register>)
    | Label

  /** What the guard of each statement is known to be: `Some(false)` where it never runs,
      `Some(true)` where every thread that reaches it reads its guard as true. */
  type Oracle = nat -> Option<bool>

  function Writes(stmt: Stmt): seq<Register> {
    match stmt
    case Instr(_, _, writes, _, _) => writes
    case Unparsed(registers) => registers + [Cc]
    case Label => []
  }

  /** The registers an instruction's operation reads when it runs. An instruction that
      is not pure may read what it writes. */
  function Inputs(stmt: Stmt): seq<Register> {
    match stmt
    case Instr(operands, readsCc, writes, _, pure) =>
      operands + (if readsCc then [Cc] else []) + (if pure then [] else writes)
    case Unparsed(registers) => registers + [Cc]
    case Label => []
  }

  /** What a live statement needs, given what is `known` of its guard: its own reads, the old
      values a guarded one may leave in place, and for one that never runs those alone. */
  function Reads(stmt: Stmt, known: Option<bool>): seq<Register> {
    match stmt
    case Instr(_, _, writes, guard, _) =>
      (if guard.Some? && known != Some(true) then writes else []) +
      (if known != Some(false)
       then (if guard.Some? then [guard.value.reg] else []) + Inputs(stmt)
       else [])
    case Unparsed(_) => Inputs(stmt)
    case Label => []
  }

  /** Live whatever reads it: an instruction that may run and is not pure, or a
      statement that was not parsed. */
  predicate Root(stmt: Stmt, known: Option<bool>) {
    match stmt
    case Instr(_, _, _, _, pure) => known != Some(false) && !pure
    case Unparsed(_) => true
    case Label => false
  }

  ghost predicate WritesReg(k: seq<Stmt>, s: nat, reg: Register) {
    s < |k| && reg in Writes(k[s])
  }

  /** The SSA form is that of the kernel's statements. */
  ghost predicate FormOf(k: seq<Stmt>, ssa: RegisterSsa) {
    && Valid(ssa)
    && (forall b: nat :: b < |ssa.g.blocks| ==> ssa.g.blocks[b].end <= |k|)
    && (forall s: nat :: s < |k| && !k[s].Label? ==> InSomeBlock(ssa.g, s))
    && (forall s: nat, reg :: s in WritesOf(ssa.writes, reg) <==> WritesReg(k, s, reg))
  }

  /** A read of `reg` at statement `s` may see what `op` wrote. */
  ghost predicate MaySee(ssa: RegisterSsa, s: nat, reg: Register, op: nat)
    requires Valid(ssa)
  {
    exists b: nat :: Visited(ssa, b) && Holds(ssa.g.blocks[b], s) &&
                     MayBe(ssa, SeenAt(ssa, reg, b, s), Result(op, reg))
  }

  // A register the operation of a statement may depend on: its operands, CC where it reads it, what it writes where it
  // is not pure; of one that was not parsed every register it names, and CC.
  ghost predicate DependsOn(stmt: Stmt, r: Register) {
    match stmt
    case Instr(operands, readsCc, writes, _, pure) => r in operands || (readsCc && r == Cc) || (!pure && r in writes)
    case Unparsed(registers) => r in registers || r == Cc
    case Label => false
  }

  /**
   * A register whose value a live statement needs: what the guard reads and the operation depends on where it may run,
   * and what it writes where the guard may leave the old value.
   */
  ghost predicate Needs(stmt: Stmt, known: Option<bool>, r: Register) {
    match stmt
    case Instr(_, _, writes, guard, _) =>
      || (known != Some(false) && (DependsOn(stmt, r) || (guard.Some? && r == guard.value.reg)))
      || (known != Some(true) && guard.Some? && r in writes)
    case _ => DependsOn(stmt, r)
  }

  // Something may come of it besides the registers it writes.
  ghost predicate HasEffect(stmt: Stmt, known: Option<bool>) {
    stmt.Unparsed? || (stmt.Instr? && !stmt.pure && known != Some(false))
  }

  lemma ReadsAreNeeds(stmt: Stmt, known: Option<bool>, r: Register)
    ensures r in Reads(stmt, known) <==> Needs(stmt, known, r)
    ensures Root(stmt, known) <==> HasEffect(stmt, known)
  {
  }

  /** Every statement with an effect, and with each the definitions of what it needs. */
  ghost predicate Sustains(k: seq<Stmt>, ssa: RegisterSsa, oracle: Oracle, all: set<nat>)
    requires Valid(ssa)
  {
    && (forall s: nat :: s < |k| && HasEffect(k[s], oracle(s)) ==> s in all)
    && (forall s: nat, reg, op: nat ::
          s in all && s < |k| && Needs(k[s], oracle(s), reg) && MaySee(ssa, s, reg, op) ==> op in all)
  }

  lemma SustainsIsClosed(k: seq<Stmt>, ssa: RegisterSsa, oracle: Oracle, all: set<nat>)
    requires Valid(ssa)
    ensures Sustains(k, ssa, oracle, all) <==> LiveClosed(k, ssa, oracle, all)
  {
    hide Valid, Needs, Reads, HasEffect, Root, MaySee;
    forall s: nat, reg | s < |k|
      ensures reg in Reads(k[s], oracle(s)) <==> Needs(k[s], oracle(s), reg)
      ensures Root(k[s], oracle(s)) <==> HasEffect(k[s], oracle(s))
    {
      ReadsAreNeeds(k[s], oracle(s), reg);
    }
    forall s: nat | s < |k| ensures Root(k[s], oracle(s)) <==> HasEffect(k[s], oracle(s)) {
      ReadsAreNeeds(k[s], oracle(s), Cc);
    }
  }

  /** The roots, and with each statement the definitions its reads may see. */
  ghost predicate LiveClosed(k: seq<Stmt>, ssa: RegisterSsa, oracle: Oracle, live: set<nat>)
    requires Valid(ssa)
  {
    && (forall s: nat :: s < |k| && Root(k[s], oracle(s)) ==> s in live)
    && (forall s: nat, reg, op: nat ::
          s in live && s < |k| && reg in Reads(k[s], oracle(s)) && MaySee(ssa, s, reg, op) ==> op in live)
  }

  /** `flags` mark the instructions that may run and are not in `live`. */
  ghost predicate Eliminates(k: seq<Stmt>, ssa: RegisterSsa, oracle: Oracle, flags: seq<bool>, live: set<nat>) {
    && FormOf(k, ssa) && LiveClosed(k, ssa, oracle, live) && |flags| == |k|
    && (forall s: nat :: s < |k| ==> (flags[s] <==> k[s].Instr? && oracle(s) != Some(false) && s !in live))
  }

  /** In every set closed under what its reads may see. */
  ghost predicate AlwaysLive(k: seq<Stmt>, ssa: RegisterSsa, oracle: Oracle, s: nat)
    requires Valid(ssa)
  {
    forall all :: Sustains(k, ssa, oracle, all) ==> s in all
  }

  // -- the worklist ----------------------------------------------------------

  ghost predicate Marked(marks: array<bool>, s: set<nat>)
    reads marks
  {
    forall i: nat :: i in s <==> i < marks.Length && marks[i]
  }

  /** Statements marked so far: all live in every closed set, and closed but for those
      still in the work and the registers of one statement still to follow. */
  ghost predicate Following(k: seq<Stmt>, ssa: RegisterSsa, oracle: Oracle, live: set<nat>, work: seq<nat>,
                            at: Option<nat>, done: seq<Register>)
    requires Valid(ssa)
  {
    && (forall s: nat :: s < |k| && Root(k[s], oracle(s)) ==> s in live)
    && (forall s: nat :: s in live ==> s < |k|)
    && (forall s: nat :: s in work ==> s in live)
    && (at.Some? ==> at.value in live)
    && (forall all :: LiveClosed(k, ssa, oracle, all) ==> live <= all)
    && (forall s: nat, reg, op: nat ::
          (s in live && s < |k| && s !in work && reg in (if at == Some(s) then done else Reads(k[s], oracle(s))) &&
           MaySee(ssa, s, reg, op)) ==> op in live)
  }

  /** The statement taken from the work is followed next. */
  lemma FollowsNext(k: seq<Stmt>, ssa: RegisterSsa, oracle: Oracle, live: set<nat>, work: seq<nat>)
    requires Valid(ssa) && Following(k, ssa, oracle, live, work, None, []) && work != []
    ensures work[|work| - 1] < |k| &&
            Following(k, ssa, oracle, live, work[..|work| - 1], Some(work[|work| - 1]), [])
  {
    hide Valid, MaySee, LiveClosed;
    assert work == work[..|work| - 1] + [work[|work| - 1]];
    assert work[|work| - 1] in work;
  }

  /** A register read is followed: every definition a read of it may see is live. */
  lemma FollowsRegister(k: seq<Stmt>, ssa: RegisterSsa, oracle: Oracle, live: set<nat>, work: seq<nat>, s: nat,
                        done: seq<Register>, reg: Register)
    requires Valid(ssa) && Following(k, ssa, oracle, live, work, Some(s), done)
    requires forall op: nat :: MaySee(ssa, s, reg, op) ==> op in live
    ensures Following(k, ssa, oracle, live, work, Some(s), done + [reg])
  {
    hide Valid, MaySee, LiveClosed;
  }

  /** A definition a live read may see becomes live and joins the work. */
  lemma FollowsDefinition(k: seq<Stmt>, ssa: RegisterSsa, oracle: Oracle, live: set<nat>, work: seq<nat>, s: nat,
                          done: seq<Register>, reg: Register, op: nat)
    requires Valid(ssa) && Following(k, ssa, oracle, live, work, Some(s), done)
    requires s < |k| && reg in Reads(k[s], oracle(s)) && MaySee(ssa, s, reg, op) && op < |k| && op !in live
    ensures Following(k, ssa, oracle, live + {op}, work + [op], Some(s), done)
  {
    hide Valid, MaySee;
    forall all | LiveClosed(k, ssa, oracle, all)
      ensures live + {op} <= all
    {
      assert s in all;
    }
    hide LiveClosed;
    forall t: nat, r, o: nat | t in live + {op} && t < |k| && t !in work + [op] &&
        r in (if Some(s) == Some(t) then done else Reads(k[t], oracle(t))) && MaySee(ssa, t, r, o)
      ensures o in live + {op}
    {
      assert t in live && t !in work;
    }
  }

  lemma FollowsAll(k: seq<Stmt>, ssa: RegisterSsa, oracle: Oracle, live: set<nat>, work: seq<nat>, s: nat)
    requires Valid(ssa) && s < |k| && Following(k, ssa, oracle, live, work, Some(s), Reads(k[s], oracle(s)))
    ensures Following(k, ssa, oracle, live, work, None, [])
  {
    hide Valid, MaySee, LiveClosed;
  }

  lemma FollowingStarts(k: seq<Stmt>, ssa: RegisterSsa, oracle: Oracle, live: set<nat>, work: seq<nat>)
    requires Valid(ssa)
    requires forall s: nat :: s in live <==> s < |k| && Root(k[s], oracle(s))
    requires forall s: nat :: s in work <==> s in live
    ensures Following(k, ssa, oracle, live, work, None, [])
  {
  }

  lemma FollowingEnds(k: seq<Stmt>, ssa: RegisterSsa, oracle: Oracle, live: set<nat>)
    requires Valid(ssa) && Following(k, ssa, oracle, live, [], None, [])
    ensures LiveClosed(k, ssa, oracle, live)
    ensures forall all :: LiveClosed(k, ssa, oracle, all) ==> live <= all
    ensures forall s: nat :: s in live ==> s < |k|
  {
    hide Valid, MaySee;
  }

  /** Every definition a read may see is a statement writing the register. */
  lemma SeenIsWrite(k: seq<Stmt>, ssa: RegisterSsa, s: nat, reg: Register, op: nat)
    requires FormOf(k, ssa) && MaySee(ssa, s, reg, op)
    ensures op < |k| && reg in Writes(k[op])
  {
    SeenInValuesOf(ssa, s, reg, op);
    ResultInValues(ssa, reg, op);
    hide Valid, MaySee;
  }

  lemma SeenInValuesOf(ssa: RegisterSsa, s: nat, reg: Register, op: nat)
    requires Valid(ssa) && MaySee(ssa, s, reg, op)
    ensures Result(op, reg) in ValuesOf(ssa, reg)
  {
    hide Valid, SeenAt, MayBe, ValuesOf;
    var b: nat :| Visited(ssa, b) && Holds(ssa.g.blocks[b], s) &&
                  MayBe(ssa, SeenAt(ssa, reg, b, s), Result(op, reg));
    SourceOfRegister(ssa, s, reg, b, Result(op, reg));
  }

  lemma ResultInValues(ssa: RegisterSsa, reg: Register, op: nat)
    requires Result(op, reg) in ValuesOf(ssa, reg)
    ensures op in WritesOf(ssa.writes, reg)
  {
  }

  lemma {:induction false} FlowInValues(ssa: RegisterSsa, reg: Register, c: seq<Value>, i: nat)
    requires Valid(ssa) && Flow(ssa, c) && c[0] in ValuesOf(ssa, reg) && c[0].reg == reg && i < |c|
    ensures c[i] in ValuesOf(ssa, reg) && c[i].reg == reg
  {
    hide Valid, Takes, ValuesOf;
    if i > 0 {
      FlowInValues(ssa, reg, c, i - 1);
      FlowStep(ssa, c, i - 1);
      TakenInValues(ssa, c[i - 1], c[i]);
    }
  }

  /** The definitions a read of `reg` at `s` may see, from its value's sources. */
  lemma SourcesAreSeen(ssa: RegisterSsa, s: nat, reg: Register, b: BlockId, out: seq<Value>)
    requires Valid(ssa) && ssa.g.Has(b) && Holds(ssa.g.blocks[b], s)
    requires Visited(ssa, b) ==>
               forall w :: w in out <==> !w.Argument? && MayBe(ssa, SeenAt(ssa, reg, b, s), w)
    requires !Visited(ssa, b) ==> out == []
    ensures forall op: nat :: MaySee(ssa, s, reg, op) <==> Result(op, reg) in out
    ensures forall w :: w in out && w.Result? ==> w.reg == reg
  {
    hide MayBe, SeenAt, DominanceOf, WritesIn, PhisClosed;
    forall c: nat | c < |ssa.g.blocks| && Holds(ssa.g.blocks[c], s)
      ensures c == b
    {
    }
    hide Valid;
    forall w | w in out
      ensures w.reg == reg
    {
      SourceOfRegister(ssa, s, reg, b, w);
    }
  }

  lemma SourceOfRegister(ssa: RegisterSsa, s: nat, reg: Register, b: BlockId, w: Value)
    requires Valid(ssa) && Visited(ssa, b) && MayBe(ssa, SeenAt(ssa, reg, b, s), w)
    ensures w in ValuesOf(ssa, reg) && w.reg == reg
  {
    hide Valid, SeenAt;
    SeenInValues(ssa, reg, b, s);
    PhiDominates(ssa, reg, b, s);
    var c :| Flow(ssa, c) && c[0] == SeenAt(ssa, reg, b, s) && c[|c| - 1] == w;
    FlowInValues(ssa, reg, c, |c| - 1);
  }

  /** Marks what a read of `reg` at live statement `s` may see. */
  method Follow(k: seq<Stmt>, ssa: RegisterSsa, ghost oracle: Oracle, live: array<bool>, s: nat, reg: Register,
                ghost done: seq<Register>, rest: seq<nat>, ghost l0: set<nat>)
    returns (work: seq<nat>, ghost l: set<nat>)
    requires FormOf(k, ssa) && live.Length == |k| && Marked(live, l0)
    requires Following(k, ssa, oracle, l0, rest, Some(s), done)
    requires s < |k| && reg in Reads(k[s], oracle(s))
    modifies live
    ensures Marked(live, l) && l0 <= l && (l == l0 ==> work == rest)
    ensures Following(k, ssa, oracle, l, work, Some(s), done + [reg])
  {
    hide Valid, Following, LiveClosed, MayBe, SeenAt;
    var v, b := ValueBefore(ssa, s, reg);
    var out: seq<Value> := [];
    if v.Some? {
      SeenInGraph(ssa, reg, b, s);
      out := Sources(ssa, v.value);
    }
    SourcesAreSeen(ssa, s, reg, b, out);
    forall w | w in out && w.Result?
      ensures w.op < |k| && MaySee(ssa, s, reg, w.op)
    {
      SeenIsWrite(k, ssa, s, reg, w.op);
    }
    hide MaySee;
    assert forall op: nat :: MaySee(ssa, s, reg, op) ==> Result(op, reg) in out;
    work, l := MarkSources(k, ssa, oracle, live, s, reg, done, rest, l0, out);
  }

  /** Marks the statements of the sources in `out` that are not marked yet. */
  method MarkSources(k: seq<Stmt>, ssa: RegisterSsa, ghost oracle: Oracle, live: array<bool>, s: nat, reg: Register,
                     ghost done: seq<Register>, rest: seq<nat>, ghost l0: set<nat>, out: seq<Value>)
    returns (work: seq<nat>, ghost l: set<nat>)
    requires Valid(ssa) && live.Length == |k| && Marked(live, l0)
    requires Following(k, ssa, oracle, l0, rest, Some(s), done)
    requires s < |k| && reg in Reads(k[s], oracle(s))
    requires forall op: nat :: MaySee(ssa, s, reg, op) ==> Result(op, reg) in out
    requires forall w :: w in out && w.Result? ==> w.op < |k| && MaySee(ssa, s, reg, w.op)
    modifies live
    ensures Marked(live, l) && l0 <= l && (l == l0 ==> work == rest)
    ensures Following(k, ssa, oracle, l, work, Some(s), done + [reg])
  {
    hide Valid, Following, LiveClosed, MaySee, Reads;
    work, l := rest, l0;
    for i := 0 to |out|
      invariant Marked(live, l) && l0 <= l && (l == l0 ==> work == rest)
      invariant Following(k, ssa, oracle, l, work, Some(s), done)
      invariant forall j :: 0 <= j < i && out[j].Result? ==> out[j].op in l
    {
      var w := out[i];
      assert w in out;
      if w.Result? {
        if !live[w.op] {
          FollowsDefinition(k, ssa, oracle, l, work, s, done, reg, w.op);
          live[w.op] := true;
          work := work + [w.op];
          l := l + {w.op};
        }
      }
    }
    forall op: nat | MaySee(ssa, s, reg, op)
      ensures op in l
    {
      assert Result(op, reg) in out;
    }
    FollowsRegister(k, ssa, oracle, l, work, s, done, reg);
  }

  lemma SeenInGraph(ssa: RegisterSsa, reg: Register, b: BlockId, end: nat)
    requires Valid(ssa) && Visited(ssa, b)
    ensures var v := SeenAt(ssa, reg, b, end); v.Argument? ==> ssa.g.Has(v.block)
  {
    PhiDominates(ssa, reg, b, end);
    var v := SeenAt(ssa, reg, b, end);
    if v.Argument? {
      DominatorReaches(ssa.g, ENTRY, v.block, b);
      var q :| Connects(ssa.g, ENTRY, v.block, q);
      assert ssa.g.Has(q[|q| - 1]);
    }
  }

  /** Flags the instructions that may run and nothing live needs. What is live is the least set
      that holds the effects and whatever a live statement's reads may see. */
  method Unused(k: seq<Stmt>, ssa: RegisterSsa, oracle: Oracle) returns (flags: seq<bool>, ghost live: set<nat>)
    requires FormOf(k, ssa)
    ensures Eliminates(k, ssa, oracle, flags, live)
    ensures |flags| == |k| && forall s: nat :: s < |k| ==>
      (flags[s] <==> k[s].Instr? && oracle(s) != Some(false) && !AlwaysLive(k, ssa, oracle, s))
    ensures Sustains(k, ssa, oracle, live) && forall all :: Sustains(k, ssa, oracle, all) ==> live <= all
  {
    hide Valid, Following, LiveClosed, FormOf, Reads, Sustains;
    var n := |k|;
    var marks := new bool[n](_ => false);
    live := {};
    var work: seq<nat> := [];
    for s := 0 to n
      invariant Marked(marks, live)
      invariant forall t: nat :: t in live <==> t < s && Root(k[t], oracle(t))
      invariant forall t: nat :: t in work <==> t in live
    {
      if Root(k[s], oracle(s)) {
        work := work + [s];
        marks[s] := true;
        live := live + {s};
      }
    }
    FormIsValid(k, ssa);
    FollowingStarts(k, ssa, oracle, live, work);
    ghost var all := set s: nat | s < n && Within(k, s);
    assert forall s: nat :: s < n ==> Within(k, s);
    while work != []
      invariant Marked(marks, live)
      invariant Following(k, ssa, oracle, live, work, None, [])
      decreases all - live, |work|
    {
      FollowsNext(k, ssa, oracle, live, work);
      var s := work[|work| - 1];
      work := work[..|work| - 1];
      var regs := Reads(k[s], oracle(s));
      ghost var rest, before := work, live;
      for i := 0 to |regs|
        invariant Marked(marks, live) && before <= live && (live == before ==> work == rest)
        invariant Following(k, ssa, oracle, live, work, Some(s), regs[..i])
      {
        assert regs[..i + 1] == regs[..i] + [regs[i]];
        work, live := Follow(k, ssa, oracle, marks, s, regs[i], regs[..i], work, live);
      }
      assert regs[..|regs|] == regs;
      FollowsAll(k, ssa, oracle, live, work, s);
    }
    FollowingEnds(k, ssa, oracle, live);
    flags := seq(n, s requires 0 <= s < n reads marks => k[s].Instr? && oracle(s) != Some(false) && !marks[s]);
    LeastIsAlways(k, ssa, oracle, live);
    assert Eliminates(k, ssa, oracle, flags, live);
  }

  lemma LeastIsAlways(k: seq<Stmt>, ssa: RegisterSsa, oracle: Oracle, live: set<nat>)
    requires Valid(ssa) && LiveClosed(k, ssa, oracle, live) && forall all :: LiveClosed(k, ssa, oracle, all) ==> live <= all
    ensures Sustains(k, ssa, oracle, live) && forall all :: Sustains(k, ssa, oracle, all) ==> live <= all
    ensures forall s :: AlwaysLive(k, ssa, oracle, s) <==> s in live
  {
    hide LiveClosed, Sustains, Valid;
    SustainsIsClosed(k, ssa, oracle, live);
    forall all | Sustains(k, ssa, oracle, all) ensures live <= all {
      SustainsIsClosed(k, ssa, oracle, all);
    }
  }

  lemma FormIsValid(k: seq<Stmt>, ssa: RegisterSsa)
    requires FormOf(k, ssa)
    ensures Valid(ssa)
  {
  }

  ghost predicate Within(k: seq<Stmt>, s: nat) {
    s < |k|
  }
}
