/** Loop counters on register SSA: recognising a header's phi that is fed back plus one step. */
module InductionVariables {
  import opened Wrappers
  import opened Graphs
  import opened Dominators
  import opened NaturalLoops
  import opened Loops
  import opened LoopForest
  import opened LoopStays
  import opened Ssa
  import opened SsaQueries
  import opened SymExprs
  import opened CounterRuns

  // -- the walk -------------------------------------------------------------------------------------

  // A statement of the loop's own: of a block it is the innermost loop of.
  ghost predicate OwnOp(ssa: RegisterSsa, f: Forest, l: LoopId, op: nat) {
    exists b: nat :: b < |ssa.g.blocks| && b < |f.blockLoop| && Holds(ssa.g.blocks[b], op) && f.blockLoop[b] == Some(l)
  }

  // The counters of loops already looked at, by the values they are fed back.
  type Inner = map<Value, (LoopId, Counter)>

  ghost predicate InnerOf(k: seq<Op>, ssa: RegisterSsa, f: Forest, inner: Inner)
    requires Ssa.Valid(ssa) && ForestOf(ssa.g, f)
  {
    forall v :: v in inner ==> CounterFedBy(k, ssa, f, inner[v].0, inner[v].1, v)
  }

  lemma InnerFacts(k: seq<Op>, ssa: RegisterSsa, f: Forest, inner: Inner, v: Value)
    requires Ssa.Valid(ssa) && ForestOf(ssa.g, f) && InnerOf(k, ssa, f, inner) && v in inner
    ensures CounterFedBy(k, ssa, f, inner[v].0, inner[v].1, v)
  {
    hide Ssa.Valid, ForestOf, CounterIs, Fed;
  }

  /**
   * What is added on the way back from `v` to `phi`: by the loop's own movs, adds and subs, and by counters of the
   * loops directly in it, each taken from exit to start. None past `depth` of these.
   */
  ghost function OffsetOf(k: seq<Op>, ssa: RegisterSsa, f: Forest, l: LoopId, inner: Inner, v: Value, phi: Value,
                          depth: nat): Option<Step>
    requires Ssa.Valid(ssa)
    decreases depth, 1
  {
    if v == phi then Some(ZERO)
    else if !v.Result? || v.op >= |k| || depth == 0 then None
    else if !OwnOp(ssa, f, l, v.op) then ExitOf(k, ssa, f, l, inner, v, phi, depth)
    else match k[v.op]
      case Mov(_, src) => AfterOf(k, ssa, f, l, inner, v.op, phi, src, None, depth)
      case Add(_, x, y) =>
        var first := AfterOf(k, ssa, f, l, inner, v.op, phi, x, Some((y, 1)), depth);
        if first.Some? then first else AfterOf(k, ssa, f, l, inner, v.op, phi, y, Some((x, 1)), depth)
      case Sub(_, x, y) => AfterOf(k, ssa, f, l, inner, v.op, phi, x, Some((y, -1)), depth)
      case Opaque(_) => None
  }

  // Through the counter of a loop directly in this one that `v` is fed back by.
  ghost function ExitOf(k: seq<Op>, ssa: RegisterSsa, f: Forest, l: LoopId, inner: Inner, v: Value, phi: Value,
                        depth: nat): Option<Step>
    requires Ssa.Valid(ssa) && depth > 0
    decreases depth, 0
  {
    if v !in inner || !ChildOf(f, l, inner[v].0) then None else
    match OffsetOf(k, ssa, f, l, inner, inner[v].1.start, phi, depth - 1)
    case None => None
    case Some(s) => Some(Through(s, inner[v].0, inner[v].1.step))
  }

  ghost function AfterOf(k: seq<Op>, ssa: RegisterSsa, f: Forest, l: LoopId, inner: Inner, op: nat, phi: Value,
                         from: Arg,
                         plus: Option<(Arg, int)>, depth: nat): Option<Step>
    requires Ssa.Valid(ssa) && depth > 0
    decreases depth, 0
  {
    if !from.Reg? then None else
    match ReadAt(ssa, from.r, op)
    case None => None
    case Some(w) =>
      match (OffsetOf(k, ssa, f, l, inner, w, phi, depth - 1), plus)
      case (None, _) => None
      case (Some(s), None) => Some(s)
      case (Some(s), Some((a, sign))) =>
        var t := Term(a, op, sign);
        if t.None? || !Fits(s.constant + t.value.constant) then None
        else Some(Step(s.constant + t.value.constant, s.registers + t.value.registers, s.exits))
  }

  ghost predicate InBlocks(ssa: RegisterSsa, s: Step) {
    forall x :: x in s.registers ==> InSomeBlock(ssa.g, x.1)
  }

  // What a walk from `v` to the phi finds.
  ghost predicate Walked(k: seq<Op>, ssa: RegisterSsa, f: Forest, l: LoopId, phi: Value, v: Value, step: Step)
    requires Ssa.Valid(ssa)
  {
    && Moves(k, ssa, f, phi, v, step) && InBlocks(ssa, step) && NestedIn(f, l, step)
    && l < |f.loops| && MadeIn(ssa.g, f.loops[l].header, v)
  }

  // Whether `op` is in a block whose innermost loop is `l`.
  method Own(ssa: RegisterSsa, f: Forest, l: LoopId, op: nat) returns (own: bool, ghost b: BlockId)
    requires Ssa.Valid(ssa) && ForestOf(ssa.g, f) && l < |f.loops|
    ensures own <==> OwnOp(ssa, f, l, op)
    ensures own ==> OwnBlock(ssa.g, f, l, b) && Holds(ssa.g.blocks[b], op)
  {
    hide Ssa.Valid, DominanceOf, Nested, InBody, InnermostIs;
    own := false;
    b := 0;
    var x := 0;
    while x < |ssa.g.blocks|
      invariant 0 <= x <= |ssa.g.blocks| && !own
      invariant forall y: nat :: y < x ==> !Holds(ssa.g.blocks[y], op)
    {
      if Holds(ssa.g.blocks[x], op) {
        own, b := f.blockLoop[x] == Some(l), x;
        forall y: nat | y < |ssa.g.blocks| && Holds(ssa.g.blocks[y], op) ensures y == x {
          OneBlock(ssa, x, y, op);
        }
        return;
      }
      x := x + 1;
    }
  }

  lemma NoReads(ssa: RegisterSsa)
    ensures InBlocks(ssa, ZERO)
  {
  }

  lemma NoExits(f: Forest, l: LoopId)
    ensures NestedIn(f, l, ZERO)
  {
  }

  lemma MadeNotUndef(g: Cfg, h: BlockId, v: Value)
    requires MadeIn(g, h, v)
    ensures !v.Undef?
  {
  }

  lemma OwnMadeIn(ssa: RegisterSsa, f: Forest, l: LoopId, v: Value, b: BlockId)
    requires ForestOf(ssa.g, f) && OwnBlock(ssa.g, f, l, b) && v.Result? && Holds(ssa.g.blocks[b], v.op)
    ensures MadeIn(ssa.g, f.loops[l].header, v)
  {
    hide ForestOf, InBody;
    OwnInBody(ssa.g, f, l, b);
  }

  lemma NestedAlike(f: Forest, l: LoopId, s: Step, r: Step)
    requires NestedIn(f, l, s) && s.exits == r.exits
    ensures NestedIn(f, l, r)
  {
  }

  lemma ThroughNested(f: Forest, l: LoopId, s: Step, cl: LoopId, step: Step)
    requires NestedIn(f, l, s) && ChildOf(f, l, cl) && NestedIn(f, cl, step)
    ensures NestedIn(f, l, Through(s, cl, step))
  {
    var r := Through(s, cl, step);
    forall i | 0 <= i < |r.exits| ensures ExitNested(f, l, r.exits[i]) {
      if i < |s.exits| {
        assert r.exits[i] == s.exits[i] && ExitNested(f, l, s.exits[i]);
      }
    }
  }

  lemma ExitWalked(k: seq<Op>, ssa: RegisterSsa, f: Forest, l: LoopId, phi: Value, v: Value, s: Step, cl: LoopId,
                   ct: Counter)
    requires FormOf(k, ssa) && LoopOf(ssa, f, l, phi) && ChildOf(f, l, cl) && CounterFedBy(k, ssa, f, cl, ct, v)
    requires v.Result? && Walked(k, ssa, f, l, phi, ct.start, s)
    ensures Walked(k, ssa, f, l, phi, v, Through(s, cl, ct.step))
  {
    hide Ssa.Valid, Moves, ForestOf, CounterIs, Fed, InBody;
    ExitMoves(k, ssa, f, l, phi, v, s, cl, ct);
    var s' := FedFacts(k, ssa, f, cl, ct, v);
    var b: nat :| b < |ssa.g.blocks| && Holds(ssa.g.blocks[b], v.op) && InBody(ssa.g, f.loops[cl].header, b);
    ChildInside(ssa.g, f, l, cl);
    BodyIsBlocks(ssa.g, f, cl, b);
    BodyIsBlocks(ssa.g, f, l, b);
    CounterNested(k, ssa, f, cl, ct.phi.reg, ct);
    ThroughNested(f, l, s, cl, ct.step);
  }

  method Offset(k: seq<Op>, ssa: RegisterSsa, f: Forest, l: LoopId, inner: Inner, v: Value, phi: Value,
                depth: nat) returns (r: Option<Step>)
    requires FormOf(k, ssa) && LoopOf(ssa, f, l, phi) && InnerOf(k, ssa, f, inner)
    ensures r == OffsetOf(k, ssa, f, l, inner, v, phi, depth)
    ensures r.Some? ==> Walked(k, ssa, f, l, phi, v, r.value)
    decreases depth, 1
  {
    hide Ssa.Valid, SeenAt, Dominates, Moves, InBody, ForestOf, AfterOf, OwnOp, InBlocks, InnerOf, CounterIs, Fed;
    if v == phi {
      PhiMoves(k, ssa, f, phi);
      NoReads(ssa);
      NoExits(f, l);
      return Some(ZERO);
    }
    if !v.Result? || v.op >= |k| {
      return None;
    }
    FormValid(k, ssa);
    var own, b := Own(ssa, f, l, v.op);
    if depth == 0 {
      return None;
    }
    if !own {
      if v !in inner {
        return None;
      }
      InnerFacts(k, ssa, f, inner, v);
      var (cl, ct) := inner[v];
      if f.loops[cl].parent != Some(l) {
        return None;
      }
      var s := Offset(k, ssa, f, l, inner, ct.start, phi, depth - 1);
      if s.None? {
        return None;
      }
      ExitWalked(k, ssa, f, l, phi, v, s.value, cl, ct);
      return Some(Through(s.value, cl, ct.step));
    }
    match k[v.op] {
      case Mov(_, src) =>
        r := After(k, ssa, f, l, inner, v, phi, src, None, depth, b);
      case Add(_, x, y) =>
        r := After(k, ssa, f, l, inner, v, phi, x, Some((y, 1)), depth, b);
        if r.None? {
          r := After(k, ssa, f, l, inner, v, phi, y, Some((x, 1)), depth, b);
        }
      case Sub(_, x, y) =>
        r := After(k, ssa, f, l, inner, v, phi, x, Some((y, -1)), depth, b);
      case _ =>
        r := None;
    }
  }

  // The step to one operand and what the statement adds to it.
  method After(k: seq<Op>, ssa: RegisterSsa, f: Forest, l: LoopId, inner: Inner, v: Value, phi: Value, from: Arg,
               plus: Option<(Arg, int)>, depth: nat, ghost b: BlockId) returns (r: Option<Step>)
    requires FormOf(k, ssa) && LoopOf(ssa, f, l, phi) && InnerOf(k, ssa, f, inner) && depth > 0
    requires v.Result? && v.op < |k| && OwnBlock(ssa.g, f, l, b) && Holds(ssa.g.blocks[b], v.op)
    requires Makes(k[v.op], from, plus)
    ensures r == AfterOf(k, ssa, f, l, inner, v.op, phi, from, plus, depth)
    ensures r.Some? ==> Walked(k, ssa, f, l, phi, v, r.value)
    decreases depth, 0
  {
    hide Ssa.Valid, SeenAt, Dominates, Moves, InBody, ForestOf, OffsetOf, ReadAt, InnerOf, NestedIn, MadeIn, OwnBlock;
    if !from.Reg? {
      return None;
    }
    FormValid(k, ssa);
    OwnInBody(ssa.g, f, l, b);
    assert InSomeBlock(ssa.g, v.op);
    var w, at := ValueBefore(ssa, v.op, from.r);
    OneBlock(ssa, at, b, v.op);
    ReadAtIs(ssa, from.r, v.op, b);
    if w.None? {
      return None;
    }
    var s := Offset(k, ssa, f, l, inner, w.value, phi, depth - 1);
    if s.None? {
      return None;
    }
    if plus.None? {
      r := s;
    } else {
      var (a, sign) := plus.value;
      var t := Term(a, v.op, sign);
      if t.None? || !Fits(s.value.constant + t.value.constant) {
        return None;
      }
      r := Some(Step(s.value.constant + t.value.constant, s.value.registers + t.value.registers, s.value.exits));
    }
    MadeNotUndef(ssa.g, f.loops[l].header, w.value);
    StatementMoves(k, ssa, f, l, phi, v, b, from.r, plus, s.value, r.value);
    OwnMadeIn(ssa, f, l, v, b);
    NestedAlike(f, l, s.value, r.value);
  }

  // -- one counter -----------------------------------------------------------------------------------

  method Equal(ssa: RegisterSsa, a: Step, b: Step) returns (same: bool)
    requires Ssa.Valid(ssa) && InBlocks(ssa, a) && InBlocks(ssa, b)
    ensures same <==> Same(ssa, a, b)
  {
    hide Ssa.Valid, SeenAt, ReadAt;
    if a.constant != b.constant || a.exits != b.exits || |a.registers| != |b.registers| {
      return false;
    }
    for i := 0 to |a.registers|
      invariant forall j :: 0 <= j < i ==> SameRead(ssa, a.registers[j], b.registers[j])
    {
      var x, y := a.registers[i], b.registers[i];
      assert x in a.registers && y in b.registers;
      var v, bx := ValueBefore(ssa, x.1, x.0);
      var w, other := ValueBefore(ssa, y.1, y.0);
      ReadAtIs(ssa, x.0, x.1, bx);
      ReadAtIs(ssa, y.0, y.1, other);
      if v != w || x.2 != y.2 {
        return false;
      }
    }
    same := true;
  }

  const WALK_DEPTH: nat := 16

  /**
   * What is looked for: the header's own phi, one value on every entering edge, and one step, not zero, on every
   * other.
   */
  ghost predicate Recognised(k: seq<Op>, ssa: RegisterSsa, f: Forest, l: LoopId, inner: Inner, reg: Register,
                             ct: Counter)
    requires Ssa.Valid(ssa) && ForestOf(ssa.g, f) && l < |f.loops|
  {
    var h := f.loops[l].header;
    && ct.phi == Argument(h, reg) && ct.step != ZERO && Visited(ssa, h)
    && SeenAt(ssa, reg, h, ssa.g.blocks[h].start) == ct.phi
    && (exists from :: IncomingEdge(ssa, h, from) && !FromBody(ssa.g, h, from))
    && (exists from :: IncomingEdge(ssa, h, from) && FromBody(ssa.g, h, from))
    && (forall from :: IncomingEdge(ssa, h, from) ==> EdgeSteps(k, ssa, f, l, inner, h, reg, ct, from))
  }

  ghost predicate EdgeSteps(k: seq<Op>, ssa: RegisterSsa, f: Forest, l: LoopId, inner: Inner, h: BlockId, reg: Register,
                            ct: Counter, from: Option<BlockId>)
    requires Ssa.Valid(ssa) && IncomingEdge(ssa, h, from)
  {
    var v := OnEdge(ssa, h, reg, from);
    if FromBody(ssa.g, h, from) then
      var s := OffsetOf(k, ssa, f, l, inner, v, ct.phi, WALK_DEPTH);
      s.Some? && Same(ssa, s.value, ct.step)
    else v == ct.start
  }

  type Incomings = seq<(Option<BlockId>, Value)>

  // The first edges into a header: what enters by them, and the steps of those of the loop.
  ghost predicate Split(k: seq<Op>, ssa: RegisterSsa, f: Forest, l: LoopId, inner: Inner, h: BlockId, phi: Value,
                        edges: Incomings,
                        starts: seq<Value>, steps: seq<Option<Step>>)
    requires Ssa.Valid(ssa)
  {
    && (forall i :: 0 <= i < |edges| ==> TakenBy(k, ssa, f, l, inner, h, phi, edges[i], starts, steps))
    && (forall v :: v in starts ==> exists i :: 0 <= i < |edges| && !FromBody(ssa.g, h, edges[i].0) && edges[i].1 == v)
    && (forall s :: s in steps ==> exists i :: 0 <= i < |edges| && IsStep(k, ssa, f, l, inner, h, phi, edges[i], s))
    && (forall i :: 0 <= i < |edges| && FromBody(ssa.g, h, edges[i].0) ==> StepMoves(k, ssa, f, l, inner, phi, edges[i].1))
  }

  ghost predicate IsStep(k: seq<Op>, ssa: RegisterSsa, f: Forest, l: LoopId, inner: Inner, h: BlockId, phi: Value,
                         e: (Option<BlockId>, Value), s: Option<Step>)
    requires Ssa.Valid(ssa)
  {
    FromBody(ssa.g, h, e.0) && s == OffsetOf(k, ssa, f, l, inner, e.1, phi, WALK_DEPTH)
  }

  ghost predicate TakenBy(k: seq<Op>, ssa: RegisterSsa, f: Forest, l: LoopId, inner: Inner, h: BlockId, phi: Value,
                          e: (Option<BlockId>, Value), starts: seq<Value>, steps: seq<Option<Step>>)
    requires Ssa.Valid(ssa)
  {
    if FromBody(ssa.g, h, e.0) then OffsetOf(k, ssa, f, l, inner, e.1, phi, WALK_DEPTH) in steps else e.1 in starts
  }

  ghost predicate StepMoves(k: seq<Op>, ssa: RegisterSsa, f: Forest, l: LoopId, inner: Inner, phi: Value, v: Value)
    requires Ssa.Valid(ssa)
  {
    var s := OffsetOf(k, ssa, f, l, inner, v, phi, WALK_DEPTH);
    s.Some? ==> Walked(k, ssa, f, l, phi, v, s.value)
  }

  lemma SplitNext(k: seq<Op>, ssa: RegisterSsa, f: Forest, l: LoopId, inner: Inner, h: BlockId, phi: Value,
                  edges: Incomings,
                  starts: seq<Value>, steps: seq<Option<Step>>, e: (Option<BlockId>, Value))
    requires Ssa.Valid(ssa) && Split(k, ssa, f, l, inner, h, phi, edges, starts, steps)
    requires FromBody(ssa.g, h, e.0) ==> StepMoves(k, ssa, f, l, inner, phi, e.1)
    ensures if FromBody(ssa.g, h, e.0) then
              Split(k, ssa, f, l, inner, h, phi, edges + [e], starts, steps + [OffsetOf(k, ssa, f, l, inner, e.1, phi, WALK_DEPTH)])
            else Split(k, ssa, f, l, inner, h, phi, edges + [e], starts + [e.1], steps)
  {
    hide Ssa.Valid, FromBody, StepMoves, OffsetOf;
    var more := edges + [e];
    assert more[|edges|] == e && forall i :: 0 <= i < |edges| ==> more[i] == edges[i];
    forall v | v in starts ensures exists i :: 0 <= i < |more| && !FromBody(ssa.g, h, more[i].0) && more[i].1 == v {
      var i :| 0 <= i < |edges| && !FromBody(ssa.g, h, edges[i].0) && edges[i].1 == v;
      assert more[i] == edges[i];
    }
    forall s | s in steps
      ensures exists i :: 0 <= i < |more| && IsStep(k, ssa, f, l, inner, h, phi, more[i], s)
    {
      var i :| 0 <= i < |edges| && IsStep(k, ssa, f, l, inner, h, phi, edges[i], s);
      assert more[i] == edges[i];
    }
  }

  // Every edge of the header, with what the phi takes by it.
  ghost predicate AllEdges(ssa: RegisterSsa, h: BlockId, reg: Register, edges: Incomings)
    requires Ssa.Valid(ssa)
  {
    forall from, v :: (from, v) in edges <==> IncomingEdge(ssa, h, from) && v == OnEdge(ssa, h, reg, from)
  }

  lemma LoopBlocks(g: Cfg, f: Forest, l: LoopId)
    requires ForestOf(g, f) && l < |f.loops|
    ensures forall x: nat :: x in f.loops[l].blocks <==> InBody(g, f.loops[l].header, x)
  {
    hide DominanceOf, Nested, InBody;
  }

  lemma EdgeListed(ssa: RegisterSsa, h: BlockId, reg: Register, edges: Incomings, from: Option<BlockId>)
    requires Ssa.Valid(ssa) && AllEdges(ssa, h, reg, edges) && IncomingEdge(ssa, h, from)
    ensures exists i :: 0 <= i < |edges| && edges[i] == (from, OnEdge(ssa, h, reg, from))
  {
    hide Ssa.Valid, OnEdge, IncomingEdge;
    assert (from, OnEdge(ssa, h, reg, from)) in edges;
  }

  // What recognising asks of the split edges.
  lemma SplitMeans(k: seq<Op>, ssa: RegisterSsa, f: Forest, l: LoopId, inner: Inner, reg: Register, edges: Incomings,
                   starts: seq<Value>, steps: seq<Option<Step>>, ct: Counter)
    requires Ssa.Valid(ssa) && ForestOf(ssa.g, f) && l < |f.loops| && AllEdges(ssa, f.loops[l].header, reg, edges)
    requires Split(k, ssa, f, l, inner, f.loops[l].header, Argument(f.loops[l].header, reg), edges, starts, steps)
    requires Recognised(k, ssa, f, l, inner, reg, ct)
    ensures starts != [] && steps != [] && starts[0] == ct.start && (forall v :: v in starts ==> v == ct.start)
    ensures forall i :: 0 <= i < |steps| ==> steps[i].Some? && Same(ssa, steps[i].value, ct.step)
  {
    hide Ssa.Valid, FromBody, OffsetOf, Same, ForestOf, OnEdge, IncomingEdge, SeenAt, StepMoves;
    var h := f.loops[l].header;
    var into :| IncomingEdge(ssa, h, into) && !FromBody(ssa.g, h, into);
    EdgeListed(ssa, h, reg, edges, into);
    var back :| IncomingEdge(ssa, h, back) && FromBody(ssa.g, h, back);
    EdgeListed(ssa, h, reg, edges, back);
    forall v | v in starts ensures v == ct.start {
      var i :| 0 <= i < |edges| && !FromBody(ssa.g, h, edges[i].0) && edges[i].1 == v;
      assert (edges[i].0, edges[i].1) in edges;
      assert EdgeSteps(k, ssa, f, l, inner, h, reg, ct, edges[i].0);
    }
    assert starts[0] in starts;
    forall i | 0 <= i < |steps| ensures steps[i].Some? && Same(ssa, steps[i].value, ct.step) {
      assert steps[i] in steps;
      var j :| 0 <= j < |edges| && IsStep(k, ssa, f, l, inner, h, ct.phi, edges[j], steps[i]);
      assert (edges[j].0, edges[j].1) in edges;
      assert EdgeSteps(k, ssa, f, l, inner, h, reg, ct, edges[j].0);
    }
  }

  lemma OtherSeen(k: seq<Op>, ssa: RegisterSsa, f: Forest, l: LoopId, inner: Inner, reg: Register, seen: Option<Value>)
    requires Ssa.Valid(ssa) && ForestOf(ssa.g, f) && l < |f.loops| && ssa.g.Has(f.loops[l].header)
    requires seen != Some(Argument(f.loops[l].header, reg))
    requires var h := f.loops[l].header; seen == if Visited(ssa, h) then Some(SeenAt(ssa, reg, h, ssa.g.blocks[h].start)) else None
    ensures forall ct :: !Recognised(k, ssa, f, l, inner, reg, ct)
  {
    hide Ssa.Valid, SeenAt, ForestOf, IncomingEdge, EdgeSteps, FromBody;
  }

  lemma StepBlocks(k: seq<Op>, ssa: RegisterSsa, f: Forest, l: LoopId, inner: Inner, h: BlockId, phi: Value,
                   edges: Incomings,
                   starts: seq<Value>, steps: seq<Option<Step>>)
    requires Ssa.Valid(ssa) && Split(k, ssa, f, l, inner, h, phi, edges, starts, steps)
    ensures forall i :: 0 <= i < |steps| && steps[i].Some? ==> InBlocks(ssa, steps[i].value)
  {
    hide Ssa.Valid, FromBody, OffsetOf, InBlocks, Moves;
    forall i | 0 <= i < |steps| && steps[i].Some? ensures InBlocks(ssa, steps[i].value) {
      assert steps[i] in steps;
      var j :| 0 <= j < |edges| && IsStep(k, ssa, f, l, inner, h, phi, edges[j], steps[i]);
    }
  }

  lemma NoOneStart(k: seq<Op>, ssa: RegisterSsa, f: Forest, l: LoopId, inner: Inner, reg: Register, edges: Incomings,
                   starts: seq<Value>, steps: seq<Option<Step>>)
    requires Ssa.Valid(ssa) && ForestOf(ssa.g, f) && l < |f.loops| && AllEdges(ssa, f.loops[l].header, reg, edges)
    requires Split(k, ssa, f, l, inner, f.loops[l].header, Argument(f.loops[l].header, reg), edges, starts, steps)
    requires starts == [] || steps == [] || steps[0].None? || (exists v :: v in starts && v != starts[0])
    ensures forall ct :: !Recognised(k, ssa, f, l, inner, reg, ct)
  {
    hide Ssa.Valid, Split, ForestOf, AllEdges, Recognised, Same;
    forall ct ensures !Recognised(k, ssa, f, l, inner, reg, ct) {
      if Recognised(k, ssa, f, l, inner, reg, ct) {
        SplitMeans(k, ssa, f, l, inner, reg, edges, starts, steps, ct);
      }
    }
  }

  lemma SameAsOne(ssa: RegisterSsa, a: Step, b: Step, c: Step)
    requires Ssa.Valid(ssa) && Same(ssa, a, c) && Same(ssa, b, c)
    ensures Same(ssa, a, b)
  {
    hide Ssa.Valid, ReadAt;
    forall i | 0 <= i < |a.registers| ensures SameRead(ssa, a.registers[i], b.registers[i]) {
      assert SameRead(ssa, a.registers[i], c.registers[i]) && SameRead(ssa, b.registers[i], c.registers[i]);
    }
  }

  lemma StepsDiffer(k: seq<Op>, ssa: RegisterSsa, f: Forest, l: LoopId, inner: Inner, reg: Register, edges: Incomings,
                    starts: seq<Value>, steps: seq<Option<Step>>, i: nat)
    requires Ssa.Valid(ssa) && ForestOf(ssa.g, f) && l < |f.loops| && AllEdges(ssa, f.loops[l].header, reg, edges)
    requires Split(k, ssa, f, l, inner, f.loops[l].header, Argument(f.loops[l].header, reg), edges, starts, steps)
    requires i < |steps| && steps[0].Some? && !(steps[i].Some? && Same(ssa, steps[i].value, steps[0].value))
    ensures forall ct :: !Recognised(k, ssa, f, l, inner, reg, ct)
  {
    hide Ssa.Valid, Split, ForestOf, AllEdges, Recognised, Same;
    forall ct ensures !Recognised(k, ssa, f, l, inner, reg, ct) {
      if Recognised(k, ssa, f, l, inner, reg, ct) {
        SplitMeans(k, ssa, f, l, inner, reg, edges, starts, steps, ct);
        SameAsOne(ssa, steps[i].value, steps[0].value, ct.step);
      }
    }
  }

  lemma SameZero(ssa: RegisterSsa, s: Step)
    requires Ssa.Valid(ssa) && Same(ssa, ZERO, s)
    ensures s == ZERO
  {
  }

  lemma NotZeroStep(k: seq<Op>, ssa: RegisterSsa, f: Forest, l: LoopId, inner: Inner, reg: Register, ct: Counter)
    requires Ssa.Valid(ssa) && ForestOf(ssa.g, f) && l < |f.loops| && Recognised(k, ssa, f, l, inner, reg, ct)
    ensures ct.step != ZERO
  {
    hide Ssa.Valid, ForestOf, SeenAt, IncomingEdge, EdgeSteps, FromBody;
  }

  lemma StepIsZero(k: seq<Op>, ssa: RegisterSsa, f: Forest, l: LoopId, inner: Inner, reg: Register, edges: Incomings,
                   starts: seq<Value>, steps: seq<Option<Step>>)
    requires Ssa.Valid(ssa) && ForestOf(ssa.g, f) && l < |f.loops| && AllEdges(ssa, f.loops[l].header, reg, edges)
    requires Split(k, ssa, f, l, inner, f.loops[l].header, Argument(f.loops[l].header, reg), edges, starts, steps)
    requires steps != [] && steps[0] == Some(ZERO)
    ensures forall ct :: !Recognised(k, ssa, f, l, inner, reg, ct)
  {
    hide Ssa.Valid, Split, ForestOf, AllEdges, Recognised, SameRead;
    forall ct ensures !Recognised(k, ssa, f, l, inner, reg, ct) {
      if Recognised(k, ssa, f, l, inner, reg, ct) {
        SplitMeans(k, ssa, f, l, inner, reg, edges, starts, steps, ct);
        NotZeroStep(k, ssa, f, l, inner, reg, ct);
        SameZero(ssa, ct.step);
      }
    }
  }

  lemma StepNested(ssa: RegisterSsa, f: Forest, l: LoopId, s: Step, step: Step)
    requires Ssa.Valid(ssa) && NestedIn(f, l, s) && Same(ssa, s, step)
    ensures NestedIn(f, l, step)
  {
    hide Ssa.Valid, SameRead;
    NestedAlike(f, l, s, step);
  }

  lemma CounterFound(k: seq<Op>, ssa: RegisterSsa, f: Forest, l: LoopId, inner: Inner, reg: Register,
                     edges: Incomings, starts: seq<Value>,
               steps: seq<Option<Step>>, ct: Counter)
    requires Ssa.Valid(ssa) && ForestOf(ssa.g, f) && l < |f.loops| && AllEdges(ssa, f.loops[l].header, reg, edges)
    requires Split(k, ssa, f, l, inner, f.loops[l].header, Argument(f.loops[l].header, reg), edges, starts, steps)
    requires ct.phi == Argument(f.loops[l].header, reg) && ct.step != ZERO && starts != [] && steps != []
    requires Visited(ssa, f.loops[l].header)
    requires SeenAt(ssa, reg, f.loops[l].header, ssa.g.blocks[f.loops[l].header].start) == ct.phi
    requires forall v :: v in starts ==> v == ct.start
    requires forall j :: 0 <= j < |steps| ==> steps[j].Some? && Same(ssa, steps[j].value, ct.step)
    ensures Recognised(k, ssa, f, l, inner, reg, ct) && CounterIs(k, ssa, f, l, reg, ct)
  {
    hide Ssa.Valid, SeenAt, Moves, ForestOf, OnEdge, IncomingEdge, Same, OffsetOf, InBlocks, InBody, NestedIn, MadeIn;
    var h := f.loops[l].header;
    assert starts[0] in starts && steps[0] in steps;
    var i :| 0 <= i < |edges| && !FromBody(ssa.g, h, edges[i].0) && edges[i].1 == starts[0];
    assert (edges[i].0, edges[i].1) in edges;
    var j :| 0 <= j < |edges| && IsStep(k, ssa, f, l, inner, h, ct.phi, edges[j], steps[0]);
    assert (edges[j].0, edges[j].1) in edges;
    StepNested(ssa, f, l, steps[0].value, ct.step);
    forall from | IncomingEdge(ssa, h, from)
      ensures EdgeSteps(k, ssa, f, l, inner, h, reg, ct, from) && EdgeFits(k, ssa, f, h, reg, ct, from)
    {
      EdgeListed(ssa, h, reg, edges, from);
      var n :| 0 <= n < |edges| && edges[n] == (from, OnEdge(ssa, h, reg, from));
      assert TakenBy(k, ssa, f, l, inner, h, ct.phi, edges[n], starts, steps);
      if FromBody(ssa.g, h, from) {
        assert StepMoves(k, ssa, f, l, inner, ct.phi, edges[n].1);
      }
    }
  }

  lemma NothingSplit(k: seq<Op>, ssa: RegisterSsa, f: Forest, l: LoopId, inner: Inner, h: BlockId, phi: Value)
    requires Ssa.Valid(ssa)
    ensures Split(k, ssa, f, l, inner, h, phi, [], [], [])
  {
  }

  lemma EveryEdge(ssa: RegisterSsa, h: BlockId, reg: Register, edges: Incomings)
    requires Ssa.Valid(ssa)
    requires forall from, v :: (from, v) in edges <==> IncomingEdge(ssa, h, from) && v == OnEdge(ssa, h, reg, from)
    ensures AllEdges(ssa, h, reg, edges)
  {
    hide Ssa.Valid, OnEdge, IncomingEdge;
  }

  // What the edges into the header take, the loop's own as steps.
  method SplitEdges(k: seq<Op>, ssa: RegisterSsa, f: Forest, l: LoopId, inner: Inner, phi: Value, edges: Incomings)
    returns (starts: seq<Value>, steps: seq<Option<Step>>)
    requires FormOf(k, ssa) && LoopOf(ssa, f, l, phi) && InnerOf(k, ssa, f, inner)
    ensures Split(k, ssa, f, l, inner, phi.block, phi, edges, starts, steps)
  {
    hide Ssa.Valid, SeenAt, Moves, InBody, ForestOf, Split, InBlocks, OffsetOf;
    FormValid(k, ssa);
    var lp := f.loops[l];
    LoopBlocks(ssa.g, f, l);
    starts, steps := [], [];
    NothingSplit(k, ssa, f, l, inner, phi.block, phi);
    assert edges[..0] == [];
    for i := 0 to |edges|
      invariant Split(k, ssa, f, l, inner, phi.block, phi, edges[..i], starts, steps)
    {
      var edge: (Option<BlockId>, Value) := edges[i];
      var (p, v) := edge;
      assert edges[..i + 1] == edges[..i] + [edge];
      if p.Some? && p.value in lp.blocks {
        var step := Offset(k, ssa, f, l, inner, v, phi, WALK_DEPTH);
        SplitNext(k, ssa, f, l, inner, phi.block, phi, edges[..i], starts, steps, edge);
        steps := steps + [step];
      } else {
        SplitNext(k, ssa, f, l, inner, phi.block, phi, edges[..i], starts, steps, edge);
        starts := starts + [v];
      }
    }
    assert edges[..|edges|] == edges;
  }

  /** The counter `reg` is at the header of the loop: found exactly where there is one to recognise. */
  method FindCounter(k: seq<Op>, ssa: RegisterSsa, f: Forest, l: LoopId, inner: Inner, reg: Register)
    returns (r: Option<Counter>)
    requires FormOf(k, ssa) && ForestOf(ssa.g, f) && l < |f.loops| && InnerOf(k, ssa, f, inner)
    requires ssa.g.Has(f.loops[l].header) && Holds(ssa.g.blocks[f.loops[l].header], ssa.g.blocks[f.loops[l].header].start)
    ensures r.Some? ==> Recognised(k, ssa, f, l, inner, reg, r.value) && CounterIs(k, ssa, f, l, reg, r.value)
    ensures r.None? ==> forall ct :: !Recognised(k, ssa, f, l, inner, reg, ct)
  {
    hide Ssa.Valid, SeenAt, Dominates, Moves, InBody, ForestOf, Split, Same, InBlocks, OnEdge, OffsetOf, Recognised, CounterIs,
      AllEdges, FromBody, StepMoves, IncomingEdge;
    FormValid(k, ssa);
    var lp := f.loops[l];
    var h := lp.header;
    var seen, at := ValueBefore(ssa, ssa.g.blocks[h].start, reg);
    OneBlock(ssa, at, h, ssa.g.blocks[h].start);
    if seen != Some(Argument(h, reg)) {
      OtherSeen(k, ssa, f, l, inner, reg, seen);
      return None;
    }
    var phi := Argument(h, reg);
    var edges: Incomings := Incoming(ssa, phi);
    EveryEdge(ssa, h, reg, edges);
    var starts: seq<Value>, steps: seq<Option<Step>> := SplitEdges(k, ssa, f, l, inner, phi, edges);
    if starts == [] || steps == [] || steps[0].None? || (exists v :: v in starts && v != starts[0]) {
      NoOneStart(k, ssa, f, l, inner, reg, edges, starts, steps);
      return None;
    }
    var step := steps[0].value;
    StepBlocks(k, ssa, f, l, inner, h, phi, edges, starts, steps);
    for i := 0 to |steps|
      invariant forall j :: 0 <= j < i ==> steps[j].Some? && Same(ssa, steps[j].value, step)
    {
      var same := false;
      if steps[i].Some? {
        same := Equal(ssa, steps[i].value, step);
      }
      if !same {
        StepsDiffer(k, ssa, f, l, inner, reg, edges, starts, steps, i);
        return None;
      }
    }
    if step == ZERO {
      StepIsZero(k, ssa, f, l, inner, reg, edges, starts, steps);
      return None;
    }
    r := Some(Counter(phi, starts[0], step));
    CounterFound(k, ssa, f, l, inner, reg, edges, starts, steps, r.value);
  }

  // -- every loop's counters --------------------------------------------------------------------------

  // Each register of the list that is a counter of the loop, once for each time it is listed.
  ghost predicate CountersOf(k: seq<Op>, ssa: RegisterSsa, f: Forest, l: LoopId, inner: Inner, regs: seq<Register>,
                             found: seq<Counter>)
    requires Ssa.Valid(ssa) && ForestOf(ssa.g, f) && l < |f.loops|
  {
    && (forall i :: 0 <= i < |found| ==> FoundOf(k, ssa, f, l, inner, regs, found[i]))
    && (forall reg, ct :: reg in regs && Recognised(k, ssa, f, l, inner, reg, ct) ==> FoundFor(found, reg))
  }

  ghost predicate FoundOf(k: seq<Op>, ssa: RegisterSsa, f: Forest, l: LoopId, inner: Inner, regs: seq<Register>,
                          ct: Counter)
    requires Ssa.Valid(ssa) && ForestOf(ssa.g, f) && l < |f.loops|
  {
    ct.phi.reg in regs && Recognised(k, ssa, f, l, inner, ct.phi.reg, ct) && CounterIs(k, ssa, f, l, ct.phi.reg, ct)
  }

  ghost predicate FoundFor(found: seq<Counter>, reg: Register) {
    exists i :: 0 <= i < |found| && found[i].phi.reg == reg
  }

  lemma CountersNext(k: seq<Op>, ssa: RegisterSsa, f: Forest, l: LoopId, inner: Inner, regs: seq<Register>,
                     found: seq<Counter>, reg: Register, r: Option<Counter>)
    requires Ssa.Valid(ssa) && ForestOf(ssa.g, f) && l < |f.loops| && CountersOf(k, ssa, f, l, inner, regs, found)
    requires r.Some? ==> Recognised(k, ssa, f, l, inner, reg, r.value) && CounterIs(k, ssa, f, l, reg, r.value)
    requires r.None? ==> forall ct :: !Recognised(k, ssa, f, l, inner, reg, ct)
    ensures CountersOf(k, ssa, f, l, inner, regs + [reg], if r.Some? then found + [r.value] else found)
  {
    hide Ssa.Valid, ForestOf, Recognised, CounterIs;
    var more := if r.Some? then found + [r.value] else found;
    if r.Some? {
      CounterNested(k, ssa, f, l, reg, r.value);
      assert more[|found|].phi.reg == reg;
    }
    forall i | 0 <= i < |more| ensures FoundOf(k, ssa, f, l, inner, regs + [reg], more[i]) {
      if i < |found| {
        assert FoundOf(k, ssa, f, l, inner, regs, found[i]);
      }
    }
    forall x, ct | x in regs + [reg] && Recognised(k, ssa, f, l, inner, x, ct) ensures FoundFor(more, x) {
      if x in regs {
        assert FoundFor(found, x);
        var i :| 0 <= i < |found| && found[i].phi.reg == x;
        assert more[i] == found[i];
      }
    }
  }

  /** The counters among the registers a loop writes. */
  method LoopCounters(k: seq<Op>, ssa: RegisterSsa, f: Forest, l: LoopId, inner: Inner, regs: seq<Register>)
    returns (found: seq<Counter>)
    requires FormOf(k, ssa) && ForestOf(ssa.g, f) && l < |f.loops| && InnerOf(k, ssa, f, inner)
    requires ssa.g.Has(f.loops[l].header) && Holds(ssa.g.blocks[f.loops[l].header], ssa.g.blocks[f.loops[l].header].start)
    ensures CountersOf(k, ssa, f, l, inner, regs, found)
  {
    hide Ssa.Valid, ForestOf, InnerOf, Recognised, CounterIs;
    FormValid(k, ssa);
    found := [];
    for i := 0 to |regs|
      invariant CountersOf(k, ssa, f, l, inner, regs[..i], found)
    {
      assert regs[..i + 1] == regs[..i] + [regs[i]];
      var r := FindCounter(k, ssa, f, l, inner, regs[i]);
      CountersNext(k, ssa, f, l, inner, regs[..i], found, regs[i], r);
      if r.Some? {
        found := found + [r.value];
      }
    }
    assert regs[..|regs|] == regs;
  }

  // Fed back by one of these edges.
  ghost predicate FedFirst(g: Cfg, h: BlockId, edges: Incomings, v: Value) {
    exists i :: 0 <= i < |edges| && FromBody(g, h, edges[i].0) && edges[i].1 == v
  }

  lemma FedNext(g: Cfg, h: BlockId, edges: Incomings, e: (Option<BlockId>, Value))
    ensures forall v :: FedFirst(g, h, edges + [e], v) <==> FedFirst(g, h, edges, v) || (FromBody(g, h, e.0) && e.1 == v)
  {
    hide FromBody;
    var more := edges + [e];
    forall v ensures FedFirst(g, h, more, v) <==> FedFirst(g, h, edges, v) || (FromBody(g, h, e.0) && e.1 == v) {
      if FedFirst(g, h, edges, v) {
        var i :| 0 <= i < |edges| && FromBody(g, h, edges[i].0) && edges[i].1 == v;
        assert more[i] == edges[i];
      }
      if FromBody(g, h, e.0) && e.1 == v {
        assert more[|edges|] == e;
      }
    }
  }

  lemma AllFed(ssa: RegisterSsa, h: BlockId, reg: Register, edges: Incomings)
    requires Ssa.Valid(ssa) && AllEdges(ssa, h, reg, edges)
    ensures forall v :: FedFirst(ssa.g, h, edges, v) <==> Fed(ssa, h, reg, v)
  {
    hide Ssa.Valid, FromBody, OnEdge, IncomingEdge;
    forall v ensures FedFirst(ssa.g, h, edges, v) <==> Fed(ssa, h, reg, v) {
      if FedFirst(ssa.g, h, edges, v) {
        var i :| 0 <= i < |edges| && FromBody(ssa.g, h, edges[i].0) && edges[i].1 == v;
        assert (edges[i].0, edges[i].1) in edges;
      }
      if Fed(ssa, h, reg, v) {
        var from: Option<BlockId> :| IncomingEdge(ssa, h, from) && FromBody(ssa.g, h, from) && OnEdge(ssa, h, reg, from) == v;
        EdgeListed(ssa, h, reg, edges, from);
      }
    }
  }

  lemma InnerNext(k: seq<Op>, ssa: RegisterSsa, f: Forest, l: LoopId, ct: Counter, inner: Inner, v: Value)
    requires Ssa.Valid(ssa) && ForestOf(ssa.g, f) && InnerOf(k, ssa, f, inner) && CounterFedBy(k, ssa, f, l, ct, v)
    ensures InnerOf(k, ssa, f, inner[v := (l, ct)])
  {
    hide Ssa.Valid, ForestOf, CounterFedBy;
  }

  /** What a counter's loop feeds it back is known by it from then on. */
  method AddFed(k: seq<Op>, ssa: RegisterSsa, f: Forest, l: LoopId, ct: Counter, inner: Inner) returns (more: Inner)
    requires FormOf(k, ssa) && ForestOf(ssa.g, f) && l < |f.loops| && InnerOf(k, ssa, f, inner)
    requires CounterIs(k, ssa, f, l, ct.phi.reg, ct)
    ensures InnerOf(k, ssa, f, more)
    ensures forall v :: v in more <==> v in inner || Fed(ssa, f.loops[l].header, ct.phi.reg, v)
    ensures forall v :: v in more ==>
      more[v] == if Fed(ssa, f.loops[l].header, ct.phi.reg, v) then (l, ct) else inner[v]
  {
    hide Ssa.Valid, SeenAt, InBody, ForestOf, InnerOf, CounterIs, OnEdge, IncomingEdge;
    FormValid(k, ssa);
    LoopBlocks(ssa.g, f, l);
    HeaderHas(ssa.g, f, l);
    CounterNested(k, ssa, f, l, ct.phi.reg, ct);
    var lp := f.loops[l];
    var edges: Incomings := Incoming(ssa, ct.phi);
    more := inner;
    for i := 0 to |edges|
      invariant InnerOf(k, ssa, f, more)
      invariant forall v :: v in more <==> v in inner || FedFirst(ssa.g, lp.header, edges[..i], v)
      invariant forall v :: v in more ==> more[v] == if FedFirst(ssa.g, lp.header, edges[..i], v) then (l, ct) else inner[v]
    {
      var edge: (Option<BlockId>, Value) := edges[i];
      var (p, v) := edge;
      assert edges[..i + 1] == edges[..i] + [edge];
      FedNext(ssa.g, lp.header, edges[..i], edge);
      if p.Some? && p.value in lp.blocks {
        assert edge in edges;
        assert FromBody(ssa.g, lp.header, p) && Fed(ssa, lp.header, ct.phi.reg, v);
        InnerNext(k, ssa, f, l, ct, more, v);
        more := more[v := (l, ct)];
      }
    }
    assert edges[..|edges|] == edges;
    AllFed(ssa, lp.header, ct.phi.reg, edges);
  }

  // The counters found of the loops, by their phis.
  ghost predicate AllCounters(k: seq<Op>, ssa: RegisterSsa, f: Forest, found: map<Value, (LoopId, Counter)>)
    requires Ssa.Valid(ssa) && ForestOf(ssa.g, f)
  {
    forall v :: v in found ==> CounterAt(k, ssa, f, found[v].0, found[v].1, v)
  }

  ghost predicate CounterAt(k: seq<Op>, ssa: RegisterSsa, f: Forest, l: LoopId, ct: Counter, phi: Value)
    requires Ssa.Valid(ssa) && ForestOf(ssa.g, f)
  {
    l < |f.loops| && ct.phi == phi && CounterIs(k, ssa, f, l, phi.reg, ct)
  }

  lemma NoInner(k: seq<Op>, ssa: RegisterSsa, f: Forest)
    requires Ssa.Valid(ssa) && ForestOf(ssa.g, f)
    ensures InnerOf(k, ssa, f, map[])
  {
  }

  lemma HereCounters(k: seq<Op>, ssa: RegisterSsa, f: Forest, l: LoopId, inner: Inner, regs: seq<Register>,
                     found: seq<Counter>)
    requires Ssa.Valid(ssa) && ForestOf(ssa.g, f) && l < |f.loops| && CountersOf(k, ssa, f, l, inner, regs, found)
    ensures forall i :: 0 <= i < |found| ==> CounterIs(k, ssa, f, l, found[i].phi.reg, found[i])
  {
    hide Ssa.Valid, ForestOf, CounterIs, Recognised;
    forall i | 0 <= i < |found| ensures CounterIs(k, ssa, f, l, found[i].phi.reg, found[i]) {
      assert FoundOf(k, ssa, f, l, inner, regs, found[i]);
    }
  }

  /** The loops in order, each looked at with the counters of those before it known: all it finds are counters. */
  method Counters(k: seq<Op>, ssa: RegisterSsa, f: Forest, order: seq<LoopId>, regs: seq<seq<Register>>)
    returns (found: map<Value, (LoopId, Counter)>, inner: Inner)
    requires FormOf(k, ssa) && ForestOf(ssa.g, f) && |regs| == |f.loops| && forall l :: l in order ==> l < |f.loops|
    requires forall l: nat :: l < |f.loops| ==>
      ssa.g.Has(f.loops[l].header) && Holds(ssa.g.blocks[f.loops[l].header], ssa.g.blocks[f.loops[l].header].start)
    ensures AllCounters(k, ssa, f, found) && InnerOf(k, ssa, f, inner)
  {
    hide Ssa.Valid, ForestOf, InnerOf, CounterIs, CountersOf, Fed;
    FormValid(k, ssa);
    found, inner := map[], map[];
    NoInner(k, ssa, f);
    for i := 0 to |order|
      invariant AllCounters(k, ssa, f, found) && InnerOf(k, ssa, f, inner)
    {
      var l := order[i];
      assert l in order;
      var here := LoopCounters(k, ssa, f, l, inner, regs[l]);
      HereCounters(k, ssa, f, l, inner, regs[l], here);
      for j := 0 to |here|
        invariant AllCounters(k, ssa, f, found) && InnerOf(k, ssa, f, inner)
      {
        inner := AddFed(k, ssa, f, l, here[j], inner);
        found := found[here[j].phi := (l, here[j])];
      }
    }
  }
}
