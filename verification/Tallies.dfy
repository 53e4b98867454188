/** Electing a lane and tallying a set, lane by lane and warp by warp. */
module Tallies {
  import opened Wrappers
  import opened Lanes
  import opened Participation

  lemma ElectedIs(active: Pred, tid: Index, shape: Shape, env: Place)
    requires Count(shape) > 0
    ensures var linear := Linear(tid, shape);
      var base := linear - linear % WARP;
      var end := if base + WARP < Count(shape) then base + WARP else Count(shape);
      Elected(active, tid, shape, env) == Candidates(active, shape, env, linear, base, end, false, false)
  {
    hide Eval, Candidates;
  }

  lemma CandidatesStep(active: Pred, shape: Shape, env: Place, linear: int, l: int, end: int, any: bool, own: bool)
    requires Count(shape) > 0
    ensures Candidates(active, shape, env, linear, l, end, any, own) ==
      if l >= end then (if own then Maybe else No) else
      match Eval(active, Thread(l, shape), shape, Lowest, env)
      case Yes => if !any then (if l == linear then Yes else No) else if own || l == linear then Maybe else No
      case Maybe => Candidates(active, shape, env, linear, l + 1, end, true, own || l == linear)
      case No => Candidates(active, shape, env, linear, l + 1, end, any, own)
  {
    hide Eval, Thread, Count;
  }

  /** Whether `tid` is the lane its warp elects: the lanes that may be active, up to the first that certainly is. */
  method ElectedLane(active: Pred, tid: Index, shape: Shape, env: Place) returns (r: Tri)
    requires Count(shape) > 0
    ensures r == Elected(active, tid, shape, env)
  {
    ElectedIs(active, tid, shape, env);
    hide Eval, Elected, Candidates, Thread, Linear, Count;
    var linear := Linear(tid, shape);
    var base := linear - linear % WARP;
    var end := if base + WARP < Count(shape) then base + WARP else Count(shape);
    var candidates: seq<int> := [];
    var l := base;
    while l < end
      invariant Elected(active, tid, shape, env) ==
                Candidates(active, shape, env, linear, l, end, candidates != [], linear in candidates)
      decreases end - l
    {
      CandidatesStep(active, shape, env, linear, l, end, candidates != [], linear in candidates);
      match Eval(active, Thread(l, shape), shape, Lowest, env) {
        case Yes =>
          if candidates == [] {
            return if l == linear then Yes else No;
          }
          return if linear in candidates + [l] then Maybe else No;
        case Maybe =>
          candidates := candidates + [l];
        case No =>
      }
      l := l + 1;
    }
    CandidatesStep(active, shape, env, linear, l, end, candidates != [], linear in candidates);
    r := if linear in candidates then Maybe else No;
  }

  // The lanes of a warp in the set, and those that may be.
  method CountLanes(p: Pred, shape: Shape, leader: Leader, env: Place, from: nat, end: nat) returns (yes: nat,
                    maybe: nat)
    requires Count(shape) > 0 && from <= end
    ensures (yes, maybe) == LanesAs(p, shape, leader, env, from, end)
  {
    hide Eval;
    yes, maybe := 0, 0;
    for l := from to end
      invariant var (a, b) := LanesAs(p, shape, leader, env, l, end);
        LanesAs(p, shape, leader, env, from, end) == (yes + a, maybe + b)
    {
      match Eval(p, Thread(l, shape), shape, leader, env)
      case Yes => yes := yes + 1;
      case Maybe => maybe := maybe + 1;
      case No =>
    }
  }

  lemma NoLeaders(p: Pred, shape: Shape, env: Place, from: nat, end: nat)
    requires Count(shape) > 0
    ensures OverLeaders(p, shape, env, [], from, end) == (NO_LANES, 0)
  {
  }

  lemma NextLeader(p: Pred, shape: Shape, env: Place, tried: seq<Leader>, i: nat, from: nat, end: nat)
    requires Count(shape) > 0 && i < |tried|
    ensures var (low, high) := OverLeaders(p, shape, env, tried[..i], from, end);
      var (yes, maybe) := LanesAs(p, shape, tried[i], env, from, end);
      OverLeaders(p, shape, env, tried[..i + 1], from, end) ==
        (if yes < low then yes else low, if high < yes + maybe then yes + maybe else high)
  {
    hide LanesAs;
    assert tried[..i + 1][..i] == tried[..i];
  }

  // A warp's bounds over the leaders tried.
  method CountWarp(p: Pred, shape: Shape, env: Place, from: nat, end: nat) returns (low: nat, high: nat)
    requires Count(shape) > 0 && from <= end
    ensures (low, high) == WarpTally(p, shape, env, from, end)
  {
    hide Eval, LanesAs, Leaders, SomeCertain, OverLeaders, HasCondition;
    var active := ElectActive(p);
    NoLeaders(p, shape, env, from, end);
    if active.None? {
      var yes, maybe := CountLanes(p, shape, Lowest, env, from, end);
      return yes, yes + maybe;
    }
    var tried := Leaders(active.value, shape, env, from, end) +
      if SomeCertain(active.value, shape, env, from, end) then [] else [Nobody];
    low, high := NO_LANES, 0;
    var i := 0;
    while i < |tried|
      invariant 0 <= i <= |tried| && (low, high) == OverLeaders(p, shape, env, tried[..i], from, end)
    {
      var yes, maybe := CountLanes(p, shape, tried[i], env, from, end);
      NextLeader(p, shape, env, tried, i, from, end);
      low, high := if yes < low then yes else low, if high < yes + maybe then yes + maybe else high;
      i := i + 1;
    }
    assert tried[..i] == tried;
  }

  lemma NoWarps(p: Pred, shape: Shape, env: Place)
    ensures Count(shape) > 0 ==> WarpsTally(p, shape, env, 0) == (Counted(0, 0), Counted(0, 0))
  {
    hide WarpTally;
  }

  lemma NextWarp(p: Pred, shape: Shape, env: Place, w: nat)
    requires Count(shape) > 0 && w < Warps(shape) && WarpStart(w) <= WarpEnd(w, shape)
    ensures var (threads, warps) := WarpsTally(p, shape, env, w);
      var (low, high) := WarpTally(p, shape, env, WarpStart(w), WarpEnd(w, shape));
      WarpsTally(p, shape, env, w + 1) ==
        (Counted(threads.certain + low, threads.possible + high),
         Counted(warps.certain + if low > 0 then 1 else 0, warps.possible + if high > 0 then 1 else 0))
  {
    hide WarpTally, WarpStart, WarpEnd;
  }

  /**
   * Adds up the bounds found for each warp: of its lanes, and of whether it has any.
   */
  method TallySet(p: Pred, shape: Shape, env: Place) returns (r: Option<(Counted, Counted)>)
    ensures r == Tally(p, shape, env)
  {
    hide Eval, WarpTally, WarpStart, WarpEnd, HasCondition, WarpsTally, Warps;
    NoWarps(p, shape, env);
    if !HasCondition(p) || Count(shape) == 0 {
      return None;
    }
    var threads, warps := Counted(0, 0), Counted(0, 0);
    for w := 0 to Warps(shape)
      invariant (threads, warps) == WarpsTally(p, shape, env, w)
    {
      WarpInside(w, shape);
      var low, high := CountWarp(p, shape, env, WarpStart(w), WarpEnd(w, shape));
      NextWarp(p, shape, env, w);
      threads := Counted(threads.certain + low, threads.possible + high);
      warps := Counted(warps.certain + if low > 0 then 1 else 0, warps.possible + if high > 0 then 1 else 0);
    }
    r := Some((threads, warps));
  }

  lemma WarpInside(w: nat, shape: Shape)
    requires w < Warps(shape)
    ensures WarpStart(w) <= WarpEnd(w, shape)
  {
  }
}
