/** The symbols a symbolic expression reads. */
module SymExprSymbols {
  import opened SymExprs

  function Symbols(e: SymExpr): set<Symbol>
    decreases e
  {
    match e
    case Const(_) => {}
    case Sym(s) => {s}
    case Sum(ts) => AllSymbols(ts)
    case Prod(fs) => AllSymbols(fs)
    case CeilDiv(x, _) => Symbols(x)
    case FloorDiv(x, _) => Symbols(x)
    case Mod(x, _) => Symbols(x)
    case Min(a, b) => Symbols(a) + Symbols(b)
    case Max(a, b) => Symbols(a) + Symbols(b)
  }

  function AllSymbols(ts: seq<SymExpr>): set<Symbol>
    decreases ts
  {
    if ts == [] then {} else Symbols(ts[0]) + AllSymbols(ts[1..])
  }

  ghost predicate AgreeOn(ss: set<Symbol>, env: Env, env': Env) {
    forall s :: s in ss ==> env(s) == env'(s)
  }

  /** The value is that of its symbols. */
  lemma {:induction false} ValueOfSymbols(e: SymExpr, env: Env, env': Env)
    requires AgreeOn(Symbols(e), env, env')
    ensures Value(e, env) == Value(e, env')
    decreases e
  {
    match e
    case Sum(ts) => AllOfSymbols(ts, env, env');
    case Prod(fs) => AllOfSymbols(fs, env, env');
    case CeilDiv(x, _) => ValueOfSymbols(x, env, env');
    case FloorDiv(x, _) => ValueOfSymbols(x, env, env');
    case Mod(x, _) => ValueOfSymbols(x, env, env');
    case Min(a, b) => ValueOfSymbols(a, env, env'); ValueOfSymbols(b, env, env');
    case Max(a, b) => ValueOfSymbols(a, env, env'); ValueOfSymbols(b, env, env');
    case _ =>
  }

  lemma {:induction false} AllOfSymbols(ts: seq<SymExpr>, env: Env, env': Env)
    requires AgreeOn(AllSymbols(ts), env, env')
    ensures Total(ts, env) == Total(ts, env') && Product(ts, env) == Product(ts, env')
    decreases ts
  {
    if ts != [] {
      ValueOfSymbols(ts[0], env, env');
      AllOfSymbols(ts[1..], env, env');
    }
  }
}
