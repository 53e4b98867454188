/** Affine forms with symbolic coefficients over what a thread, a CTA, a trip or an unread value gives. */
module AffineExprs {
  import opened Wrappers
  import opened Divisions
  import opened SymExprs
  import opened SymExprValues
  import opened SymQuotients
  import Swizzles

  datatype Axis = X | Y | Z

  datatype Var =
    | Tid(axis: Axis)
    | Ctaid(axis: Axis)
    | Iteration(loop: nat)
    | Floor(v: Var, d: Divisor)
    | Rem(v: Var, d: Divisor)
    | Unknown(value: nat)
    | Swizzle(swizzle: Swizzles.XorSwizzle)

  // What each index, counter and unknown value is.
  type Leaf = Var -> int

  predicate IsLeaf(v: Var) {
    !v.Floor? && !v.Rem? && !v.Swizzle?
  }

  function VarValue(v: Var, leaf: Leaf): int
    decreases v
  {
    match v
    case Floor(x, d) => VarValue(x, leaf) / d
    case Rem(x, d) => VarValue(x, leaf) % d
    case Swizzle(s) => Swizzles.Signed(Swizzles.Eval(s, leaf(Tid(X))))
    case _ => leaf(v)
  }

  // Each variable once, with its coefficient, and the base.
  datatype AffineExpr = AffineExpr(terms: seq<(Var, SymExpr)>, base: SymExpr)

  ghost predicate Valid(a: AffineExpr) {
    Shaped(a.base) && ValidTerms(a.terms)
  }

  ghost predicate ValidTerms(terms: seq<(Var, SymExpr)>) {
    && (forall i :: 0 <= i < |terms| ==> Shaped(terms[i].1))
    && (forall i, j :: 0 <= i < j < |terms| ==> terms[i].0 != terms[j].0)
  }

  function TermsValue(terms: seq<(Var, SymExpr)>, leaf: Leaf, env: Env): int {
    if terms == [] then 0
    else Value(terms[0].1, env) * VarValue(terms[0].0, leaf) + TermsValue(terms[1..], leaf, env)
  }

  function FormValue(a: AffineExpr, leaf: Leaf, env: Env): int {
    TermsValue(a.terms, leaf, env) + Value(a.base, env)
  }

  lemma {:induction false} TermsAppend(xs: seq<(Var, SymExpr)>, ys: seq<(Var, SymExpr)>, leaf: Leaf, env: Env)
    ensures TermsValue(xs + ys, leaf, env) == TermsValue(xs, leaf, env) + TermsValue(ys, leaf, env)
  {
    if xs == [] {
      assert xs + ys == ys;
    } else {
      assert (xs + ys)[1..] == xs[1..] + ys;
      TermsAppend(xs[1..], ys, leaf, env);
    }
  }

  lemma OneTerm(t: (Var, SymExpr), leaf: Leaf, env: Env)
    ensures TermsValue([t], leaf, env) == Value(t.1, env) * VarValue(t.0, leaf) == TermProduct(t, leaf, env)
  {
    assert [t][1..] == [];
  }

  // Building forms

  function Base(e: SymExpr): AffineExpr {
    AffineExpr([], e)
  }

  function Term(v: Var, c: SymExpr): AffineExpr {
    AffineExpr(if c == Const(0) then [] else [(v, c)], Const(0))
  }

  function Index(terms: seq<(Var, SymExpr)>, v: Var): (i: nat)
    ensures i <= |terms| && (i < |terms| ==> terms[i].0 == v)
    ensures forall j :: 0 <= j < i ==> terms[j].0 != v
  {
    if terms == [] then 0
    else if terms[0].0 == v then 0
    else
      assert forall j :: 0 < j < |terms| ==> terms[j] == terms[1..][j - 1];
      1 + Index(terms[1..], v)
  }

  // The terms with one more, its coefficient added to its variable's, and gone where they make zero.
  function Insert(terms: seq<(Var, SymExpr)>, t: (Var, SymExpr)): (out: seq<(Var, SymExpr)>)
    requires ValidTerms(terms) && Shaped(t.1)
    ensures ValidTerms(out)
  {
    hide Shaped, Add;
    var i := Index(terms, t.0);
    if i == |terms| then (if t.1 == Const(0) then terms else terms + [t]) else
    var sum := Add(terms[i].1, t.1);
    if sum == Const(0) then terms[..i] + terms[i + 1..] else terms[i := (t.0, sum)]
  }

  function InsertAll(terms: seq<(Var, SymExpr)>, more: seq<(Var, SymExpr)>): (out: seq<(Var, SymExpr)>)
    requires ValidTerms(terms) && ValidTerms(more)
    ensures ValidTerms(out)
    decreases more
  {
    hide Insert, Shaped;
    if more == [] then terms else InsertAll(Insert(terms, more[0]), more[1..])
  }

  function Plus(a: AffineExpr, b: AffineExpr): (r: AffineExpr)
    requires Valid(a) && Valid(b)
    ensures Valid(r)
  {
    AffineExpr(InsertAll(a.terms, b.terms), Add(a.base, b.base))
  }

  lemma InsertValue(terms: seq<(Var, SymExpr)>, t: (Var, SymExpr), leaf: Leaf, env: Env)
    requires ValidTerms(terms) && Shaped(t.1)
    ensures TermsValue(Insert(terms, t), leaf, env) ==
            TermsValue(terms, leaf, env) + Value(t.1, env) * VarValue(t.0, leaf)
  {
    hide TermsValue, Add, Shaped, TermProduct, ValidTerms;
    OneTerm(t, leaf, env);
    ZeroTerm(t.0, leaf, env);
    var i := Index(terms, t.0);
    if i == |terms| {
      TermsAppend(terms, [t], leaf, env);
    } else {
      IndexShaped(terms, i);
      AddTerms(t.0, terms[i].1, t.1, leaf, env);
      ReplaceValue(terms, i, Add(terms[i].1, t.1), leaf, env);
    }
    assert TermProduct(t, leaf, env) == Value(t.1, env) * VarValue(t.0, leaf) by {
      TermProductIs(t, leaf, env);
    }
  }

  // What a term adds to the value.
  ghost function TermProduct(t: (Var, SymExpr), leaf: Leaf, env: Env): int {
    Value(t.1, env) * VarValue(t.0, leaf)
  }

  lemma TermProductIs(t: (Var, SymExpr), leaf: Leaf, env: Env)
    ensures TermProduct(t, leaf, env) == Value(t.1, env) * VarValue(t.0, leaf)
  {
  }

  lemma ZeroTerm(v: Var, leaf: Leaf, env: Env)
    ensures TermProduct((v, Const(0)), leaf, env) == 0
  {
  }

  lemma IndexShaped(terms: seq<(Var, SymExpr)>, i: nat)
    requires i < |terms| && ValidTerms(terms)
    ensures Shaped(terms[i].1)
  {
  }

  lemma AddTerms(v: Var, x: SymExpr, y: SymExpr, leaf: Leaf, env: Env)
    requires Shaped(x) && Shaped(y)
    ensures TermProduct((v, Add(x, y)), leaf, env) == TermProduct((v, x), leaf, env) + TermProduct((v, y), leaf, env)
  {
    hide Value, VarValue, Add, Shaped;
    AddValue(x, y, env);
    SumTimes(Value(x, env), Value(y, env), VarValue(v, leaf));
  }

  // What a term's coefficient replaced, or the term dropped, makes of the value.
  lemma ReplaceValue(terms: seq<(Var, SymExpr)>, i: nat, c: SymExpr, leaf: Leaf, env: Env)
    requires i < |terms|
    ensures var rest := terms[..i] + terms[i + 1..];
      && TermsValue(terms, leaf, env) == TermsValue(rest, leaf, env) + TermProduct(terms[i], leaf, env)
      && TermsValue(terms[i := (terms[i].0, c)], leaf, env) ==
         TermsValue(rest, leaf, env) + TermProduct((terms[i].0, c), leaf, env)
  {
    hide TermProduct, TermsValue;
    SpliceValue(terms[..i], terms[i], terms[i + 1..], leaf, env);
    assert terms == terms[..i] + [terms[i]] + terms[i + 1..];
    SpliceValue(terms[..i], (terms[i].0, c), terms[i + 1..], leaf, env);
    assert terms[i := (terms[i].0, c)] == terms[..i] + [(terms[i].0, c)] + terms[i + 1..];
  }

  lemma SpliceValue(before: seq<(Var, SymExpr)>, t: (Var, SymExpr), after: seq<(Var, SymExpr)>, leaf: Leaf, env: Env)
    ensures TermsValue(before + [t] + after, leaf, env) ==
            TermsValue(before + after, leaf, env) + TermProduct(t, leaf, env)
  {
    hide TermProduct, TermsValue;
    OneTerm(t, leaf, env);
    TermsAppend(before, [t], leaf, env);
    TermsAppend(before + [t], after, leaf, env);
    TermsAppend(before, after, leaf, env);
  }

  lemma {:induction false} InsertAllValue(terms: seq<(Var, SymExpr)>, more: seq<(Var, SymExpr)>, leaf: Leaf, env: Env)
    requires ValidTerms(terms) && ValidTerms(more)
    ensures TermsValue(InsertAll(terms, more), leaf, env) == TermsValue(terms, leaf, env) + TermsValue(more, leaf, env)
    decreases more
  {
    hide Value, VarValue, Insert, Shaped;
    if more != [] {
      InsertValue(terms, more[0], leaf, env);
      InsertAllValue(Insert(terms, more[0]), more[1..], leaf, env);
    }
  }

  /** The sum of two forms has the sum of their values. */
  lemma PlusValue(a: AffineExpr, b: AffineExpr, leaf: Leaf, env: Env)
    requires Valid(a) && Valid(b)
    ensures FormValue(Plus(a, b), leaf, env) == FormValue(a, leaf, env) + FormValue(b, leaf, env)
  {
    hide Value, TermsValue, Add, InsertAll;
    InsertAllValue(a.terms, b.terms, leaf, env);
    AddValue(a.base, b.base, env);
  }

  lemma TermValue(v: Var, c: SymExpr, leaf: Leaf, env: Env)
    ensures FormValue(Term(v, c), leaf, env) == Value(c, env) * VarValue(v, leaf)
  {
    hide VarValue;
    ConstValue(0, env);
    OneTerm((v, c), leaf, env);
  }

  lemma BaseValue(e: SymExpr, leaf: Leaf, env: Env)
    ensures FormValue(Base(e), leaf, env) == Value(e, env)
  {
  }

  function ScaleTerms(c: SymExpr, terms: seq<(Var, SymExpr)>): (out: seq<(Var, SymExpr)>)
    requires Shaped(c) && ValidTerms(terms)
    ensures ValidTerms(out) && |out| == |terms| && forall i :: 0 <= i < |out| ==> out[i].0 == terms[i].0
  {
    if terms == [] then [] else
    hide Mul, Shaped;
    assert forall i :: 0 < i < |terms| ==> terms[i] == terms[1..][i - 1];
    [(terms[0].0, Mul(c, terms[0].1))] + ScaleTerms(c, terms[1..])
  }

  /** Every coefficient and the base times `c`. */
  function Scale(a: AffineExpr, c: SymExpr): (r: AffineExpr)
    requires Valid(a) && Shaped(c)
    ensures Valid(r)
  {
    if c == Const(0) then Base(Const(0)) else AffineExpr(ScaleTerms(c, a.terms), Mul(c, a.base))
  }

  lemma {:induction false} ScaleTermsValue(c: SymExpr, terms: seq<(Var, SymExpr)>, leaf: Leaf, env: Env)
    requires Shaped(c) && ValidTerms(terms)
    ensures TermsValue(ScaleTerms(c, terms), leaf, env) == Value(c, env) * TermsValue(terms, leaf, env)
  {
    hide Value, VarValue, Mul, Shaped;
    if terms != [] {
      var x, v, rest := Value(c, env), VarValue(terms[0].0, leaf), TermsValue(terms[1..], leaf, env);
      ScaleTermsValue(c, terms[1..], leaf, env);
      MulValue(c, terms[0].1, env);
      Associates(x, Value(terms[0].1, env), v);
      Distributes(x, Value(terms[0].1, env) * v, rest);
      assert ScaleTerms(c, terms)[1..] == ScaleTerms(c, terms[1..]);
    }
  }

  lemma ScaleValue(a: AffineExpr, c: SymExpr, leaf: Leaf, env: Env)
    requires Valid(a) && Shaped(c)
    ensures FormValue(Scale(a, c), leaf, env) == Value(c, env) * FormValue(a, leaf, env)
  {
    hide Value, TermsValue, Mul, ScaleTerms;
    if c == Const(0) {
      ConstValue(0, env);
      BaseValue(Const(0), leaf, env);
    } else {
      ScaleTermsValue(c, a.terms, leaf, env);
      MulValue(c, a.base, env);
      Distributes(Value(c, env), TermsValue(a.terms, leaf, env), Value(a.base, env));
    }
  }
}
