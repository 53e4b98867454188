/** Divisors, and the greatest common one by truncating remainders. */
module Divisibility {
  import opened Divisions

  function TruncRem(a: int, b: int): int
    requires b != 0
  {
    var (x, y) := (if a < 0 then -a else a, if b < 0 then -b else b);
    if a < 0 then -(x % y) else x % y
  }

  ghost predicate Divides(d: int, x: int) {
    exists k: int :: x == d * k
  }

  // Euclid's algorithm over truncating remainders, as a loop.
  method Gcd(a: int, b: int) returns (g: nat)
    ensures Divides(g, a) && Divides(g, b)
    ensures a != 0 || b != 0 ==> g > 0
    ensures forall d: int :: Divides(d, a) && Divides(d, b) ==> Divides(d, g)
  {
    var x, y := a, b;
    while y != 0
      invariant forall d: int :: Divides(d, x) && Divides(d, y) <==> Divides(d, a) && Divides(d, b)
      invariant a != 0 || b != 0 ==> x != 0 || y != 0
      decreases if y < 0 then -y else y
    {
      forall d: int ensures Divides(d, x) && Divides(d, y) <==> Divides(d, y) && Divides(d, TruncRem(x, y)) {
        SameDivisors(d, x, y);
      }
      x, y := y, TruncRem(x, y);
    }
    g := if x < 0 then -x else x;
    DividesItself(g, x);
    assert Divides(g, x) && Divides(g, y);
    forall d: int | Divides(d, a) && Divides(d, b) ensures Divides(d, g) {
      NegativeDivides(d, x);
    }
  }

  lemma DividesItself(g: int, x: int)
    requires g == x || g == -x
    ensures Divides(g, x) && Divides(g, 0)
  {
    assert x == g * (if g == x then 1 else -1);
    assert 0 == g * 0;
  }

  lemma NegativeDivides(d: int, x: int)
    requires Divides(d, x)
    ensures Divides(d, -x)
  {
    var k :| x == d * k;
    assert -x == d * -k;
  }

  lemma DividesSum(d: int, x: int, y: int)
    requires Divides(d, x) && Divides(d, y)
    ensures Divides(d, x + y)
  {
    var j :| x == d * j;
    var k :| y == d * k;
    Distributes(d, j, k);
  }

  lemma DividesProduct(d: int, x: int, y: int)
    requires Divides(d, x)
    ensures Divides(d, x * y)
  {
    var k :| x == d * k;
    Associates(d, k, y);
  }

  lemma SameDivisors(d: int, x: int, y: int)
    requires y != 0
    ensures Divides(d, x) && Divides(d, y) <==> Divides(d, y) && Divides(d, TruncRem(x, y))
  {
    var r := TruncRem(x, y);
    var q := TruncatedQuotient(x, y);
    if Divides(d, y) {
      DividesProduct(d, y, q);
      DividesProduct(d, y, -q);
      if Divides(d, x) {
        assert y * -q == -(y * q);
        DividesSum(d, x, y * -q);
      }
      if Divides(d, r) {
        DividesSum(d, y * q, r);
      }
    }
  }

  lemma TruncatedQuotient(x: int, y: int) returns (q: int)
    requires y != 0
    ensures x == y * q + TruncRem(x, y)
  {
    var m, n := if x < 0 then -x else x, if y < 0 then -y else y;
    assert m == n * (m / n) + m % n;
    q := if (x < 0) == (y < 0) then m / n else -(m / n);
    assert n * (m / n) == -((-n) * (m / n));
    assert n * -(m / n) == -(n * (m / n));
  }

  lemma DividesTrans(d: int, e: int, x: int)
    requires Divides(d, e) && Divides(e, x)
    ensures Divides(d, x)
  {
    var k :| x == e * k;
    DividesProduct(d, e, k);
  }

  lemma UnitDivisor(g: int)
    requires g > 0 && Divides(g, 1)
    ensures g == 1
  {
    var k :| 1 == g * k;
    if k > 0 {
      Grows(g, k);
    } else {
      assert g * -k == -(g * k);
      assert g * -k >= 0;
    }
  }

  lemma SelfDivides(x: int)
    ensures Divides(x, x)
  {
    assert x == x * 1;
  }

  lemma DividesNothing(g: int)
    ensures Divides(g, 0)
  {
    assert 0 == g * 0;
  }

  lemma DividesIs(d: int, x: int)
    requires d > 0
    ensures Divides(d, x) <==> x % d == 0
  {
    assert x == d * (x / d) + x % d;
    if k :| x == d * k {
      QuotientIs(x, d, k, 0);
    }
  }

  lemma OneResidue(x: int, y: int, u: int, align: int)
    requires align > 0 && (x + u) % align == 0 && (y + u) % align == 0
    ensures x % align == y % align
  {
    hide Divides;
    DividesIs(align, x + u);
    DividesIs(align, y + u);
    NegativeDivides(align, y + u);
    DividesSum(align, x + u, -(y + u));
    DividesIs(align, x - y);
    assert x + u + -(y + u) == x - y;
    MultipleSum(x - y, y, align);
  }
}
