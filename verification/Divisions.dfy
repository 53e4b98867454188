/** Floor division by a positive number. */
module Divisions {
  lemma Associates(x: int, y: int, z: int)
    ensures (x * y) * z == x * (y * z)
  {
  }

  lemma Distributes(c: int, x: int, y: int)
    ensures c * (x + y) == c * x + c * y
  {
  }

  lemma Grows(m: int, d: int)
    requires m > 0 && d >= 1
    ensures m * d >= m && m * d >= d
  {
    assert m * d == m * (d - 1) + m;
    assert m * (d - 1) >= 0;
    assert m * d == (m - 1) * d + d;
    assert (m - 1) * d >= 0;
  }

  /** A quotient and a remainder below the divisor are the ones division gives. */
  lemma QuotientIs(x: int, m: int, q: int, r: int)
    requires m > 0 && 0 <= r < m && x == m * q + r
    ensures x / m == q && x % m == r
  {
    var d := x / m - q;
    assert x == m * (x / m) + x % m;
    assert m * d == r - x % m by { Distributes(m, q, d); }
    assert m * -d == -(m * d);
    if d > 0 {
      Grows(m, d);
    } else if d < 0 {
      Grows(m, -d);
    }
  }

  /** A multiple adds to the quotient alone. */
  lemma MultipleSum(x: int, y: int, m: int)
    requires m > 0 && x % m == 0
    ensures (x + y) % m == y % m && (x + y) / m == x / m + y / m
  {
    var k := x / m;
    assert x == m * k + x % m;
    assert y == m * (y / m) + y % m;
    Distributes(m, k, y / m);
    QuotientIs(x + y, m, k + y / m, y % m);
  }

  lemma MultipleTimes(k: int, p: int, m: int)
    requires m > 0 && k % m == 0
    ensures (k * p) % m == 0 && (k * p) / m == (k / m) * p
  {
    assert k == m * (k / m) + k % m;
    Associates(m, k / m, p);
    QuotientIs(k * p, m, (k / m) * p, 0);
  }

  /** Rounding up, by the next multiple below or by negation. */
  lemma RoundsUp(x: int, d: int)
    requires d > 0
    ensures (x + (d - 1)) / d == -(-x / d)
    ensures x / d + (if x % d != 0 then 1 else 0) == -(-x / d)
  {
    var q, r := x / d, x % d;
    assert x == d * q + r;
    if r == 0 {
      QuotientIs(x + (d - 1), d, q, d - 1);
      assert d * -q == -(d * q);
      QuotientIs(-x, d, -q, 0);
    } else {
      assert d * (q + 1) == d * q + d;
      QuotientIs(x + (d - 1), d, q + 1, r - 1);
      assert d * -(q + 1) == -(d * q) - d;
      QuotientIs(-x, d, -(q + 1), d - r);
    }
  }

  lemma FloorGrows(x: int, y: int, d: int)
    requires d > 0 && x <= y
    ensures x / d <= y / d
  {
    var p, q := x / d, y / d;
    assert x == d * p + x % d;
    assert y == d * q + y % d;
    Distributes(d, q, p - q);
    if p > q {
      Grows(d, p - q);
    }
  }

  lemma FloorFits(l: int, d: int)
    requires d > 0
    ensures l >= 0 ==> 0 <= l / d <= l
    ensures l < 0 ==> l <= l / d < 0
  {
    var q := l / d;
    assert l == d * q + l % d;
    if q > 0 {
      Grows(d, q);
    } else if q < 0 {
      assert (d - 1) * -q == -((d - 1) * q);
      assert d * q == q + (d - 1) * q;
      if d > 1 {
        assert (d - 1) * -q >= d - 1 by { Grows(d - 1, -q); }
      }
      assert d * -q >= d by { Grows(d, -q); }
      assert d * -q == -(d * q);
    }
  }

  lemma CeilFits(l: int, d: int)
    requires d > 0
    ensures l >= 0 ==> 0 <= -(-l / d) <= l
    ensures l < 0 ==> l <= -(-l / d) <= 0
  {
    FloorFits(-l, d);
  }

  /** A quotient is at most `m` exactly below the next multiple. */
  lemma FloorAtMost(x: int, d: int, m: int)
    requires d > 0
    ensures x / d <= m <==> x < (m + 1) * d
  {
    var q, r := x / d, x % d;
    var k := m + 1 - q;
    assert x == d * q + r;
    assert (m + 1) * d == d * q + d * k by { Distributes(d, q, k); }
    assert d * -k == -(d * k);
    if k > 0 {
      Grows(d, k);
    } else if k < 0 {
      Grows(d, -k);
    }
  }

  lemma CeilAtMost(x: int, d: int, m: int)
    requires d > 0
    ensures -(-x / d) <= m <==> x <= m * d
  {
    FloorAtMost(-x, d, -m - 1);
    assert (-m - 1 + 1) * d == -(m * d);
  }
}
