/** Division and remainder by a variable divisor. */
module Modular {
  lemma Distribute(c: int, b: int, a: int, m: int)
    requires c == b - a - 1
    ensures c * m == b * m - a * m - m
  {
  }

  lemma ProductBound(c: int, m: int)
    requires m > 0
    ensures c >= 1 ==> c * m >= m
    ensures c <= -1 ==> c * m + m <= 0
  {
  }

  lemma AddDivisor(x: nat, m: nat)
    requires m > 0
    ensures (x + m) % m == x % m && (x + m) / m == x / m + 1
  {
    var a, b, r, s := x / m, (x + m) / m, x % m, (x + m) % m;
    assert x == a * m + r;
    assert x + m == b * m + s;
    Distribute(b - a - 1, b, a, m);
    ProductBound(b - a - 1, m);
  }

  /** A quotient and a remainder below the divisor determine each other. */
  lemma {:induction false} DivModOf(q: nat, m: nat, r: nat)
    requires r < m
    ensures (q * m + r) % m == r && (q * m + r) / m == q
  {
    if q > 0 {
      DivModOf(q - 1, m, r);
      assert q * m + r == (q - 1) * m + r + m;
      AddDivisor((q - 1) * m + r, m);
    }
  }

  lemma ModNext(a: nat, m: nat)
    requires m > 0
    ensures (a + 1) % m == if a % m + 1 == m then 0 else a % m + 1
  {
    var q := a / m;
    assert a == q * m + a % m;
    if a % m + 1 == m {
      assert a + 1 == (q + 1) * m + 0;
      DivModOf(q + 1, m, 0);
    } else {
      DivModOf(q, m, a % m + 1);
    }
  }

  /** Adding at most the divisor comes back to the same remainder only by nothing or by all of it. */
  lemma ModShift(a: nat, d: nat, m: nat)
    requires m > 0 && d <= m
    ensures (a + d) % m == a % m <==> d == 0 || d == m
  {
    var q, r := a / m, a % m;
    assert a == q * m + r;
    if r + d < m {
      DivModOf(q, m, r + d);
    } else {
      assert a + d == (q + 1) * m + (r + d - m);
      if r + d - m < m { DivModOf(q + 1, m, r + d - m); }
    }
  }
}
