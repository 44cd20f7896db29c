/** Row-major and blocked storage of a square matrix as two readings of the same four coordinates. */
module Layout {
  import opened Modular

  /** Block row, block column, row and column within the block. */
  datatype Coord = Coord(bi: nat, bj: nat, i: nat, j: nat)

  /** `nb` block rows and columns of `b` by `b` blocks. */
  datatype Shape = Shape(nb: nat, b: nat) {
    function N(): nat { nb * b }

    function Size(): nat { nb * nb * b * b }
  }

  function Quo(x: nat, m: nat): nat
    requires m > 0
  {
    x / m
  }

  function Rem(x: nat, m: nat): nat
    requires m > 0
  {
    x % m
  }

  predicate Fits(s: Shape, c: Coord) {
    c.bi < s.nb && c.bj < s.nb && c.i < s.b && c.j < s.b
  }

  /** The place of an element in blocked storage. */
  function Blocked(s: Shape, c: Coord): nat {
    ((c.bi * s.nb + c.bj) * s.b + c.i) * s.b + c.j
  }

  function AtBlocked(s: Shape, x: nat): Coord
    requires s.nb > 0 && s.b > 0
  {
    Coord(Quo(Quo(Quo(x, s.b), s.b), s.nb), Rem(Quo(Quo(x, s.b), s.b), s.nb), Rem(Quo(x, s.b), s.b), Rem(x, s.b))
  }

  /** The place of an element in row-major storage. */
  function RowMajor(s: Shape, c: Coord): nat {
    ((c.bi * s.b + c.i) * s.nb + c.bj) * s.b + c.j
  }

  function AtRowMajor(s: Shape, y: nat): Coord
    requires s.nb > 0 && s.b > 0
  {
    Coord(Quo(Quo(Quo(y, s.b), s.nb), s.b), Rem(Quo(y, s.b), s.nb), Rem(Quo(Quo(y, s.b), s.nb), s.b), Rem(y, s.b))
  }

  lemma DigitBound(q: nat, m: nat, r: nat, k: nat)
    requires q < k && r < m
    ensures q * m + r < k * m
  {
    assert (q + 1) * m <= k * m by { MulMonotone(q + 1, k, m); }
    assert (q + 1) * m == q * m + m;
  }

  lemma MulMonotone(a: nat, b: nat, m: nat)
    requires a <= b
    ensures a * m <= b * m
  {
  }

  lemma QuotientBound(x: nat, m: nat, k: nat)
    requires m > 0 && x < k * m
    ensures x / m < k && x % m < m && x == x / m * m + x % m
  {
    if x / m >= k { MulMonotone(k, x / m, m); }
  }

  /** A place in blocked storage and the coordinates of its element determine each other. */
  lemma BlockedRoundTrip(s: Shape, c: Coord)
    requires Fits(s, c)
    ensures Blocked(s, c) < s.Size() && AtBlocked(s, Blocked(s, c)) == c
  {
    var u := c.bi * s.nb + c.bj;
    var v := u * s.b + c.i;
    DigitBound(c.bi, s.nb, c.bj, s.nb);
    DigitBound(u, s.b, c.i, s.nb * s.nb);
    DigitBound(v, s.b, c.j, s.nb * s.nb * s.b);
    DivModOf(c.bi, s.nb, c.bj);
    DivModOf(u, s.b, c.i);
    DivModOf(v, s.b, c.j);
  }

  lemma RowMajorRoundTrip(s: Shape, c: Coord)
    requires Fits(s, c)
    ensures RowMajor(s, c) < s.Size() && AtRowMajor(s, RowMajor(s, c)) == c
  {
    var u := c.bi * s.b + c.i;
    var v := u * s.nb + c.bj;
    DigitBound(c.bi, s.b, c.i, s.nb);
    DigitBound(u, s.nb, c.bj, s.nb * s.b);
    DigitBound(v, s.b, c.j, s.nb * s.b * s.nb);
    SizeReordered(s);
    DivModOf(c.bi, s.b, c.i);
    DivModOf(u, s.nb, c.bj);
    DivModOf(v, s.b, c.j);
  }

  lemma SizeReordered(s: Shape)
    ensures s.nb * s.b * s.nb * s.b == s.Size() == s.N() * s.N()
  {
    Swap3(s.nb, s.b, s.nb);
    Assoc(s.nb * s.b, s.nb, s.b);
  }

  lemma Swap3(a: nat, b: nat, c: nat)
    ensures a * b * c == a * c * b
  {
  }

  lemma Assoc(a: nat, b: nat, c: nat)
    ensures a * b * c == a * (b * c)
  {
  }

  lemma AtBlockedFits(s: Shape, x: nat)
    requires x < s.Size()
    ensures s.nb > 0 && s.b > 0 && Fits(s, AtBlocked(s, x)) && Blocked(s, AtBlocked(s, x)) == x
  {
    if s.nb == 0 || s.b == 0 { ZeroSize(s); }
    QuotientBound(x, s.b, s.nb * s.nb * s.b);
    QuotientBound(x / s.b, s.b, s.nb * s.nb);
    QuotientBound(x / s.b / s.b, s.nb, s.nb);
  }

  lemma ZeroSize(s: Shape)
    requires s.nb == 0 || s.b == 0
    ensures s.Size() == 0
  {
  }

  lemma AtRowMajorFits(s: Shape, y: nat)
    requires y < s.Size()
    ensures s.nb > 0 && s.b > 0 && Fits(s, AtRowMajor(s, y)) && RowMajor(s, AtRowMajor(s, y)) == y
  {
    if s.nb == 0 || s.b == 0 { ZeroSize(s); }
    SizeReordered(s);
    QuotientBound(y, s.b, s.nb * s.b * s.nb);
    QuotientBound(y / s.b, s.nb, s.nb * s.b);
    QuotientBound(y / s.b / s.nb, s.b, s.nb);
  }

  /** The index arithmetic of `blocked.c` is that of blocked storage. */
  lemma BlockedIndex(s: Shape, c: Coord)
    ensures (c.bi * s.nb + c.bj) * (s.b * s.b) + c.i * s.b + c.j == Blocked(s, c)
  {
    var u := c.bi * s.nb + c.bj;
    Assoc(u, s.b, s.b);
    assert (u * s.b + c.i) * s.b == u * s.b * s.b + c.i * s.b;
  }

  /** And its pointer walk through a row-major matrix that of row-major storage. */
  lemma RowMajorIndex(s: Shape, c: Coord)
    ensures c.bi * s.b * s.N() + c.bj * s.b + c.i * s.N() + c.j == RowMajor(s, c)
    ensures (c.bi * s.b + c.i) * s.N() + (c.bj * s.b + c.j) == RowMajor(s, c)
  {
    var u, n := c.bi * s.b + c.i, s.N();
    assert u * n == c.bi * s.b * n + c.i * n;
    Assoc(u, s.nb, s.b);
    assert (u * s.nb + c.bj) * s.b == u * s.nb * s.b + c.bj * s.b;
  }
}
