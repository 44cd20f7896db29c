/** Blocked matrix multiplication against the naive one, over any addition and multiplication. */
module Matrix {
  import opened Layout
  import opened Modular

  /** Element arithmetic: nothing is assumed of it, neither associativity nor commutativity. */
  datatype Arith<!T> = Arith(zero: T, add: (T, T) -> T, mul: (T, T) -> T)

  /** What `Mat_mult` has accumulated for row `r` and column `c` after `k` products. */
  function Naive<T>(ar: Arith<T>, a: seq<T>, b: seq<T>, n: nat, r: nat, c: nat, k: nat): T
    requires |a| == |b| == n * n && r < n && c < n && k <= n
    decreases k
  {
    if k == 0 then ar.zero
    else
      DigitBound(r, n, k - 1, n);
      DigitBound(k - 1, n, c, n);
      ar.add(Naive(ar, a, b, n, r, c, k - 1), ar.mul(a[r * n + (k - 1)], b[(k - 1) * n + c]))
  }

  /** The full sum for the element at place `x` of row-major storage. */
  function NaiveCell<T>(ar: Arith<T>, a: seq<T>, b: seq<T>, n: nat, x: nat): T
    requires |a| == |b| == n * n && x < n * n
  {
    if n == 0 then ar.zero
    else
      QuotientBound(x, n, n);
      Naive(ar, a, b, n, Quo(x, n), Rem(x, n), n)
  }

  /** That place `i * n + j` holds row `i`, column `j`. */
  lemma NaiveCellAt<T>(ar: Arith<T>, a: seq<T>, b: seq<T>, n: nat, i: nat, j: nat)
    requires |a| == |b| == n * n && i < n && j < n
    ensures i * n + j < n * n && NaiveCell(ar, a, b, n, i * n + j) == Naive(ar, a, b, n, i, j, n)
  {
    DigitBound(i, n, j, n);
    DivModOf(i, n, j);
  }

  /** The sum by its partial sums, whichever way these are given: they start at zero, and each adds the product of the
      next element of the row of `a` with the next one of the column of `b`. */
  lemma {:induction false} NaiveBySums<T>(ar: Arith<T>, a: seq<T>, b: seq<T>, n: nat, i: nat, j: nat, sums: seq<T>,
                                          k: nat, x: nat)
    requires |a| == |b| == n * n && i < n && j < n && k <= n && |sums| == n + 1 && sums[0] == ar.zero
    requires x == i * n + j < n * n && forall l: nat | l < n :: Adds(ar, a, b, n, i, j, sums, l)
    ensures Naive(ar, a, b, n, i, j, k) == sums[k]
    ensures k == n ==> NaiveCell(ar, a, b, n, x) == sums[n]
  {
    if k > 0 {
      NaiveBySums(ar, a, b, n, i, j, sums, k - 1, x);
      assert Adds(ar, a, b, n, i, j, sums, k - 1);
    }
    if k == n { NaiveCellAt(ar, a, b, n, i, j); }
  }

  ghost predicate Adds<T>(ar: Arith<T>, a: seq<T>, b: seq<T>, n: nat, i: nat, j: nat, sums: seq<T>, l: nat) {
    i * n + l < |a| && l * n + j < |b| && l + 1 < |sums|
    && sums[l + 1] == ar.add(sums[l], ar.mul(a[i * n + l], b[l * n + j]))
  }

  /** What the blocked algorithm has accumulated for `c` after `kb` blocks and `k` products of the next. */
  function InBlocks<T>(ar: Arith<T>, a: seq<T>, b: seq<T>, s: Shape, c: Coord, kb: nat, k: nat): T
    requires |a| == |b| == s.Size() && Fits(s, c) && k <= s.b && (kb < s.nb || (kb == s.nb && k == 0))
    decreases kb, k
  {
    if k > 0 then
      var ca, cb := Coord(c.bi, kb, c.i, k - 1), Coord(kb, c.bj, k - 1, c.j);
      BlockedRoundTrip(s, ca);
      BlockedRoundTrip(s, cb);
      ar.add(InBlocks(ar, a, b, s, c, kb, k - 1), ar.mul(a[Blocked(s, ca)], b[Blocked(s, cb)]))
    else if kb > 0 then InBlocks(ar, a, b, s, c, kb - 1, s.b)
    else ar.zero
  }

  /** `blocked` is the matrix `a` in blocked storage. */
  ghost predicate InBlockedStorage<T>(s: Shape, a: seq<T>, blocked: seq<T>) {
    |a| == |blocked| == s.Size()
    && forall x | 0 <= x < |blocked| :: RowMajorOf(s, x) < |a| && blocked[x] == a[RowMajorOf(s, x)]
  }

  /** Where the element at place `x` of blocked storage is in row-major storage. */
  function RowMajorOf(s: Shape, x: nat): (y: nat)
    requires x < s.Size()
    ensures y < s.Size()
  {
    AtBlockedFits(s, x);
    RowMajorRoundTrip(s, AtBlocked(s, x));
    RowMajor(s, AtBlocked(s, x))
  }

  /** Blocked storage by row and column: block after block, row by row within each. */
  lemma StoredByRowAndColumn<T>(s: Shape, a: seq<T>, blocked: seq<T>, bi: nat, bj: nat, i: nat, j: nat,
                                row: nat, col: nat, x: nat, y: nat)
    requires InBlockedStorage(s, a, blocked) && bi < s.nb && bj < s.nb && i < s.b && j < s.b
    requires row == bi * s.b + i && col == bj * s.b + j
    requires x == (bi * s.nb + bj) * (s.b * s.b) + i * s.b + j && y == row * s.N() + col
    ensures x < |blocked| && y < |a| && blocked[x] == a[y]
  {
    var c := Coord(bi, bj, i, j);
    StoredAt(s, a, blocked, c);
    BlockedIndex(s, c);
    RowMajorIndex(s, c);
  }

  lemma StoredAt<T>(s: Shape, a: seq<T>, blocked: seq<T>, c: Coord)
    requires InBlockedStorage(s, a, blocked) && Fits(s, c)
    ensures Blocked(s, c) < s.Size() && RowMajor(s, c) < s.Size() && blocked[Blocked(s, c)] == a[RowMajor(s, c)]
  {
    BlockedRoundTrip(s, c);
    RowMajorRoundTrip(s, c);
    assert RowMajorOf(s, Blocked(s, c)) == RowMajor(s, c);
  }

  /** Row, column and number of products, as the naive algorithm counts them. */
  lemma Counted(s: Shape, c: Coord, kb: nat, k: nat)
    requires Fits(s, c) && k <= s.b && (kb < s.nb || (kb == s.nb && k == 0))
    ensures s.Size() == s.N() * s.N() && RowOf(s, c) < s.N() && ColOf(s, c) < s.N() && Count(s, kb, k) <= s.N()
  {
    SizeReordered(s);
    DigitBound(c.bi, s.b, c.i, s.nb);
    DigitBound(c.bj, s.b, c.j, s.nb);
    if k > 0 { DigitBound(kb, s.b, k - 1, s.nb); } else { MulMonotone(kb, s.nb, s.b); }
  }

  function RowOf(s: Shape, c: Coord): nat { c.bi * s.b + c.i }

  function ColOf(s: Shape, c: Coord): nat { c.bj * s.b + c.j }

  function Count(s: Shape, kb: nat, k: nat): nat { kb * s.b + k }

  /** The place of row `r` and column `c` in row-major storage. */
  function Index(r: nat, n: nat, c: nat): nat { r * n + c }

  lemma RowFactor<T>(a: seq<T>, ab: seq<T>, s: Shape, c: Coord, kb: nat, k: nat, n: nat, x: nat, y: nat)
    requires InBlockedStorage(s, a, ab) && Fits(s, c) && kb < s.nb && k < s.b && n == s.N()
    requires x == Blocked(s, Coord(c.bi, kb, c.i, k)) && y == Index(RowOf(s, c), n, Count(s, kb, k))
    ensures x < |ab| && y < |a| && ab[x] == a[y]
  {
    StoredAt(s, a, ab, Coord(c.bi, kb, c.i, k));
    RowMajorIndex(s, Coord(c.bi, kb, c.i, k));
  }

  lemma ColFactor<T>(a: seq<T>, ab: seq<T>, s: Shape, c: Coord, kb: nat, k: nat, n: nat, x: nat, y: nat)
    requires InBlockedStorage(s, a, ab) && Fits(s, c) && kb < s.nb && k < s.b && n == s.N()
    requires x == Blocked(s, Coord(kb, c.bj, k, c.j)) && y == Index(Count(s, kb, k), n, ColOf(s, c))
    ensures x < |ab| && y < |a| && ab[x] == a[y]
  {
    StoredAt(s, a, ab, Coord(kb, c.bj, k, c.j));
    RowMajorIndex(s, Coord(kb, c.bj, k, c.j));
  }

  /** The next product of the blocked sum, and of the naive one. */
  lemma BlockedNext<T>(ar: Arith<T>, ab: seq<T>, bb: seq<T>, s: Shape, c: Coord, kb: nat, k: nat, x: nat, y: nat)
    requires |ab| == |bb| == s.Size() && Fits(s, c) && kb < s.nb && 0 < k <= s.b
    requires x == Blocked(s, Coord(c.bi, kb, c.i, k - 1)) < |ab| && y == Blocked(s, Coord(kb, c.bj, k - 1, c.j)) < |bb|
    ensures InBlocks(ar, ab, bb, s, c, kb, k) == ar.add(InBlocks(ar, ab, bb, s, c, kb, k - 1), ar.mul(ab[x], bb[y]))
  {
  }

  lemma NaiveNext<T>(ar: Arith<T>, a: seq<T>, b: seq<T>, n: nat, r: nat, q: nat, t: nat, x: nat, y: nat)
    requires |a| == |b| == n * n && r < n && q < n && t < n && x == Index(r, n, t) < |a| && y == Index(t, n, q) < |b|
    ensures Naive(ar, a, b, n, r, q, t + 1) == ar.add(Naive(ar, a, b, n, r, q, t), ar.mul(a[x], b[y]))
  {
  }

  /** Both algorithms add the same products in the same order, so their sums agree for any arithmetic. */
  lemma {:induction false} SameSums<T>(ar: Arith<T>, a: seq<T>, b: seq<T>, ab: seq<T>, bb: seq<T>, s: Shape, c: Coord,
                                       kb: nat, k: nat, n: nat, r: nat, q: nat, t: nat)
    requires InBlockedStorage(s, a, ab) && InBlockedStorage(s, b, bb)
    requires Fits(s, c) && k <= s.b && (kb < s.nb || (kb == s.nb && k == 0))
    requires n == s.N() && s.Size() == n * n && r == RowOf(s, c) < n && q == ColOf(s, c) < n
          && t == Count(s, kb, k) <= n
    ensures InBlocks(ar, ab, bb, s, c, kb, k) == Naive(ar, a, b, n, r, q, t)
    decreases kb, k
  {
    if k > 0 {
      var u := Count(s, kb, k - 1);
      var xa, xb := Blocked(s, Coord(c.bi, kb, c.i, k - 1)), Blocked(s, Coord(kb, c.bj, k - 1, c.j));
      SameSums(ar, a, b, ab, bb, s, c, kb, k - 1, n, r, q, u);
      RowFactor(a, ab, s, c, kb, k - 1, n, xa, Index(r, n, u));
      ColFactor(b, bb, s, c, kb, k - 1, n, xb, Index(u, n, q));
      BlockedNext(ar, ab, bb, s, c, kb, k, xa, xb);
      NaiveNext(ar, a, b, n, r, q, u, Index(r, n, u), Index(u, n, q));
    } else if kb > 0 {
      assert (kb - 1) * s.b + s.b == kb * s.b;
      SameSums(ar, a, b, ab, bb, s, c, kb - 1, s.b, n, r, q, t);
    }
  }
}
