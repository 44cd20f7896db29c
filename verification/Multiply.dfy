/** The loops of `blocked.c` and `matmul.c` over arrays. */
module Multiply {
  import opened Layout
  import opened Matrix

  /** Where block `(bi, bj)` starts in blocked storage. */
  function Base(s: Shape, bi: nat, bj: nat): nat {
    (bi * s.nb + bj) * (s.b * s.b)
  }

  /** The place `i * b + j` of a block, counted from its start. */
  lemma Place(s: Shape, c: Coord)
    requires Fits(s, c)
    ensures Base(s, c.bi, c.bj) + c.i * s.b + c.j == Blocked(s, c) < s.Size() && AtBlocked(s, Blocked(s, c)) == c
    ensures c.i * s.b + c.j < s.b * s.b
  {
    BlockedIndex(s, c);
    BlockedRoundTrip(s, c);
    DigitBound(c.i, s.b, c.j, s.b);
  }

  /** The places of one block: where they end, and that the next block starts there. */
  lemma BlockRange(s: Shape, bi: nat, bj: nat)
    requires bi < s.nb && bj < s.nb
    ensures Base(s, bi, bj) + s.b * s.b <= s.Size() && Base(s, bi, bj) + s.b * s.b == Base(s, bi, bj + 1)
    ensures Base(s, bi, s.nb) == Base(s, bi + 1, 0)
  {
    var u, q := bi * s.nb + bj, s.b * s.b;
    DigitBound(bi, s.nb, bj, s.nb);
    MulMonotone(u + 1, s.nb * s.nb, q);
    assert (u + 1) * q == u * q + q;
    Assoc(s.nb * s.nb, s.b, s.b);
    assert (bi + 1) * s.nb == bi * s.nb + s.nb;
  }

  /** The value the blocked algorithm has reached for the element at place `x`. */
  function CellAt<T>(ar: Arith<T>, a: seq<T>, b: seq<T>, s: Shape, x: nat, kb: nat, k: nat): T
    requires |a| == |b| == s.Size() && x < s.Size() && k <= s.b && (kb < s.nb || (kb == s.nb && k == 0))
  {
    AtBlockedFits(s, x);
    InBlocks(ar, a, b, s, AtBlocked(s, x), kb, k)
  }

  class Multiplier<T(0,!new)> {
    const ar: Arith<T>
    const s: Shape
    const A: array<T>
    const B: array<T>
    const C: array<T>
    var cp: nat           // C_p, as an index into C

    ghost predicate Valid() {
      A.Length == B.Length == C.Length == s.Size() && A != C && B != C && s.b > 0
    }

    /** The set-up in `main`, for a block order that divides the matrix order. */
    constructor (ar: Arith<T>, n: nat, b: nat)
      requires b > 0 && n % b == 0
      ensures Valid() && s.N() == n && s.b == b && this.ar == ar
      ensures A != B && fresh(A) && fresh(B) && fresh(C)
    {
      this.ar := ar;
      var nBar := n / b;
      s := Shape(nBar, b);
      SizeReordered(Shape(nBar, b));
      A := new T[n * n];
      B := new T[n * n];
      C := new T[n * n];
      cp := 0;
    }

    method ZeroC(bi: nat, bj: nat)
      requires Valid() && bi < s.nb && bj < s.nb
      modifies this, C
      ensures cp == Base(s, bi, bj) && cp + s.b * s.b <= C.Length
      ensures forall x | 0 <= x < C.Length :: C[x] == if cp <= x < cp + s.b * s.b then ar.zero else old(C[x])
    {
      cp := Base(s, bi, bj);
      BlockRange(s, bi, bj);
      forall x | cp <= x < cp + s.b * s.b {
        C[x] := ar.zero;
      }
    }

    /** Adds to the block of C the products of block `(bi, kb)` of A and block `(kb, bj)` of B. */
    method MultAdd(bi: nat, bj: nat, kb: nat)
      requires Valid() && bi < s.nb && bj < s.nb && kb < s.nb && cp == Base(s, bi, bj) && cp + s.b * s.b <= C.Length
      requires forall x | cp <= x < cp + s.b * s.b :: C[x] == CellAt(ar, A[..], B[..], s, x, kb, 0)
      modifies C
      ensures forall x | cp <= x < cp + s.b * s.b :: C[x] == CellAt(ar, A[..], B[..], s, x, kb + 1, 0)
      ensures forall x | 0 <= x < C.Length && !(cp <= x < cp + s.b * s.b) :: C[x] == old(C[x])
    {
      var ap, bp := Base(s, bi, kb), Base(s, kb, bj);
      var i := 0;
      while i < s.b
        invariant 0 <= i <= s.b && 0 <= i * s.b <= s.b * s.b
        invariant forall x | cp <= x < cp + i * s.b :: C[x] == CellAt(ar, A[..], B[..], s, x, kb + 1, 0)
        invariant forall x | cp + i * s.b <= x < cp + s.b * s.b :: C[x] == CellAt(ar, A[..], B[..], s, x, kb, 0)
        invariant forall x | 0 <= x < C.Length && !(cp <= x < cp + s.b * s.b) :: C[x] == old(C[x])
      {
        MulMonotone(i + 1, s.b, s.b);
        assert (i + 1) * s.b == i * s.b + s.b;
        ghost var row := cp + i * s.b;
        var j := 0;
        while j < s.b
          invariant 0 <= j <= s.b
          invariant forall x | cp <= x < row + j :: C[x] == CellAt(ar, A[..], B[..], s, x, kb + 1, 0)
          invariant forall x | row + j <= x < cp + s.b * s.b :: C[x] == CellAt(ar, A[..], B[..], s, x, kb, 0)
          invariant forall x | 0 <= x < C.Length && !(cp <= x < cp + s.b * s.b) :: C[x] == old(C[x])
        {
          MultAddCell(bi, bj, kb, i, j, ap, bp, row + j);
          j := j + 1;
        }
        i := i + 1;
      }
    }

    /** The innermost loop, for one element. */
    method MultAddCell(bi: nat, bj: nat, kb: nat, i: nat, j: nat, ap: nat, bp: nat, ghost x: nat)
      requires Valid() && cp == Base(s, bi, bj) && kb < s.nb && ap == Base(s, bi, kb) && bp == Base(s, kb, bj)
      requires Fits(s, Coord(bi, bj, i, j)) && x == cp + i * s.b + j
      requires x < C.Length && C[x] == CellAt(ar, A[..], B[..], s, x, kb, 0)
      modifies C
      ensures C[..] == old(C[..])[x := CellAt(ar, A[..], B[..], s, x, kb + 1, 0)]
    {
      ghost var c := Coord(bi, bj, i, j);
      Place(s, c);
      var k := 0;
      while k < s.b
        invariant 0 <= k <= s.b
        invariant C[..] == old(C[..])[x := InBlocks(ar, A[..], B[..], s, c, kb, k)]
      {
        Place(s, Coord(bi, kb, i, k));
        Place(s, Coord(kb, bj, k, j));
        C[cp + i * s.b + j] := ar.add(C[cp + i * s.b + j], ar.mul(A[ap + i * s.b + k], B[bp + k * s.b + j]));
        k := k + 1;
      }
    }

    /** Every element of C, in blocked storage, has its full sum. */
    method BlockedMatMult()
      requires Valid()
      modifies this, C
      ensures forall x | 0 <= x < C.Length :: C[x] == CellAt(ar, A[..], B[..], s, x, s.nb, 0)
    {
      ghost var done := 0;
      var bi := 0;
      while bi < s.nb
        invariant 0 <= bi <= s.nb && done == Base(s, bi, 0) <= C.Length
        invariant forall x | 0 <= x < done :: C[x] == CellAt(ar, A[..], B[..], s, x, s.nb, 0)
      {
        var bj := 0;
        while bj < s.nb
          invariant 0 <= bj <= s.nb && done == Base(s, bi, bj) <= C.Length
          invariant forall x | 0 <= x < done :: C[x] == CellAt(ar, A[..], B[..], s, x, s.nb, 0)
        {
          BlockRange(s, bi, bj);
          MultBlock(bi, bj);
          done := done + s.b * s.b;
          bj := bj + 1;
        }
        if s.nb > 0 { BlockRange(s, bi, 0); }
        bi := bi + 1;
      }
      Assoc(s.nb * s.nb, s.b, s.b);
    }

    /** The body of the two outer loops: one block of C. */
    method MultBlock(bi: nat, bj: nat)
      requires Valid() && bi < s.nb && bj < s.nb && Base(s, bi, bj) + s.b * s.b <= C.Length
      modifies this, C
      ensures forall x | Base(s, bi, bj) <= x < Base(s, bi, bj) + s.b * s.b ::
                C[x] == CellAt(ar, A[..], B[..], s, x, s.nb, 0)
      ensures forall x | 0 <= x < Base(s, bi, bj) :: C[x] == old(C[x])
    {
      ZeroC(bi, bj);
      var kb := 0;
      while kb < s.nb
        invariant 0 <= kb <= s.nb && cp == Base(s, bi, bj)
        invariant forall x | cp <= x < cp + s.b * s.b :: C[x] == CellAt(ar, A[..], B[..], s, x, kb, 0)
        invariant forall x | 0 <= x < cp :: C[x] == old(C[x])
      {
        MultAdd(bi, bj, kb);
        kb := kb + 1;
      }
    }
  }

  // ----- Changing the storage -------------------------------------------------------------------

  /** Within a row of a block both storages advance together; from row to row the row-major place skips. */
  lemma RowStarts(s: Shape, bi: nat, bj: nat, i: nat)
    requires bi < s.nb && bj < s.nb
    ensures Blocked(s, Coord(bi, bj, i, 0)) + s.b == Blocked(s, Coord(bi, bj, i + 1, 0))
    ensures RowMajor(s, Coord(bi, bj, i, 0)) + s.N() == RowMajor(s, Coord(bi, bj, i + 1, 0))
    ensures Blocked(s, Coord(bi, bj, 0, 0)) == Base(s, bi, bj)
         && Blocked(s, Coord(bi, bj, s.b, 0)) == Base(s, bi, bj + 1)
    ensures RowMajor(s, Coord(bi, bj, 0, 0)) == bi * s.b * s.N() + bj * s.b
    ensures s.b <= s.N()
  {
    var u, v := bi * s.nb + bj, bi * s.b + i;
    assert (u * s.b + i + 1) * s.b == (u * s.b + i) * s.b + s.b;
    assert (v + 1) * s.nb == v * s.nb + s.nb;
    assert ((v + 1) * s.nb + bj) * s.b == (v * s.nb + bj) * s.b + s.nb * s.b;
    BlockedIndex(s, Coord(bi, bj, 0, 0));
    BlockedIndex(s, Coord(bi, bj, s.b, 0));
    RowMajorIndex(s, Coord(bi, bj, 0, 0));
    assert (u + 1) * (s.b * s.b) == u * (s.b * s.b) + s.b * s.b;
    MulMonotone(1, s.nb, s.b);
  }

  lemma SamePlace(s: Shape, c: Coord)
    requires Fits(s, c)
    ensures Blocked(s, c) < s.Size() && RowMajor(s, c) < s.Size() && RowMajorOf(s, Blocked(s, c)) == RowMajor(s, c)
  {
    BlockedRoundTrip(s, c);
    RowMajorRoundTrip(s, c);
  }

  /** One row of a block, read along row-major storage and written along blocked storage. */
  method PackRow<T>(a: array<T>, t: array<T>, s: Shape, ghost c: Coord, tp: nat, ap: nat)
    requires a != t && a.Length == t.Length == s.Size() && Fits(s, c) && c.j == 0
    requires tp == Blocked(s, c) && ap == RowMajor(s, c)
    requires tp <= t.Length && forall x | 0 <= x < tp :: t[x] == a[RowMajorOf(s, x)]
    modifies t
    ensures tp + s.b <= t.Length && forall x | 0 <= x < tp + s.b :: t[x] == a[RowMajorOf(s, x)]
  {
    var j := 0;
    while j < s.b
      invariant 0 <= j <= s.b && tp + j <= t.Length
      invariant forall x | 0 <= x < tp + j :: t[x] == a[RowMajorOf(s, x)]
    {
      SamePlace(s, c.(j := j));
      t[tp + j] := a[ap + j];
      j := j + 1;
    }
  }

  /** One block of `To_blocked`. */
  method PackBlock<T>(a: array<T>, t: array<T>, s: Shape, bi: nat, bj: nat, tp0: nat) returns (tp: nat)
    requires a != t && a.Length == t.Length == s.Size() && bi < s.nb && bj < s.nb && tp0 == Base(s, bi, bj)
    requires tp0 <= t.Length && forall x | 0 <= x < tp0 :: t[x] == a[RowMajorOf(s, x)]
    modifies t
    ensures tp == Base(s, bi, bj + 1) <= t.Length && forall x | 0 <= x < tp :: t[x] == a[RowMajorOf(s, x)]
  {
    RowStarts(s, bi, bj, 0);
    BlockRange(s, bi, bj);
    tp := tp0;
    var ap := bi * s.b * s.N() + bj * s.b;
    var i := 0;
    while i < s.b
      invariant 0 <= i <= s.b
      invariant tp == Blocked(s, Coord(bi, bj, i, 0)) && ap == RowMajor(s, Coord(bi, bj, i, 0))
      invariant tp <= t.Length && forall x | 0 <= x < tp :: t[x] == a[RowMajorOf(s, x)]
    {
      RowStarts(s, bi, bj, i);
      PackRow(a, t, s, Coord(bi, bj, i, 0), tp, ap);
      tp := tp + s.b;
      ap := ap + s.b + (s.N() - s.b);
      i := i + 1;
    }
    RowStarts(s, bi, bj, 0);
  }

  /** `To_blocked`, with its pointers as indices. */
  method ToBlocked<T(0)>(a: array<T>, s: Shape)
    requires a.Length == s.Size()
    modifies a
    ensures InBlockedStorage(s, old(a[..]), a[..])
  {
    var t := new T[a.Length];
    var tp, bi := 0, 0;
    while bi < s.nb
      invariant 0 <= bi <= s.nb && tp == Base(s, bi, 0) <= a.Length && a[..] == old(a[..])
      invariant forall x | 0 <= x < tp :: t[x] == a[RowMajorOf(s, x)]
    {
      var bj := 0;
      while bj < s.nb
        invariant 0 <= bj <= s.nb && tp == Base(s, bi, bj) <= a.Length && a[..] == old(a[..])
        invariant forall x | 0 <= x < tp :: t[x] == a[RowMajorOf(s, x)]
      {
        tp := PackBlock(a, t, s, bi, bj, tp);
        bj := bj + 1;
      }
      BlockRange(s, bi, 0);
      bi := bi + 1;
    }
    Assoc(s.nb * s.nb, s.b, s.b);
    forall x | 0 <= x < a.Length {
      a[x] := t[x];
    }
  }

  /** Different places of blocked storage are different places of row-major storage. */
  lemma RowMajorOfInjective(s: Shape, x: nat, y: nat)
    requires x < s.Size() && y < s.Size() && x != y
    ensures RowMajorOf(s, x) != RowMajorOf(s, y)
  {
    AtBlockedFits(s, x);
    AtBlockedFits(s, y);
    RowMajorRoundTrip(s, AtBlocked(s, x));
    RowMajorRoundTrip(s, AtBlocked(s, y));
  }

  /** And every place of row-major storage is one of them. */
  lemma RowMajorOfOnto(s: Shape, y: nat) returns (x: nat)
    requires y < s.Size()
    ensures x < s.Size() && RowMajorOf(s, x) == y
  {
    AtRowMajorFits(s, y);
    SamePlace(s, AtRowMajor(s, y));
    x := Blocked(s, AtRowMajor(s, y));
  }

  /** One row of a block, read along blocked storage and written along row-major storage. */
  method UnpackRow<T>(a: array<T>, t: array<T>, s: Shape, ghost c: Coord, ap: nat, tp: nat)
    requires a != t && a.Length == t.Length == s.Size() && Fits(s, c) && c.j == 0
    requires ap == Blocked(s, c) && tp == RowMajor(s, c)
    requires ap <= a.Length && forall x | 0 <= x < ap :: t[RowMajorOf(s, x)] == a[x]
    modifies t
    ensures ap + s.b <= a.Length && forall x | 0 <= x < ap + s.b :: t[RowMajorOf(s, x)] == a[x]
  {
    var j := 0;
    while j < s.b
      invariant 0 <= j <= s.b && ap + j <= a.Length
      invariant forall x | 0 <= x < ap + j :: t[RowMajorOf(s, x)] == a[x]
    {
      SamePlace(s, c.(j := j));
      forall x | 0 <= x < ap + j ensures RowMajorOf(s, x) != tp + j {
        RowMajorOfInjective(s, x, ap + j);
      }
      t[tp + j] := a[ap + j];
      j := j + 1;
    }
  }

  /** One block of `From_blocked`. */
  method UnpackBlock<T>(a: array<T>, t: array<T>, s: Shape, bi: nat, bj: nat, ap0: nat) returns (ap: nat)
    requires a != t && a.Length == t.Length == s.Size() && bi < s.nb && bj < s.nb && ap0 == Base(s, bi, bj)
    requires ap0 <= a.Length && forall x | 0 <= x < ap0 :: t[RowMajorOf(s, x)] == a[x]
    modifies t
    ensures ap == Base(s, bi, bj + 1) <= a.Length && forall x | 0 <= x < ap :: t[RowMajorOf(s, x)] == a[x]
  {
    RowStarts(s, bi, bj, 0);
    BlockRange(s, bi, bj);
    ap := ap0;
    var tp := bi * s.b * s.N() + bj * s.b;
    var i := 0;
    while i < s.b
      invariant 0 <= i <= s.b
      invariant ap == Blocked(s, Coord(bi, bj, i, 0)) && tp == RowMajor(s, Coord(bi, bj, i, 0))
      invariant ap <= a.Length && forall x | 0 <= x < ap :: t[RowMajorOf(s, x)] == a[x]
    {
      RowStarts(s, bi, bj, i);
      UnpackRow(a, t, s, Coord(bi, bj, i, 0), ap, tp);
      ap := ap + s.b;
      tp := tp + s.b + (s.N() - s.b);
      i := i + 1;
    }
    RowStarts(s, bi, bj, 0);
  }

  /** `From_blocked`: what was in blocked storage is back in row-major storage. */
  method FromBlocked<T(0)>(a: array<T>, s: Shape)
    requires a.Length == s.Size()
    modifies a
    ensures InBlockedStorage(s, a[..], old(a[..]))
  {
    var t := new T[a.Length];
    var ap, bi := 0, 0;
    while bi < s.nb
      invariant 0 <= bi <= s.nb && ap == Base(s, bi, 0) <= a.Length && a[..] == old(a[..])
      invariant forall x | 0 <= x < ap :: t[RowMajorOf(s, x)] == a[x]
    {
      var bj := 0;
      while bj < s.nb
        invariant 0 <= bj <= s.nb && ap == Base(s, bi, bj) <= a.Length && a[..] == old(a[..])
        invariant forall x | 0 <= x < ap :: t[RowMajorOf(s, x)] == a[x]
      {
        ap := UnpackBlock(a, t, s, bi, bj, ap);
        bj := bj + 1;
      }
      BlockRange(s, bi, 0);
      bi := bi + 1;
    }
    Assoc(s.nb * s.nb, s.b, s.b);
    forall x | 0 <= x < a.Length {
      a[x] := t[x];
    }
  }

  /** The two changes of storage undo each other. */
  lemma StorageRoundTrip<T>(s: Shape, a: seq<T>, blocked: seq<T>, back: seq<T>)
    requires InBlockedStorage(s, a, blocked) && InBlockedStorage(s, back, blocked)
    ensures back == a
  {
    forall y | 0 <= y < s.Size() ensures back[y] == a[y] {
      var x := RowMajorOfOnto(s, y);
      assert blocked[x] == a[RowMajorOf(s, x)] == back[RowMajorOf(s, x)];
    }
  }

  // ----- The naive algorithm, and the whole blocked one -----------------------------------------

  /** The innermost loop of `Mat_mult`, for one element. */
  method MatMultCell<T>(ar: Arith<T>, a: array<T>, b: array<T>, c: array<T>, n: nat, i: nat, j: nat, ghost x: nat)
    requires a.Length == b.Length == c.Length == n * n && a != c && b != c && i < n && j < n
          && x == i * n + j < c.Length
    modifies c
    ensures c[..] == old(c[..])[x := Naive(ar, a[..], b[..], n, i, j, n)]
  {
    c[i * n + j] := ar.zero;
    var k := 0;
    while k < n
      invariant 0 <= k <= n
      invariant c[..] == old(c[..])[x := Naive(ar, a[..], b[..], n, i, j, k)]
    {
      DigitBound(i, n, k, n);
      DigitBound(k, n, j, n);
      c[i * n + j] := ar.add(c[i * n + j], ar.mul(a[i * n + k], b[k * n + j]));
      k := k + 1;
    }
  }

  /** `Mat_mult` of `matmul.c`. */
  method MatMult<T>(ar: Arith<T>, a: array<T>, b: array<T>, c: array<T>, n: nat)
    requires a.Length == b.Length == c.Length == n * n && a != c && b != c
    modifies c
    ensures forall x | 0 <= x < c.Length :: c[x] == NaiveCell(ar, a[..], b[..], n, x)
  {
    ghost var done := 0;
    var i := 0;
    while i < n
      invariant 0 <= i <= n && done == i * n <= c.Length
      invariant forall x | 0 <= x < done :: c[x] == NaiveCell(ar, a[..], b[..], n, x)
    {
      var j := 0;
      while j < n
        invariant 0 <= j <= n && done == i * n + j <= c.Length
        invariant forall x | 0 <= x < done :: c[x] == NaiveCell(ar, a[..], b[..], n, x)
      {
        NaiveCellAt(ar, a[..], b[..], n, i, j);
        MatMultCell(ar, a, b, c, n, i, j, done);
        done := done + 1;
        j := j + 1;
      }
      assert (i + 1) * n == i * n + n;
      i := i + 1;
    }
  }

  /** The run with DEBUG set: both factors to blocked storage, the blocked product, and the product back. Cell by cell
      it is the sum the naive algorithm computes from the original factors. */
  method BlockedProduct<T(0,!new)>(m: Multiplier<T>)
    requires m.Valid() && m.A != m.B
    modifies m, m.A, m.B, m.C
    ensures m.C.Length == m.s.N() * m.s.N()
    ensures forall x | 0 <= x < m.C.Length :: m.C[x] == NaiveCell(m.ar, old(m.A[..]), old(m.B[..]), m.s.N(), x)
  {
    ghost var a, b, n := m.A[..], m.B[..], m.s.N();
    SizeReordered(m.s);
    ToBlocked(m.A, m.s);
    ToBlocked(m.B, m.s);
    m.BlockedMatMult();
    ghost var ab, bb, blocked := m.A[..], m.B[..], m.C[..];
    FromBlocked(m.C, m.s);
    ghost var c := m.C[..];
    forall x | 0 <= x < m.C.Length ensures m.C[x] == NaiveCell(m.ar, a, b, n, x) {
      CellIsNaive(m.ar, a, b, ab, bb, blocked, c, m.s, n, x);
    }
  }

  lemma CellIsNaive<T>(ar: Arith<T>, a: seq<T>, b: seq<T>, ab: seq<T>, bb: seq<T>, blocked: seq<T>, c: seq<T>, s: Shape,
                       n: nat, y: nat)
    requires InBlockedStorage(s, a, ab) && InBlockedStorage(s, b, bb) && InBlockedStorage(s, c, blocked)
    requires forall x | 0 <= x < |blocked| :: blocked[x] == CellAt(ar, ab, bb, s, x, s.nb, 0)
    requires n == s.N() && s.Size() == n * n && y < n * n
    ensures c[y] == NaiveCell(ar, a, b, n, y)
  {
    var x := RowMajorOfOnto(s, y);
    var co := AtBlocked(s, x);
    AtBlockedFits(s, x);
    Counted(s, co, s.nb, 0);
    RowMajorIndex(s, co);
    NaiveCellAt(ar, a, b, n, RowOf(s, co), ColOf(s, co));
    SameSums(ar, a, b, ab, bb, s, co, s.nb, 0, n, RowOf(s, co), ColOf(s, co), n);
  }

  /** `main` for given factors: storage for three matrices, the factors filled in, and their product in C. */
  method Product<T(0,!new)>(ar: Arith<T>, n: nat, b: nat, x: seq<T>, y: seq<T>) returns (m: Multiplier<T>)
    requires b > 0 && n % b == 0 && |x| == |y| == n * n
    ensures m.C.Length == n * n && forall i | 0 <= i < n * n :: m.C[i] == NaiveCell(ar, x, y, n, i)
  {
    m := new Multiplier(ar, n, b);
    SizeReordered(m.s);
    forall i | 0 <= i < n * n { m.A[i] := x[i]; }
    forall i | 0 <= i < n * n { m.B[i] := y[i]; }
    assert m.A[..] == x && m.B[..] == y;
    BlockedProduct(m);
  }
}
