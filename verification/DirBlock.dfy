/** Directory blocks byte by byte: the walks of `helper.c` and the writes of `create_link` and `ext2_rm`. */
module DirBlock {
  import opened Options
  import opened DirRecords

  type Disk = seq<Byte>

  const HEADER := 8
  const BLOCK := 1024

  function Le16(d: Disk, p: nat): nat
    requires p + 2 <= |d|
  {
    var lo: nat, hi: nat := d[p], d[p + 1];
    lo + 256 * hi
  }

  function Le32(d: Disk, p: nat): nat
    requires p + 4 <= |d|
  {
    Le16(d, p) + 0x1_0000 * Le16(d, p + 2)
  }

  /** Least significant byte first. */
  lemma LittleEndian(d: Disk, p: nat)
    requires p + 4 <= |d|
    ensures var b0: nat, b1: nat, b2: nat, b3: nat := d[p], d[p + 1], d[p + 2], d[p + 3];
            Le32(d, p) == b0 + 0x100 * b1 + 0x1_0000 * b2 + 0x100_0000 * b3
  {
  }

  /** `rec_len`, `name_len` and the whole record at `p`. */
  function RecLen(d: Disk, p: nat): nat
    requires p + HEADER <= |d|
  {
    Le16(d, p + 4)
  }

  function NameLen(d: Disk, p: nat): nat
    requires p + HEADER <= |d|
  {
    d[p + 6]
  }

  function RecAt(d: Disk, p: nat): Rec
    requires p + HEADER <= |d| && p + HEADER + NameLen(d, p) <= |d|
  {
    Rec(Le32(d, p), RecLen(d, p), d[p + 7], d[p + HEADER..p + HEADER + NameLen(d, p)])
  }

  /** Records tile the bytes from `p` to `end`, each long enough for its name. */
  predicate Tiles(d: Disk, p: nat, end: nat)
    requires end <= |d|
    decreases end - p
  {
    p == end
    || (p + HEADER <= end && HEADER + NameLen(d, p) <= RecLen(d, p) && p + RecLen(d, p) <= end
        && Tiles(d, p + RecLen(d, p), end))
  }

  function RecordsFrom(d: Disk, p: nat, end: nat): Recs
    requires end <= |d| && Tiles(d, p, end)
    decreases end - p
  {
    if p == end then Nil else Cons(RecAt(d, p), RecordsFrom(d, p + RecLen(d, p), end))
  }

  lemma {:induction false} TilesTotal(d: Disk, p: nat, end: nat)
    requires end <= |d| && Tiles(d, p, end)
    ensures p <= end && Total(RecordsFrom(d, p, end)) == end - p
    decreases end - p
  {
    if p != end { TilesTotal(d, p + RecLen(d, p), end); }
  }

  /** A record in front of a tiled stretch. */
  lemma TileCons(d: Disk, p: nat, end: nat, next: nat)
    requires p + HEADER <= end <= |d| && HEADER + NameLen(d, p) <= RecLen(d, p)
    requires next == p + RecLen(d, p) <= end && Tiles(d, next, end)
    ensures Tiles(d, p, end) && RecordsFrom(d, p, end) == Cons(RecAt(d, p), RecordsFrom(d, next, end))
  {
  }

  /** A tiled stretch that is not empty starts with a record. */
  lemma TilesOpen(d: Disk, p: nat, end: nat) returns (next: nat)
    requires end <= |d| && Tiles(d, p, end) && p != end
    ensures p + HEADER <= next <= end && next == p + RecLen(d, p) && p + HEADER + NameLen(d, p) <= next
    ensures Tiles(d, next, end) && RecordsFrom(d, p, end) == Cons(RecAt(d, p), RecordsFrom(d, next, end))
  {
    next := p + RecLen(d, p);
  }

  /** The two disks agree on the bytes from `p` to `end`. */
  ghost predicate Same(d: Disk, d': Disk, p: nat, end: nat) {
    |d| == |d'| && end <= |d| && forall x | p <= x < end :: d'[x] == d[x]
  }

  lemma RecSame(d: Disk, d': Disk, p: nat, end: nat)
    requires Same(d, d', p, end) && p + HEADER <= end && p + HEADER + NameLen(d, p) <= end
    ensures NameLen(d', p) == NameLen(d, p) && RecLen(d', p) == RecLen(d, p) && RecAt(d', p) == RecAt(d, p)
  {
    assert d'[p] == d[p] && d'[p + 1] == d[p + 1] && d'[p + 2] == d[p + 2] && d'[p + 3] == d[p + 3];
    assert d'[p + 4] == d[p + 4] && d'[p + 5] == d[p + 5] && d'[p + 6] == d[p + 6] && d'[p + 7] == d[p + 7];
    assert d'[p + HEADER..p + HEADER + NameLen(d, p)] == d[p + HEADER..p + HEADER + NameLen(d, p)];
  }

  /** The records of a stretch of bytes depend on those bytes alone. */
  lemma {:induction false} TilesSame(d: Disk, d': Disk, p: nat, end: nat)
    requires Same(d, d', p, end) && Tiles(d, p, end)
    ensures Tiles(d', p, end) && RecordsFrom(d', p, end) == RecordsFrom(d, p, end)
    decreases end - p
  {
    if p != end {
      RecSame(d, d', p, end);
      TilesSame(d, d', p + RecLen(d, p), end);
    }
  }

  // ----- create_link ----------------------------------------------------------------------------

  predicate RoomAt(d: Disk, p: nat, nameLen: nat, mode: nat)
    requires p + HEADER <= |d|
  {
    UsedSize(NameLen(d, p)) + NewSize(nameLen, mode) <= RecLen(d, p)
  }

  /** The position of the record `create_link` splits, or `end`. */
  function SlotFrom(d: Disk, p: nat, end: nat, nameLen: nat, mode: nat): (q: nat)
    requires end <= |d| && Tiles(d, p, end)
    ensures p <= q <= end && (q < end ==> q + HEADER <= end && RoomAt(d, q, nameLen, mode) && q + RecLen(d, q) <= end)
    decreases end - p
  {
    if p == end || RoomAt(d, p, nameLen, mode) then p else SlotFrom(d, p + RecLen(d, p), end, nameLen, mode)
  }

  lemma SlotStep(d: Disk, p: nat, end: nat, slot: nat, nameLen: nat, mode: nat) returns (next: nat)
    requires end <= |d| && Tiles(d, p, end) && p != end && slot == SlotFrom(d, p, end, nameLen, mode)
    ensures p + HEADER <= next <= end && next == p + RecLen(d, p) && p + HEADER + NameLen(d, p) <= next
    ensures RoomAt(d, p, nameLen, mode) ==> slot == p
    ensures !RoomAt(d, p, nameLen, mode) ==>
              Tiles(d, next, end) && slot == SlotFrom(d, next, end, nameLen, mode) && (next == end ==> slot == end)
  {
    next := TilesOpen(d, p, end);
  }

  /** The new record, with its terminator, ends within the record that is split. */
  predicate StaysInside(d: Disk, q: nat, nameLen: nat)
    requires q + HEADER <= |d|
  {
    UsedSize(NameLen(d, q)) + 9 + nameLen <= RecLen(d, q)
  }

  /** Inside the bytes that `create_link` writes when it splits the record at `q`: the length of that record, and the
      header, name and terminator of the new one at `n`. */
  predicate WrittenByte(q: nat, n: nat, nameLen: nat, x: nat) {
    q + 4 <= x < q + 6 || n <= x < n + HEADER + nameLen + 1
  }

  /** Every byte it writes is one of the record it splits exactly then. */
  lemma SplitStaysInsideIff(d: Disk, q: nat, n: nat, nameLen: nat)
    requires q + HEADER <= |d| && n == q + UsedSize(NameLen(d, q)) && HEADER + NameLen(d, q) <= RecLen(d, q)
          && q + RecLen(d, q) <= |d|
    ensures (forall x: nat | WrittenByte(q, n, nameLen, x) :: q <= x < q + RecLen(d, q))
       <==> StaysInside(d, q, nameLen)
    ensures StaysInside(d, q, nameLen) <==> Contained(RecAt(d, q), nameLen)
  {
    assert WrittenByte(q, n, nameLen, n + HEADER + nameLen);
  }

  /** What it has written. */
  ghost predicate IsSplit(d: Disk, d': Disk, q: nat, inode: nat, name: seq<Byte>, mode: nat)
    requires q + HEADER <= |d|
  {
    var n := q + UsedSize(NameLen(d, q));
    |d'| == |d| && n + HEADER + |name| + 1 <= |d| && UsedSize(NameLen(d, q)) <= RecLen(d, q)
    && Le16(d', q + 4) == UsedSize(NameLen(d, q))
    && Le32(d', n) == inode && Le16(d', n + 4) == RecLen(d, q) - UsedSize(NameLen(d, q))
    && d'[n + 6] == |name| % 256 && d'[n + 7] == mode
    && (forall k | 0 <= k < |name| :: d'[n + HEADER + k] == name[k]) && d'[n + HEADER + |name|] == 0
    && (forall x {:trigger WrittenByte(q, n, |name|, x)} | 0 <= x < |d| && !WrittenByte(q, n, |name|, x) ::
          d'[x] == d[x])
  }

  /** The split record keeps all but its length. */
  lemma SplitOld(d: Disk, d': Disk, q: nat, n: nat, inode: nat, name: seq<Byte>, mode: nat)
    requires q + HEADER <= |d| && IsSplit(d, d', q, inode, name, mode) && n == q + UsedSize(NameLen(d, q))
    ensures q + HEADER + NameLen(d, q) <= |d| && NameLen(d', q) == NameLen(d, q) && RecLen(d', q) == n - q
    ensures RecAt(d', q) == RecAt(d, q).(recLen := n - q)
  {
    var len := NameLen(d, q);
    forall x | q <= x < q + HEADER + len && !(q + 4 <= x < q + 6) ensures d'[x] == d[x] {
      assert !WrittenByte(q, n, |name|, x);
    }
    assert d'[q] == d[q] && d'[q + 1] == d[q + 1] && d'[q + 2] == d[q + 2] && d'[q + 3] == d[q + 3];
    assert d'[q + 6] == d[q + 6] && d'[q + 7] == d[q + 7];
    assert d'[q + HEADER..q + HEADER + len] == d[q + HEADER..q + HEADER + len];
  }

  /** The new record reads back as it was meant. */
  lemma SplitNew(d: Disk, d': Disk, q: nat, n: nat, inode: nat, name: seq<Byte>, mode: nat)
    requires q + HEADER <= |d| && q + HEADER + NameLen(d, q) <= |d| && IsSplit(d, d', q, inode, name, mode)
    requires n == q + UsedSize(NameLen(d, q))
    ensures n + HEADER + NameLen(d', n) <= |d| && RecLen(d', n) == q + RecLen(d, q) - n && NameLen(d', n) <= |name|
    ensures RecAt(d', n) == Fresh(RecAt(d, q), inode, name, mode)
  {
    assert NameLen(d', n) == |name| % 256 <= |name|;
    assert d'[n + HEADER..n + HEADER + |name| % 256] == Stored(name);
  }

  /** The bytes behind the split record are not touched, and the new one has room before them. */
  lemma SplitRest(d: Disk, d': Disk, q: nat, n: nat, end: nat, inode: nat, name: seq<Byte>, mode: nat)
    requires q + HEADER <= end <= |d| && IsSplit(d, d', q, inode, name, mode) && q + RecLen(d, q) <= end
    requires StaysInside(d, q, |name|) && n == q + UsedSize(NameLen(d, q))
    ensures n + HEADER + |name| + 1 <= q + RecLen(d, q) && Same(d, d', q + RecLen(d, q), end)
  {
    forall x | q + RecLen(d, q) <= x < end ensures d'[x] == d[x] {
      assert !WrittenByte(q, n, |name|, x);
    }
  }

  lemma TileTwo(d: Disk, q: nat, n: nat, next: nat, end: nat)
    requires q + HEADER <= n && n + HEADER <= next <= end <= |d| && Tiles(d, next, end)
    requires RecLen(d, q) == n - q && q + HEADER + NameLen(d, q) <= n
    requires RecLen(d, n) == next - n && n + HEADER + NameLen(d, n) <= next
    ensures Tiles(d, q, end)
    ensures RecordsFrom(d, q, end) == Cons(RecAt(d, q), Cons(RecAt(d, n), RecordsFrom(d, next, end)))
  {
    TileCons(d, n, end, next);
    TileCons(d, q, end, n);
  }

  /** After the split the block tiles from the split record on: that record, the new one, and what followed. */
  lemma SplitTiles(d: Disk, d': Disk, q: nat, n: nat, next: nat, end: nat, inode: nat, name: seq<Byte>, mode: nat)
    requires end <= |d| && Tiles(d, q, end) && q < end && RoomAt(d, q, |name|, mode) && StaysInside(d, q, |name|)
    requires IsSplit(d, d', q, inode, name, mode) && n == q + UsedSize(NameLen(d, q)) && next == q + RecLen(d, q)
    ensures Tiles(d', q, end) && n + HEADER + NameLen(d', n) <= |d'| && Tiles(d, next, end)
    ensures RecordsFrom(d', q, end) == Cons(RecAt(d', q), Cons(RecAt(d', n), RecordsFrom(d, next, end)))
  {
    SplitOld(d, d', q, n, inode, name, mode);
    SplitNew(d, d', q, n, inode, name, mode);
    SplitRest(d, d', q, n, end, inode, name, mode);
    TilesSame(d, d', next, end);
    TileTwo(d', q, n, next, end);
  }

  /** Those records are what splitting makes of the old ones. */
  lemma SplitRecords(d: Disk, d': Disk, q: nat, end: nat, inode: nat, name: seq<Byte>, mode: nat)
    requires end <= |d| && Tiles(d, q, end) && q < end && RoomAt(d, q, |name|, mode) && StaysInside(d, q, |name|)
    requires IsSplit(d, d', q, inode, name, mode)
    ensures Tiles(d', q, end)
    ensures Insert(RecordsFrom(d, q, end), inode, name, mode) == Some(RecordsFrom(d', q, end))
  {
    var n, next, r := q + UsedSize(NameLen(d, q)), q + RecLen(d, q), RecAt(d, q);
    SplitTiles(d, d', q, n, next, end, inode, name, mode);
    SplitOld(d, d', q, n, inode, name, mode);
    SplitNew(d, d', q, n, inode, name, mode);
    InsertHere(r, RecordsFrom(d, next, end), inode, name, mode);
  }

  lemma InsertHere(r: Rec, rest: Recs, inode: nat, name: seq<Byte>, mode: nat)
    requires HasRoom(r, |name|, mode)
    ensures Insert(Cons(r, rest), inode, name, mode)
         == Some(Cons(r.(recLen := UsedSize(|r.name|)), Cons(Fresh(r, inode, name, mode), rest)))
  {
  }

  lemma InsertLater(r: Rec, rest: Recs, rest': Recs, inode: nat, name: seq<Byte>, mode: nat)
    requires !HasRoom(r, |name|, mode) && Insert(rest, inode, name, mode) == Some(rest')
    ensures Insert(Cons(r, rest), inode, name, mode) == Some(Cons(r, rest'))
  {
  }

  lemma BeforeSplit(d: Disk, d': Disk, p: nat, q: nat, inode: nat, name: seq<Byte>, mode: nat)
    requires q + HEADER <= |d| && IsSplit(d, d', q, inode, name, mode) && p + HEADER <= q
          && p + HEADER + NameLen(d, p) <= q
    ensures NameLen(d', p) == NameLen(d, p) && RecLen(d', p) == RecLen(d, p) && RecAt(d', p) == RecAt(d, p)
  {
    forall x | p <= x < p + HEADER + NameLen(d, p) ensures d'[x] == d[x] {
      assert !WrittenByte(q, q + UsedSize(NameLen(d, q)), |name|, x);
    }
    RecSame(d, d', p, p + HEADER + NameLen(d, p));
  }

  /** A record in front of a block that an insertion has changed. */
  lemma SplitLater(d: Disk, d': Disk, p: nat, next: nat, end: nat, inode: nat, name: seq<Byte>, mode: nat)
    requires p + HEADER <= next <= end <= |d| == |d'| && next == p + RecLen(d, p) && p + HEADER + NameLen(d, p) <= next
    requires RecLen(d', p) == RecLen(d, p) && NameLen(d', p) == NameLen(d, p) && RecAt(d', p) == RecAt(d, p)
    requires !RoomAt(d, p, |name|, mode) && Tiles(d, next, end) && Tiles(d', next, end)
    requires Insert(RecordsFrom(d, next, end), inode, name, mode) == Some(RecordsFrom(d', next, end))
    ensures Tiles(d, p, end) && Tiles(d', p, end)
    ensures Insert(RecordsFrom(d, p, end), inode, name, mode) == Some(RecordsFrom(d', p, end))
  {
    TileCons(d, p, end, next);
    TileCons(d', p, end, next);
    InsertLater(RecAt(d, p), RecordsFrom(d, next, end), RecordsFrom(d', next, end), inode, name, mode);
  }

  /** If the new record stays inside, the block after `create_link` tiles again, and holds exactly the inserted ones. */
  lemma {:induction false} SplitIsInsert(d: Disk, d': Disk, p: nat, end: nat, q: nat, inode: nat, name: seq<Byte>,
                                         mode: nat)
    requires end <= |d| && Tiles(d, p, end) && q == SlotFrom(d, p, end, |name|, mode) < end && StaysInside(d, q, |name|)
    requires IsSplit(d, d', q, inode, name, mode)
    ensures Tiles(d', p, end)
    ensures Insert(RecordsFrom(d, p, end), inode, name, mode) == Some(RecordsFrom(d', p, end))
    decreases end - p
  {
    var next := SlotStep(d, p, end, q, |name|, mode);
    if p == q {
      SplitRecords(d, d', q, end, inode, name, mode);
    } else {
      SplitIsInsert(d, d', next, end, q, inode, name, mode);
      BeforeSplit(d, d', p, q, inode, name, mode);
      SplitLater(d, d', p, next, end, inode, name, mode);
    }
  }

  /** If its name ends where the split record does, the terminator takes the low byte of the next inode number. */
  lemma TerminatorOverruns(d: Disk, d': Disk, q: nat, next: nat, inode: nat, name: seq<Byte>, mode: nat)
    requires q + HEADER <= |d| && IsSplit(d, d', q, inode, name, mode)
    requires UsedSize(NameLen(d, q)) + HEADER + |name| == RecLen(d, q) && next == q + RecLen(d, q) && next + 4 <= |d|
    ensures Le32(d', next) % 256 == 0 && (Le32(d, next) % 256 != 0 ==> Le32(d', next) != Le32(d, next))
  {
    assert d'[next] == 0;
  }

  /** Found as a record, it is the one that is split in the list. */
  lemma {:induction false} SlotIsSplit(d: Disk, p: nat, end: nat, q: nat, nameLen: nat, mode: nat)
    requires end <= |d| && Tiles(d, p, end) && q == SlotFrom(d, p, end, nameLen, mode)
    ensures q < end ==> q + HEADER + NameLen(d, q) <= |d|
    ensures Split(RecordsFrom(d, p, end), nameLen, mode) == if q < end then Some(RecAt(d, q)) else None
    ensures q < end ==> (FitsIn(RecordsFrom(d, p, end), nameLen, mode) <==> StaysInside(d, q, nameLen))
    decreases end - p
  {
    if p != end {
      var next := SlotStep(d, p, end, q, nameLen, mode);
      if p != q { SlotIsSplit(d, next, end, q, nameLen, mode); }
    }
  }

  lemma {:induction false} NoSlotNoInsert(d: Disk, p: nat, end: nat, inode: nat, name: seq<Byte>, mode: nat)
    requires end <= |d| && Tiles(d, p, end) && SlotFrom(d, p, end, |name|, mode) == end
    ensures Insert(RecordsFrom(d, p, end), inode, name, mode).None?
    decreases end - p
  {
    if p != end { NoSlotNoInsert(d, p + RecLen(d, p), end, inode, name, mode); }
  }

  // ----- Walks by name --------------------------------------------------------------------------

  /** The comparison by `strncmp` over the recorded length, and of the lengths. */
  predicate NamedAt(d: Disk, p: nat, name: seq<Byte>)
    requires p + HEADER <= |d| && p + HEADER + NameLen(d, p) <= |d|
  {
    NameLen(d, p) == |name| && forall k | 0 <= k < |name| :: d[p + HEADER + k] == name[k]
  }

  lemma NamedIs(d: Disk, p: nat, name: seq<Byte>)
    requires p + HEADER <= |d| && p + HEADER + NameLen(d, p) <= |d|
    ensures NamedAt(d, p, name) <==> RecAt(d, p).name == name
  {
    if NamedAt(d, p, name) {
      assert RecAt(d, p).name == name;
    } else if NameLen(d, p) == |name| {
      var k :| 0 <= k < |name| && d[p + HEADER + k] != name[k];
      assert RecAt(d, p).name[k] != name[k];
    }
  }

  /** The position of the first record of that name, or `end`. */
  function FoundFrom(d: Disk, p: nat, end: nat, name: seq<Byte>): (q: nat)
    requires end <= |d| && Tiles(d, p, end)
    ensures p <= q <= end
    ensures q < end ==>
              q + HEADER <= end && q + HEADER + NameLen(d, q) <= q + RecLen(d, q) <= end && NamedAt(d, q, name)
    decreases end - p
  {
    if p == end || NamedAt(d, p, name) then p else FoundFrom(d, p + RecLen(d, p), end, name)
  }

  lemma FoundStep(d: Disk, p: nat, end: nat, q: nat, name: seq<Byte>) returns (next: nat)
    requires end <= |d| && Tiles(d, p, end) && p != end && q == FoundFrom(d, p, end, name)
    ensures p + HEADER <= next <= end && next == p + RecLen(d, p) && p + HEADER + NameLen(d, p) <= next
    ensures NamedAt(d, p, name) ==> q == p
    ensures Tiles(d, next, end) && (!NamedAt(d, p, name) ==> q == FoundFrom(d, next, end, name) && next <= q)
  {
    next := TilesOpen(d, p, end);
  }

  lemma {:induction false} FoundIsFind(d: Disk, p: nat, end: nat, q: nat, name: seq<Byte>)
    requires end <= |d| && Tiles(d, p, end) && q == FoundFrom(d, p, end, name)
    ensures Find(RecordsFrom(d, p, end), name) == if q < end then Some(RecAt(d, q)) else None
    decreases end - p
  {
    if p != end {
      var next := FoundStep(d, p, end, q, name);
      NamedIs(d, p, name);
      if !NamedAt(d, p, name) { FoundIsFind(d, next, end, q, name); }
    }
  }

  /** The position before the first record of that name behind `p`. */
  function PreFrom(d: Disk, p: nat, end: nat, name: seq<Byte>): (q: nat)
    requires end <= |d| && Tiles(d, p, end) && p < FoundFrom(d, p, end, name) < end
    ensures p <= q && q + HEADER <= end && q + HEADER + NameLen(d, q) <= q + RecLen(d, q) == FoundFrom(d, p, end, name)
    decreases end - p
  {
    var next := p + RecLen(d, p);
    assert FoundFrom(d, next, end, name) == FoundFrom(d, p, end, name);
    if NamedAt(d, next, name) then p else PreFrom(d, next, end, name)
  }

  /** What `find_pre_pos` returns when it has come from `pre` to `p`. */
  function BeforeFrom(d: Disk, pre: nat, p: nat, end: nat, name: seq<Byte>): nat
    requires end <= |d| && Tiles(d, p, end)
    decreases end - p
  {
    if p == end || NamedAt(d, p, name) then pre else BeforeFrom(d, p, p + RecLen(d, p), end, name)
  }

  lemma {:induction false} BeforeIsPre(d: Disk, p: nat, next: nat, end: nat, q: nat, name: seq<Byte>)
    requires end <= |d| && Tiles(d, p, end) && Tiles(d, next, end) && p < next <= q < end && next == p + RecLen(d, p)
    requires q == FoundFrom(d, p, end, name) == FoundFrom(d, next, end, name)
    ensures BeforeFrom(d, p, next, end, name) == PreFrom(d, p, end, name)
    decreases end - p
  {
    var after := FoundStep(d, next, end, q, name);
    if !NamedAt(d, next, name) { BeforeIsPre(d, next, after, end, q, name); }
  }

  // ----- The unlink of ext2_rm ------------------------------------------------------------------

  /** Inside the bytes the unlink writes: the length of the record before, and the inode of the one at `pos`. */
  predicate MergedByte(pre: nat, pos: nat, x: nat) {
    pre + 4 <= x < pre + 6 || pos <= x < pos + 4
  }

  /** The record at `pos` has been merged into the one at `pre`. */
  ghost predicate IsMerged(d: Disk, d': Disk, pre: nat, pos: nat)
    requires pre + HEADER <= pos && pos + HEADER <= |d|
  {
    |d'| == |d| && Le16(d', pre + 4) == RecLen(d, pre) + RecLen(d, pos)
    && forall x {:trigger MergedByte(pre, pos, x)} | 0 <= x < |d| && !MergedByte(pre, pos, x) :: d'[x] == d[x]
  }

  /** The record before keeps all but its length, and what follows is not touched. */
  lemma MergedRecord(d: Disk, d': Disk, pre: nat, pos: nat, next: nat, end: nat)
    requires pre + HEADER <= pos && pos + HEADER <= next <= end <= |d| && pre + HEADER + NameLen(d, pre) <= pos
    requires IsMerged(d, d', pre, pos) && pos == pre + RecLen(d, pre) && next == pos + RecLen(d, pos)
    ensures NameLen(d', pre) == NameLen(d, pre) && RecLen(d', pre) == next - pre && Same(d, d', next, end)
    ensures RecAt(d', pre) == RecAt(d, pre).(recLen := next - pre)
  {
    var len := NameLen(d, pre);
    forall x | pre <= x < pre + HEADER + len && !(pre + 4 <= x < pre + 6) ensures d'[x] == d[x] {
      assert !MergedByte(pre, pos, x);
    }
    assert d'[pre] == d[pre] && d'[pre + 1] == d[pre + 1] && d'[pre + 2] == d[pre + 2] && d'[pre + 3] == d[pre + 3];
    assert d'[pre + 6] == d[pre + 6] && d'[pre + 7] == d[pre + 7];
    assert d'[pre + HEADER..pre + HEADER + len] == d[pre + HEADER..pre + HEADER + len];
    forall x | next <= x < end ensures d'[x] == d[x] {
      assert !MergedByte(pre, pos, x);
    }
  }

  lemma BeforeMerge(d: Disk, d': Disk, p: nat, pre: nat, pos: nat)
    requires p + HEADER <= pre && pre + HEADER <= pos && pos + HEADER <= |d| && p + HEADER + NameLen(d, p) <= pre
    requires IsMerged(d, d', pre, pos)
    ensures NameLen(d', p) == NameLen(d, p) && RecLen(d', p) == RecLen(d, p) && RecAt(d', p) == RecAt(d, p)
  {
    forall x | p <= x < p + HEADER + NameLen(d, p) ensures d'[x] == d[x] {
      assert !MergedByte(pre, pos, x);
    }
    RecSame(d, d', p, p + HEADER + NameLen(d, p));
  }

  lemma RemoveHere(r: Rec, s: Rec, after: Recs, name: seq<Byte>)
    requires s.name == name
    ensures RemoveAfter(r, Cons(s, after), name) == Cons(r.(recLen := r.recLen + s.recLen), after)
  {
  }

  lemma RemoveLater(r: Rec, s: Rec, after: Recs, name: seq<Byte>)
    requires s.name != name
    ensures RemoveAfter(r, Cons(s, after), name) == Cons(r, RemoveAfter(s, after, name))
  {
  }

  /** The merge with the record at `pos` behind the one at `pre`. */
  lemma MergeTiles(d: Disk, d': Disk, pre: nat, pos: nat, next: nat, end: nat, name: seq<Byte>)
    requires end <= |d| && Tiles(d, pre, end) && pre < pos < end && pos == pre + RecLen(d, pre)
    requires pre + HEADER <= pos && pos + HEADER <= end && pos + HEADER + NameLen(d, pos) <= end
          && NamedAt(d, pos, name)
    requires next == pos + RecLen(d, pos) && IsMerged(d, d', pre, pos)
    ensures Tiles(d', pre, end) && Tiles(d, pos, end)
    ensures RecordsFrom(d', pre, end) == RemoveAfter(RecAt(d, pre), RecordsFrom(d, pos, end), name)
  {
    MergedRecord(d, d', pre, pos, next, end);
    TilesSame(d, d', next, end);
    TileCons(d', pre, end, next);
    TileCons(d, pos, end, next);
    NamedIs(d, pos, name);
    RemoveHere(RecAt(d, pre), RecAt(d, pos), RecordsFrom(d, next, end), name);
  }

  /** A record in front of a block that a removal has changed. */
  lemma MergeLater(d: Disk, d': Disk, p: nat, next: nat, after: nat, end: nat, name: seq<Byte>)
    requires p + HEADER <= next && next + HEADER <= after <= end <= |d| == |d'|
    requires next == p + RecLen(d, p) && p + HEADER + NameLen(d, p) <= next
    requires after == next + RecLen(d, next) && next + HEADER + NameLen(d, next) <= after && Tiles(d, after, end)
    requires RecLen(d', p) == RecLen(d, p) && NameLen(d', p) == NameLen(d, p) && RecAt(d', p) == RecAt(d, p)
    requires !NamedAt(d, next, name) && Tiles(d', next, end)
    requires RecordsFrom(d', next, end) == RemoveAfter(RecAt(d, next), RecordsFrom(d, after, end), name)
    ensures Tiles(d, next, end) && Tiles(d', p, end)
    ensures RecordsFrom(d', p, end) == RemoveAfter(RecAt(d, p), RecordsFrom(d, next, end), name)
  {
    TileCons(d', p, end, next);
    TileCons(d, next, end, after);
    NamedIs(d, next, name);
    RemoveLater(RecAt(d, p), RecAt(d, next), RecordsFrom(d, after, end), name);
  }

  /** The block after the merge tiles again and holds exactly the remaining records. */
  lemma {:induction false} MergeIsRemove(d: Disk, d': Disk, p: nat, end: nat, pre: nat, pos: nat, name: seq<Byte>)
    requires end <= |d| && Tiles(d, p, end) && p < FoundFrom(d, p, end, name) == pos < end
          && pre == PreFrom(d, p, end, name)
    requires pre + HEADER <= pos && pos + HEADER <= end && IsMerged(d, d', pre, pos)
    ensures Tiles(d', p, end)
    ensures RecordsFrom(d', p, end) == RemoveAfter(RecAt(d, p), RecordsFrom(d, p + RecLen(d, p), end), name)
    decreases end - p
  {
    var next := TilesOpen(d, p, end);
    assert FoundFrom(d, next, end, name) == pos;
    var after := TilesOpen(d, next, end);
    if NamedAt(d, next, name) {
      MergeTiles(d, d', p, next, after, end, name);
    } else {
      MergeIsRemove(d, d', next, end, pre, pos, name);
      BeforeMerge(d, d', p, pre, pos);
      MergeLater(d, d', p, next, after, end, name);
    }
  }

  /** What the unlink makes of a record that is first in its block: the length doubles and the inode is zero. */
  ghost predicate IsDoubled(d: Disk, d': Disk, pos: nat)
    requires pos + HEADER <= |d|
  {
    |d'| == |d| && Le16(d', pos + 4) == RecLen(d, pos) + RecLen(d, pos) && Le32(d', pos) == 0
    && forall x {:trigger MergedByte(pos, pos, x)} | 0 <= x < |d| && !MergedByte(pos, pos, x) :: d'[x] == d[x]
  }

  /** Then the block still tiles exactly when a record, or the block, ends at twice the length; and the name is still
      there. */
  lemma DoubledTilesIff(d: Disk, d': Disk, start: nat, end: nat, next: nat, name: seq<Byte>)
    requires start < end <= |d| && Tiles(d, start, end) && start + HEADER <= end && IsDoubled(d, d', start)
    requires next == start + RecLen(d, start) + RecLen(d, start)
    requires NamedAt(d, start, name)
    ensures Tiles(d', start, end) <==> next <= end && Tiles(d, next, end)
    ensures NameLen(d', start) == NameLen(d, start) && NamedAt(d', start, name)
  {
    var len := NameLen(d, start);
    forall x | start + 6 <= x < end ensures d'[x] == d[x] {
      assert !MergedByte(start, start, x);
    }
    assert d'[start + 6] == d[start + 6];
    if next <= end {
      if Tiles(d, next, end) {
        TilesSame(d, d', next, end);
        TileCons(d', start, end, next);
      }
      if Tiles(d', start, end) {
        var n := TilesOpen(d', start, end);
        TilesSame(d', d, next, end);
      }
    }
  }
}
