/** The directory blocks of a mounted image: `create_link` and the unlink of `ext2_rm`, in place. */
module DirImage {
  import opened Options
  import opened DirRecords
  import opened DirBlock

  const DOT: nat := 46

  datatype Creation = Created | NoRoom | NullPosition | OffImage

  /** A directory block: its records tile it. */
  predicate BlockOk(d: Disk, b: nat) {
    b * BLOCK + BLOCK <= |d| && Tiles(d, b * BLOCK, b * BLOCK + BLOCK)
  }

  function BlockRecs(d: Disk, b: nat): Recs
    requires BlockOk(d, b)
  {
    RecordsFrom(d, b * BLOCK, b * BLOCK + BLOCK)
  }

  ghost predicate DirsOk(d: Disk, dirs: seq<nat>) {
    (forall i | 0 <= i < |dirs| :: BlockOk(d, dirs[i])) && forall i, j | 0 <= i < j < |dirs| :: dirs[i] != dirs[j]
  }

  ghost function AllRecs(d: Disk, dirs: seq<nat>): (blocks: seq<Recs>)
    requires DirsOk(d, dirs)
    ensures |blocks| == |dirs| && forall i | 0 <= i < |dirs| :: blocks[i] == BlockRecs(d, dirs[i])
  {
    seq(|dirs|, i requires 0 <= i < |dirs| => BlockRecs(d, dirs[i]))
  }

  /** A walk that started in a block is at its end exactly when its position is a multiple of the block size. */
  lemma AtBlockEnd(b: nat, pos: nat)
    requires b * BLOCK < pos <= b * BLOCK + BLOCK
    ensures pos % BLOCK == 0 <==> pos == b * BLOCK + BLOCK
  {
  }

  /** A change inside one block leaves the records of another. */
  lemma OtherBlock(d: Disk, d': Disk, b: nat, c: nat)
    requires |d'| == |d| && BlockOk(d, c) && b != c
    requires forall x | 0 <= x < |d| && !(b * BLOCK <= x < b * BLOCK + BLOCK) :: d'[x] == d[x]
    ensures BlockOk(d', c) && BlockRecs(d', c) == BlockRecs(d, c)
  {
    assert Same(d, d', c * BLOCK, c * BLOCK + BLOCK);
    TilesSame(d, d', c * BLOCK, c * BLOCK + BLOCK);
  }

  /** A change inside one directory block that makes `rs` of its records. */
  lemma OneBlock(d: Disk, d': Disk, dirs: seq<nat>, k: nat, rs: Recs)
    requires |d'| == |d| && DirsOk(d, dirs) && k < |dirs| && BlockOk(d', dirs[k]) && BlockRecs(d', dirs[k]) == rs
    requires forall x | 0 <= x < |d| && !(dirs[k] * BLOCK <= x < dirs[k] * BLOCK + BLOCK) :: d'[x] == d[x]
    ensures DirsOk(d', dirs) && AllRecs(d', dirs) == AllRecs(d, dirs)[k := rs]
  {
    forall i | 0 <= i < |dirs| && i != k
      ensures BlockOk(d', dirs[i]) && BlockRecs(d', dirs[i]) == BlockRecs(d, dirs[i])
    {
      OtherBlock(d, d', dirs[k], dirs[i]);
    }
  }

  /** `find_dir_block_pos`: the block whose first record is "." for that inode. */
  predicate IsDotOf(d: Disk, b: nat, inode: nat)
    requires b * BLOCK + BLOCK <= |d|
  {
    Le32(d, b * BLOCK) == inode && d[b * BLOCK + 8] == DOT && d[b * BLOCK + 9] == 0
  }

  lemma BlockIs(d: Disk, b: nat, start: nat, end: nat)
    requires start == b * BLOCK && end == start + BLOCK <= |d| && Tiles(d, start, end)
    ensures BlockOk(d, b) && BlockRecs(d, b) == RecordsFrom(d, start, end)
  {
  }

  /** A split that stays inside its record stays inside the block. */
  lemma SplitFrame(d: Disk, d': Disk, start: nat, end: nat, slot: nat, inode: nat, name: seq<Byte>, mode: nat)
    requires start <= slot && slot + HEADER <= end <= |d| && slot + RecLen(d, slot) <= end
    requires StaysInside(d, slot, |name|) && IsSplit(d, d', slot, inode, name, mode)
    ensures forall x | 0 <= x < |d| && !(start <= x < end) :: d'[x] == d[x]
  {
    var n := slot + UsedSize(NameLen(d, slot));
    SplitRest(d, d', slot, n, end, inode, name, mode);
    forall x | 0 <= x < |d| && !(start <= x < end) ensures d'[x] == d[x] {
      assert !WrittenByte(slot, n, |name|, x);
    }
  }

  lemma SplitBlock(d: Disk, d': Disk, b: nat, start: nat, end: nat, slot: nat, inode: nat, name: seq<Byte>, mode: nat)
    requires BlockOk(d, b) && start == b * BLOCK && end == start + BLOCK && slot < end
    requires slot == SlotFrom(d, start, end, |name|, mode) && StaysInside(d, slot, |name|)
    requires IsSplit(d, d', slot, inode, name, mode)
    ensures BlockOk(d', b) && Insert(BlockRecs(d, b), inode, name, mode) == Some(BlockRecs(d', b))
    ensures forall x | 0 <= x < |d| && !(b * BLOCK <= x < b * BLOCK + BLOCK) :: d'[x] == d[x]
  {
    SplitFrame(d, d', start, end, slot, inode, name, mode);
    SplitIsInsert(d, d', start, end, slot, inode, name, mode);
    BlockIs(d', b, start, end);
  }

  lemma SplitRecs(d: Disk, d': Disk, dirs: seq<nat>, k: nat, slot: nat, inode: nat, name: seq<Byte>, mode: nat)
    requires DirsOk(d, dirs) && k < |dirs| && slot < dirs[k] * BLOCK + BLOCK
    requires slot == SlotFrom(d, dirs[k] * BLOCK, dirs[k] * BLOCK + BLOCK, |name|, mode) && StaysInside(d, slot, |name|)
    requires IsSplit(d, d', slot, inode, name, mode)
    ensures DirsOk(d', dirs) && Linked(AllRecs(d, dirs), k, inode, name, mode) == Some(AllRecs(d', dirs))
  {
    SplitBlock(d, d', dirs[k], dirs[k] * BLOCK, dirs[k] * BLOCK + BLOCK, slot, inode, name, mode);
    OneBlock(d, d', dirs, k, BlockRecs(d', dirs[k]));
  }

  lemma NoSplit(d: Disk, dirs: seq<nat>, k: nat, inode: nat, name: seq<Byte>, mode: nat)
    requires DirsOk(d, dirs) && k < |dirs|
    requires SlotFrom(d, dirs[k] * BLOCK, dirs[k] * BLOCK + BLOCK, |name|, mode) == dirs[k] * BLOCK + BLOCK
    ensures Linked(AllRecs(d, dirs), k, inode, name, mode) == None
  {
    NoSlotNoInsert(d, dirs[k] * BLOCK, dirs[k] * BLOCK + BLOCK, inode, name, mode);
  }

  /** Where `find_dir_entry` finds a name in a block, or its end. */
  function FoundIn(d: Disk, b: nat, name: seq<Byte>): nat
    requires BlockOk(d, b)
  {
    FoundFrom(d, b * BLOCK, b * BLOCK + BLOCK, name)
  }

  /** What `find_pre_pos` gives for it: the position before, which for a first record is its own. */
  function Before(d: Disk, b: nat, name: seq<Byte>): nat
    requires BlockOk(d, b)
  {
    BeforeFrom(d, b * BLOCK, b * BLOCK, b * BLOCK + BLOCK, name)
  }

  lemma BeforeStep(d: Disk, pre: nat, p: nat, next: nat, end: nat, t: nat, name: seq<Byte>)
    requires p + HEADER <= next <= end <= |d| && next == p + RecLen(d, p) && p + HEADER + NameLen(d, p) <= next
    requires Tiles(d, p, end) && Tiles(d, next, end) && t == BeforeFrom(d, pre, p, end, name)
    ensures t == if NamedAt(d, p, name) then pre else BeforeFrom(d, p, next, end, name)
  {
  }

  /** A block finds a name where the walk does. */
  lemma FindIn(d: Disk, b: nat, pos: nat, name: seq<Byte>)
    requires BlockOk(d, b) && pos == FoundIn(d, b, name)
    ensures Find(BlockRecs(d, b), name) == if pos < b * BLOCK + BLOCK then Some(RecAt(d, pos)) else None
  {
    FoundIsFind(d, b * BLOCK, b * BLOCK + BLOCK, pos, name);
  }

  lemma BeforeIs(d: Disk, start: nat, end: nat, pos: nat, name: seq<Byte>)
    requires end <= |d| && Tiles(d, start, end) && pos == FoundFrom(d, start, end, name) < end
    ensures if pos == start then BeforeFrom(d, start, start, end, name) == start
            else start < pos && BeforeFrom(d, start, start, end, name) == PreFrom(d, start, end, name)
  {
    var next := FoundStep(d, start, end, pos, name);
    if pos != start { BeforeIsPre(d, start, next, end, pos, name); }
  }

  lemma PreIsInside(d: Disk, start: nat, end: nat, pos: nat, pre: nat, name: seq<Byte>)
    requires end <= |d| && Tiles(d, start, end) && start < pos == FoundFrom(d, start, end, name) < end
    requires pre == PreFrom(d, start, end, name)
    ensures start == pre || start + HEADER <= pre
  {
    var next := FoundStep(d, start, end, pos, name);
  }

  /** An entry that is not first in its block has a record before it. */
  lemma HasBefore(d: Disk, b: nat, start: nat, end: nat, pre: nat, pos: nat, name: seq<Byte>)
    requires BlockOk(d, b) && start == b * BLOCK && end == start + BLOCK && pos == FoundIn(d, b, name) < end
    requires pre == Before(d, b, name)
    ensures pos + HEADER <= end && RecLen(d, pos) <= BLOCK
    ensures pos == start ==> pre == start
    ensures pos != start ==> start < pos && pre + HEADER <= pos && PreFrom(d, start, end, name) == pre
                             && (start == pre || start + HEADER <= pre) && RecLen(d, pre) + RecLen(d, pos) <= BLOCK
  {
    BeforeIs(d, start, end, pos, name);
    if pos != start { PreIsInside(d, start, end, pos, pre, name); }
  }

  lemma MergeFrame(d: Disk, d': Disk, start: nat, end: nat, pre: nat, pos: nat)
    requires (start == pre || start + HEADER <= pre) && pre + HEADER <= pos && pos + HEADER <= end <= |d|
    requires IsMerged(d, d', pre, pos)
    ensures forall x | 0 <= x < |d| && !(start <= x < end) :: d'[x] == d[x]
  {
    forall x | 0 <= x < |d| && !(start <= x < end) ensures d'[x] == d[x] {
      assert !MergedByte(pre, pos, x);
    }
  }

  lemma RemoveBehind(r: Rec, rest: Recs, name: seq<Byte>)
    requires r.name != name
    ensures Remove(Cons(r, rest), name) == RemoveAfter(r, rest, name)
  {
  }

  lemma MergeRecs(d: Disk, d': Disk, start: nat, next: nat, end: nat, pre: nat, pos: nat, name: seq<Byte>)
    requires end <= |d| && Tiles(d, start, end) && start < FoundFrom(d, start, end, name) == pos < end
    requires pre + HEADER <= pos && pos + HEADER <= end && PreFrom(d, start, end, name) == pre
          && IsMerged(d, d', pre, pos)
    requires start + HEADER <= next && next == start + RecLen(d, start)
          && start + HEADER + NameLen(d, start) <= next <= end
    requires Tiles(d, next, end) && RecordsFrom(d, start, end) == Cons(RecAt(d, start), RecordsFrom(d, next, end))
    requires !NamedAt(d, start, name)
    ensures Tiles(d', start, end) && RecordsFrom(d', start, end) == Remove(RecordsFrom(d, start, end), name)
  {
    NamedIs(d, start, name);
    RemoveBehind(RecAt(d, start), RecordsFrom(d, next, end), name);
    MergeIsRemove(d, d', start, end, pre, pos, name);
  }

  /** The merge inside a block. */
  lemma MergeBlock(d: Disk, d': Disk, b: nat, start: nat, end: nat, pre: nat, pos: nat, name: seq<Byte>)
    requires BlockOk(d, b) && start == b * BLOCK && end == start + BLOCK && pos == FoundIn(d, b, name) < end
          && pos != start
    requires pre == Before(d, b, name) && pre + HEADER <= pos && pos + HEADER <= |d| && IsMerged(d, d', pre, pos)
    ensures BlockOk(d', b) && BlockRecs(d', b) == Remove(BlockRecs(d, b), name)
    ensures forall x | 0 <= x < |d| && !(start <= x < end) :: d'[x] == d[x]
  {
    HasBefore(d, b, start, end, pre, pos, name);
    var next := TilesOpen(d, start, end);
    MergeRecs(d, d', start, next, end, pre, pos, name);
    MergeFrame(d, d', start, end, pre, pos);
    BlockIs(d, b, start, end);
    BlockIs(d', b, start, end);
  }

  /** What the unlink writes: the record before takes over the length, which for a first record is its own, and the
      inode is zero. */
  ghost predicate IsCut(d: Disk, d': Disk, pre: nat, pos: nat) {
    pos + HEADER <= |d|
    && if pre == pos then IsDoubled(d, d', pos)
       else pre + HEADER <= pos && IsMerged(d, d', pre, pos) && Le32(d', pos) == 0
  }

  /** By its bytes: the length before becomes the sum, the inode number zero, and every other byte is as it was. */
  lemma CutBytes(d: Disk, d': Disk, pre: nat, pos: nat)
    requires IsCut(d, d', pre, pos)
    ensures |d'| == |d| && pre + 6 <= |d| && pos + 6 <= |d| && Le32(d', pos) == 0
         && Le16(d', pre + 4) == Le16(d, pre + 4) + Le16(d, pos + 4)
    ensures forall x | 0 <= x < |d| && !(pre + 4 <= x < pre + 6) && !(pos <= x < pos + 4) :: d'[x] == d[x]
  {
    forall x | 0 <= x < |d| && !(pre + 4 <= x < pre + 6) && !(pos <= x < pos + 4) ensures d'[x] == d[x] {
      assert !MergedByte(pre, pos, x);
    }
  }

  lemma UnlinkedIs(blocks: seq<Recs>, k: nat, name: seq<Byte>)
    requires k < |blocks| && k == FirstWith(blocks, 0, name) && Find(blocks[k], name).Some?
    requires Find(blocks[k], name).value.ftype == FT_SYMLINK || Find(blocks[k], name).value.ftype == FT_REG_FILE
    ensures Unlinked(blocks, name) == (Removed, blocks[k := Remove(blocks[k], name)])
  {
  }

  lemma MergedRecs(d: Disk, d': Disk, dirs: seq<nat>, k: nat, pre: nat, pos: nat, name: seq<Byte>)
    requires DirsOk(d, dirs) && k < |dirs| && pos == FoundIn(d, dirs[k], name) < dirs[k] * BLOCK + BLOCK
    requires (d[pos + 7] == FT_SYMLINK || d[pos + 7] == FT_REG_FILE) && pos != dirs[k] * BLOCK
    requires pre == Before(d, dirs[k], name) && k == FirstWith(AllRecs(d, dirs), 0, name)
    requires pre + HEADER <= pos && pos + HEADER <= |d| && IsMerged(d, d', pre, pos)
    ensures DirsOk(d', dirs) && Unlinked(AllRecs(d, dirs), name) == (Removed, AllRecs(d', dirs))
  {
    FindIn(d, dirs[k], pos, name);
    UnlinkedIs(AllRecs(d, dirs), k, name);
    MergeBlock(d, d', dirs[k], dirs[k] * BLOCK, dirs[k] * BLOCK + BLOCK, pre, pos, name);
    OneBlock(d, d', dirs, k, BlockRecs(d', dirs[k]));
  }

  /** The directory block that `find_dir_block_pos` finds, by its place in the list of blocks. */
  ghost function ParentFrom(d: Disk, dirs: seq<nat>, i: nat, parent: nat): (k: nat)
    requires DirsOk(d, dirs) && i <= |dirs|
    ensures i <= k <= |dirs| && (k < |dirs| ==> IsDotOf(d, dirs[k], parent))
    ensures forall j | i <= j < k :: !IsDotOf(d, dirs[j], parent)
    decreases |dirs| - i
  {
    if i == |dirs| || IsDotOf(d, dirs[i], parent) then i else ParentFrom(d, dirs, i + 1, parent)
  }

  lemma {:induction false} ParentFromIs(d: Disk, dirs: seq<nat>, i: nat, k: nat, parent: nat)
    requires DirsOk(d, dirs) && i <= k <= |dirs| && (k < |dirs| ==> IsDotOf(d, dirs[k], parent))
    requires forall j | i <= j < k :: !IsDotOf(d, dirs[j], parent)
    ensures ParentFrom(d, dirs, i, parent) == k
    decreases k - i
  {
    if i < k { ParentFromIs(d, dirs, i + 1, k, parent); }
  }

  /** By its bytes: the first of the blocks that start with that inode number and the name ".". */
  lemma ParentIs(d: Disk, dirs: seq<nat>, k: nat, inode: nat)
    requires DirsOk(d, dirs) && k == ParentFrom(d, dirs, 0, inode)
    ensures k < |dirs| ==>
              var p := dirs[k] * BLOCK;
              p + BLOCK <= |d| && Le32(d, p) == inode && d[p + 8] == 46 && d[p + 9] == 0
    ensures forall j | 0 <= j < k ::
              var p := dirs[j] * BLOCK;
              p + BLOCK <= |d| && !(Le32(d, p) == inode && d[p + 8] == 46 && d[p + 9] == 0)
  {
    forall j | 0 <= j <= k && j < |dirs| ensures BlockOk(d, dirs[j]) {
    }
    assert forall j | 0 <= j < k :: !IsDotOf(d, dirs[j], inode);
  }

  /** The record `create_link` splits in that block, or the end of the block. */
  ghost function SlotIn(d: Disk, dirs: seq<nat>, k: nat, nameLen: nat, mode: nat): nat
    requires DirsOk(d, dirs) && k < |dirs|
  {
    SlotFrom(d, dirs[k] * BLOCK, dirs[k] * BLOCK + BLOCK, nameLen, mode)
  }

  /** A split of the record at `q` would write behind the end of the image. */
  predicate LeavesImage(d: Disk, q: nat, nameLen: nat)
    requires q + HEADER <= |d|
  {
    q + UsedSize(NameLen(d, q)) + HEADER + nameLen + 1 > |d|
  }

  /** What `create_link` comes to, given the slot it finds in block `b`. */
  ghost predicate EndsAs(d: Disk, b: nat, slot: nat, nameLen: nat, outcome: Creation) {
    b * BLOCK <= slot <= b * BLOCK + BLOCK <= |d| && (slot < b * BLOCK + BLOCK ==> slot + HEADER <= |d|)
    && outcome == if slot == b * BLOCK + BLOCK then NoRoom
                  else if LeavesImage(d, slot, nameLen) then OffImage else Created
  }

  /** If the new record fits in the list, it stays inside the record that is split, and inside the image. */
  lemma SlotFits(d: Disk, dirs: seq<nat>, k: nat, q: nat, nameLen: nat, mode: nat)
    requires DirsOk(d, dirs) && k < |dirs| && q == SlotIn(d, dirs, k, nameLen, mode)
    ensures q < dirs[k] * BLOCK + BLOCK ==> q + HEADER <= |d|
    ensures q < dirs[k] * BLOCK + BLOCK && FitsIn(AllRecs(d, dirs)[k], nameLen, mode) ==>
              StaysInside(d, q, nameLen) && !LeavesImage(d, q, nameLen)
  {
    SlotIsSplit(d, dirs[k] * BLOCK, dirs[k] * BLOCK + BLOCK, q, nameLen, mode);
  }

  lemma InsertedNotFirst(rs: Recs, inode: nat, name: seq<Byte>, mode: nat)
    requires Find(rs, name).None? && Insert(rs, inode, name, mode).Some?
    ensures Insert(rs, inode, name, mode).value.Cons? && Insert(rs, inode, name, mode).value.rec.name != name
  {
  }

  /** A record found at the start of its block is the first of its records. */
  lemma FoundFirst(d: Disk, b: nat, name: seq<Byte>)
    requires BlockOk(d, b) && FoundIn(d, b, name) == b * BLOCK
    ensures BlockRecs(d, b).Cons? && BlockRecs(d, b).rec.name == name
  {
    var next := TilesOpen(d, b * BLOCK, b * BLOCK + BLOCK);
    NamedIs(d, b * BLOCK, name);
  }

  /** A name just created is where it was created, not first in its block, and its unlink restores all records. */
  lemma FreshIsThere(d: Disk, dirs: seq<nat>, blocks: seq<Recs>, k: nat, inode: nat, name: seq<Byte>, mode: nat)
    requires DirsOk(d, dirs) && k < |blocks| == |dirs| && k < FirstWith(blocks, 0, name) && |name| < 256
    requires Linked(blocks, k, inode, name, mode) == Some(AllRecs(d, dirs)) && FitsIn(blocks[k], |name|, mode)
    requires mode == FT_REG_FILE || mode == FT_SYMLINK
    ensures Unlinked(AllRecs(d, dirs), name) == (Removed, blocks) && FirstWith(AllRecs(d, dirs), 0, name) == k
    ensures FoundIn(d, dirs[k], name) != dirs[k] * BLOCK
  {
    NoneBefore(blocks, 0, name);
    UnlinkUndoesFresh(blocks, k, inode, name, mode);
    InsertedIsFoundIff(blocks[k], inode, name, mode);
    FirstWithIs(AllRecs(d, dirs), 0, k, name);
    InsertedNotFirst(blocks[k], inode, name, mode);
    if FoundIn(d, dirs[k], name) == dirs[k] * BLOCK { FoundFirst(d, dirs[k], name); }
  }

  lemma EndIs(d: Disk, dirs: seq<nat>, k: nat, slot: nat, nameLen: nat, mode: nat, outcome: Creation)
    requires DirsOk(d, dirs) && k < |dirs| && slot == SlotIn(d, dirs, k, nameLen, mode)
    requires slot < dirs[k] * BLOCK + BLOCK ==> slot + HEADER <= |d|
    requires outcome == if slot == dirs[k] * BLOCK + BLOCK then NoRoom
                        else if LeavesImage(d, slot, nameLen) then OffImage else Created
    ensures EndsAs(d, dirs[k], slot, nameLen, outcome)
  {
    assert BlockOk(d, dirs[k]);
  }

  class Image {
    const disk: array<Byte>
    const dirs: seq<nat>

    ghost predicate Valid()
      reads disk
    {
      DirsOk(disk[..], dirs)
    }

    ghost function Blocks(): seq<Recs>
      requires Valid()
      reads disk
    {
      AllRecs(disk[..], dirs)
    }

    constructor (disk: array<Byte>, dirs: seq<nat>)
      requires DirsOk(disk[..], dirs)
      ensures Valid() && this.disk == disk && this.dirs == dirs
    {
      this.disk := disk;
      this.dirs := dirs;
    }

    function Get16(p: nat): (v: nat)
      requires p + 2 <= disk.Length
      reads disk
      ensures v == Le16(disk[..], p) && v < 0x1_0000
    {
      var lo: nat, hi: nat := disk[p], disk[p + 1];
      lo + 256 * hi
    }

    method Put16(p: nat, v: nat)
      requires p + 2 <= disk.Length && v < 0x1_0000
      modifies disk
      ensures Le16(disk[..], p) == v
      ensures forall x | 0 <= x < disk.Length && !(p <= x < p + 2) :: disk[x] == old(disk[x])
    {
      disk[p] := v % 256;
      disk[p + 1] := v / 256;
    }

    method Put32(p: nat, v: nat)
      requires p + 4 <= disk.Length && v < 0x1_0000_0000
      modifies disk
      ensures Le32(disk[..], p) == v
      ensures forall x | 0 <= x < disk.Length && !(p <= x < p + 4) :: disk[x] == old(disk[x])
    {
      Put16(p, v % 0x1_0000);
      ghost var low := Le16(disk[..], p);
      Put16(p + 2, v / 0x1_0000);
      assert Le16(disk[..], p) == low;
    }

    /** The comparison of a name with that of a record, as `strncmp` and `strlen` make it. */
    method IsNamed(p: nat, name: seq<Byte>) returns (same: bool)
      requires p + HEADER <= disk.Length && p + HEADER + NameLen(disk[..], p) <= disk.Length
      ensures same <==> NamedAt(disk[..], p, name)
    {
      var k := 0;
      var len: nat := disk[p + 6];
      while k < len && k < |name| && disk[p + HEADER + k] == name[k]
        invariant k <= len && k <= |name|
        invariant forall i | 0 <= i < k :: disk[p + HEADER + i] == name[i]
      {
        k := k + 1;
      }
      same := k == len && len == |name|;
      ghost var stored := disk[..][p + HEADER..p + HEADER + len];
      if same {
        assert stored == name;
      } else if len == |name| {
        assert stored[k] != name[k];
      }
    }

    /** `strcpy` of the name and its terminator. */
    method PutName(p: nat, name: seq<Byte>)
      requires p + |name| + 1 <= disk.Length
      modifies disk
      ensures forall k | 0 <= k < |name| :: disk[p + k] == name[k]
      ensures disk[p + |name|] == 0
      ensures forall x | 0 <= x < disk.Length && !(p <= x < p + |name| + 1) :: disk[x] == old(disk[x])
    {
      var k := 0;
      while k < |name|
        invariant k <= |name| && forall i | 0 <= i < k :: disk[p + i] == name[i]
        invariant forall x | 0 <= x < disk.Length && !(p <= x < p + k) :: disk[x] == old(disk[x])
      {
        disk[p + k] := name[k];
        k := k + 1;
      }
      disk[p + |name|] := 0;
    }

    /** The writes of `create_link` for the new record, in its order. */
    method PutRecord(n: nat, len: nat, inode: nat, name: seq<Byte>, mode: Byte)
      requires n + HEADER + |name| + 1 <= disk.Length && len < 0x1_0000 && inode < 0x1_0000_0000
      modifies disk
      ensures Le32(disk[..], n) == inode && Le16(disk[..], n + 4) == len
      ensures disk[n + 6] == |name| % 256 && disk[n + 7] == mode
      ensures (forall k | 0 <= k < |name| :: disk[n + HEADER + k] == name[k]) && disk[n + HEADER + |name|] == 0
      ensures forall x | 0 <= x < disk.Length && !(n <= x < n + HEADER + |name| + 1) :: disk[x] == old(disk[x])
    {
      disk[n + 7] := mode;
      PutName(n + HEADER, name);
      disk[n + 6] := |name| % 256;
      Put16(n + 4, len);
      ghost var low, high := disk[n + 4], disk[n + 5];
      Put32(n, inode);
      assert disk[n + 4] == low && disk[n + 5] == high;
      assert Le16(disk[..], n + 4) == len;
    }

    /** The split of the record at `pos`. */
    method SplitAt(pos: nat, inode: nat, name: seq<Byte>, mode: Byte)
      requires pos + HEADER <= disk.Length && UsedSize(NameLen(disk[..], pos)) <= RecLen(disk[..], pos)
      requires pos + UsedSize(NameLen(disk[..], pos)) + HEADER + |name| + 1 <= disk.Length && inode < 0x1_0000_0000
      modifies disk
      ensures IsSplit(old(disk[..]), disk[..], pos, inode, name, mode)
    {
      var curLen, dirSize := Get16(pos + 4), UsedSize(disk[pos + 6]);
      ghost var d := disk[..];
      Put16(pos + 4, dirSize);
      var n := pos + Get16(pos + 4);
      ghost var low, high := disk[pos + 4], disk[pos + 5];
      PutRecord(n, curLen - dirSize, inode, name, mode);
      assert disk[pos + 4] == low && disk[pos + 5] == high;
      assert Le16(disk[..], pos + 4) == dirSize;
    }

    method FindDirBlockPos(inode: nat) returns (k: nat)
      requires Valid()
      ensures k == ParentFrom(disk[..], dirs, 0, inode)
      ensures k < |dirs| ==>
                var p := dirs[k] * BLOCK;
                p + BLOCK <= disk.Length && Le32(disk[..], p) == inode && disk[p + 8] == 46 && disk[p + 9] == 0
      ensures forall j | 0 <= j < k ::
                var p := dirs[j] * BLOCK;
                p + BLOCK <= disk.Length && !(Le32(disk[..], p) == inode && disk[p + 8] == 46 && disk[p + 9] == 0)
    {
      k := 0;
      while k < |dirs|
        invariant k <= |dirs| && forall j | 0 <= j < k :: !IsDotOf(disk[..], dirs[j], inode)
      {
        var pos := dirs[k] * BLOCK;
        assert BlockOk(disk[..], dirs[k]);
        var first := Get32(pos);
        if first == inode && disk[pos + 8] == DOT && disk[pos + 9] == 0 {
          ParentFromIs(disk[..], dirs, 0, k, inode);
          ParentIs(disk[..], dirs, k, inode);
          return;
        }
        k := k + 1;
      }
      ParentFromIs(disk[..], dirs, 0, k, inode);
      ParentIs(disk[..], dirs, k, inode);
    }

    function Get32(p: nat): (v: nat)
      requires p + 4 <= disk.Length
      reads disk
      ensures v == Le32(disk[..], p) && v < 0x1_0000_0000
    {
      Get16(p) + 0x1_0000 * Get16(p + 2)
    }

    /** The walk of `create_link` for a record with room. */
    method FindSlot(b: nat, nameLen: nat, mode: nat) returns (found: bool, pos: nat)
      requires BlockOk(disk[..], b)
      ensures var end := b * BLOCK + BLOCK;
              pos == SlotFrom(disk[..], b * BLOCK, end, nameLen, mode) && (found <==> pos < end)
      ensures found ==> pos + HEADER <= disk.Length && pos + RecLen(disk[..], pos) <= disk.Length
      ensures found ==> RoomAt(disk[..], pos, nameLen, mode)
    {
      var totalSize := NewSize(nameLen, mode);
      pos := b * BLOCK;
      ghost var d, end := disk[..], b * BLOCK + BLOCK;
      ghost var slot := SlotFrom(d, pos, end, nameLen, mode);
      while true
        invariant b * BLOCK <= pos < end && Tiles(d, pos, end) && slot == SlotFrom(d, pos, end, nameLen, mode)
        decreases end - pos
      {
        ghost var next := SlotStep(d, pos, end, slot, nameLen, mode);
        var curLen, dirSize := Get16(pos + 4), UsedSize(disk[pos + 6]);
        if dirSize + totalSize <= curLen { return true, pos; }
        pos := pos + curLen;
        AtBlockEnd(b, pos);
        if pos % BLOCK == 0 { return false, pos; }
      }
    }

    /** The part of `create_link` that knows its block. */
    method LinkIn(k: nat, inode: nat, name: seq<Byte>, mode: Byte) returns (outcome: Creation, slot: nat)
      requires Valid() && inode < 0x1_0000_0000 && k < |dirs|
      modifies disk
      ensures slot == SlotIn(old(disk[..]), dirs, k, |name|, mode)
           && EndsAs(old(disk[..]), dirs[k], slot, |name|, outcome)
      ensures outcome == NoRoom ==> disk[..] == old(disk[..]) && Linked(old(Blocks()), k, inode, name, mode) == None
      ensures outcome == Created ==>
                slot + HEADER <= disk.Length && IsSplit(old(disk[..]), disk[..], slot, inode, name, mode)
      ensures FitsIn(old(Blocks())[k], |name|, mode) ==> outcome != OffImage
      ensures outcome == Created && FitsIn(old(Blocks())[k], |name|, mode) ==>
                Valid() && Linked(old(Blocks()), k, inode, name, mode) == Some(Blocks())
    {
      ghost var d := disk[..];
      var found, pos := FindSlot(dirs[k], |name|, mode);
      SlotFits(d, dirs, k, pos, |name|, mode);
      slot := pos;
      if !found {
        NoSplit(d, dirs, k, inode, name, mode);
        return NoRoom, slot;
      }
      outcome := if pos + UsedSize(disk[pos + 6]) + HEADER + |name| + 1 > disk.Length then OffImage else Created;
      EndIs(d, dirs, k, slot, |name|, mode, outcome);
      if outcome == OffImage { return; }
      SplitAt(pos, inode, name, mode);
      if StaysInside(d, pos, |name|) { SplitRecs(d, disk[..], dirs, k, slot, inode, name, mode); }
    }

    /** `create_link`. Without a block for the parent the program goes on with a null position. Otherwise it writes
        unless no record of that block has room, and if the new record stays inside the one it splits, the block gets
        the inserted records and no other changes. That is always so but for symbolic links (`NewSizeSuffices`), whose
        bytes may go on behind the split record, and behind the image. */
    method CreateLink(parent: nat, inode: nat, name: seq<Byte>, mode: Byte)
      returns (outcome: Creation, ghost k: nat, ghost slot: nat)
      requires Valid() && inode < 0x1_0000_0000
      modifies disk
      ensures k == ParentFrom(old(disk[..]), dirs, 0, parent) && (outcome == NullPosition <==> k == |dirs|)
      ensures k < |dirs| ==>
                var d, p := old(disk[..]), dirs[k] * BLOCK;
                p + BLOCK <= |d| && Le32(d, p) == parent && d[p + 8] == 46 && d[p + 9] == 0
      ensures forall j | 0 <= j < k ::
                var d, p := old(disk[..]), dirs[j] * BLOCK;
                p + BLOCK <= |d| && !(Le32(d, p) == parent && d[p + 8] == 46 && d[p + 9] == 0)
      ensures k < |dirs| ==> slot == SlotIn(old(disk[..]), dirs, k, |name|, mode)
                             && EndsAs(old(disk[..]), dirs[k], slot, |name|, outcome)
      ensures outcome == NullPosition || outcome == NoRoom ==> disk[..] == old(disk[..])
      ensures outcome == NoRoom ==> Linked(old(Blocks()), k, inode, name, mode) == None
      ensures outcome == Created ==>
                slot + HEADER <= disk.Length && IsSplit(old(disk[..]), disk[..], slot, inode, name, mode)
      ensures k < |dirs| && FitsIn(old(Blocks())[k], |name|, mode) ==> outcome != OffImage
      ensures outcome == Created && FitsIn(old(Blocks())[k], |name|, mode) ==>
                Valid() && Linked(old(Blocks()), k, inode, name, mode) == Some(Blocks())
    {
      var i := FindDirBlockPos(parent);
      k, slot := i, 0;
      if i == |dirs| { return NullPosition, k, slot; }
      var end, pos := LinkIn(i, inode, name, mode);
      outcome, slot := end, pos;
    }

    /** The walk of `find_dir_entry` through one block. */
    method WalkTo(b: nat, name: seq<Byte>) returns (found: bool, pos: nat)
      requires BlockOk(disk[..], b)
      ensures pos == FoundIn(disk[..], b, name) && (found <==> pos < b * BLOCK + BLOCK)
    {
      pos := b * BLOCK;
      ghost var d, end := disk[..], pos + BLOCK;
      ghost var q := FoundIn(d, b, name);
      while true
        invariant disk[..] == d && b * BLOCK <= pos < end && Tiles(d, pos, end) && q == FoundFrom(d, pos, end, name)
        decreases end - pos
      {
        ghost var next := FoundStep(d, pos, end, q, name);
        var same := IsNamed(pos, name);
        if same { return true, pos; }
        pos := pos + Get16(pos + 4);
        AtBlockEnd(b, pos);
        if pos % BLOCK == 0 { return false, pos; }
      }
    }

    /** The walk of `find_pre_pos` through one block. */
    method WalkBefore(b: nat, name: seq<Byte>) returns (found: bool, prePos: nat)
      requires BlockOk(disk[..], b)
      ensures found <==> FoundIn(disk[..], b, name) < b * BLOCK + BLOCK
      ensures found ==> prePos == Before(disk[..], b, name)
    {
      var pos := b * BLOCK;
      prePos := pos;
      ghost var d, end := disk[..], pos + BLOCK;
      ghost var q, t := FoundIn(d, b, name), Before(d, b, name);
      while true
        invariant disk[..] == d && b * BLOCK <= pos < end && Tiles(d, pos, end) && q == FoundFrom(d, pos, end, name)
        invariant t == BeforeFrom(d, prePos, pos, end, name)
        decreases end - pos
      {
        ghost var next := FoundStep(d, pos, end, q, name);
        var same := IsNamed(pos, name);
        if same { return true, prePos; }
        BeforeStep(d, prePos, pos, next, end, t, name);
        prePos := pos;
        pos := pos + Get16(pos + 4);
        AtBlockEnd(b, pos);
        if pos % BLOCK == 0 { return false, prePos; }
      }
    }

    method FindDirEntry(name: seq<Byte>) returns (k: nat, pos: nat)
      requires Valid()
      ensures k == FirstWith(Blocks(), 0, name)
      ensures k < |dirs| ==> pos == FoundIn(disk[..], dirs[k], name) < dirs[k] * BLOCK + BLOCK
    {
      k, pos := 0, 0;
      while k < |dirs|
        invariant k <= |dirs| && Valid() && FirstWith(Blocks(), 0, name) == FirstWith(Blocks(), k, name)
      {
        var found, p := WalkTo(dirs[k], name);
        FindIn(disk[..], dirs[k], p, name);
        if found { return k, p; }
        k := k + 1;
      }
    }

    method FindPrePos(name: seq<Byte>) returns (k: nat, prePos: nat)
      requires Valid()
      ensures k == FirstWith(Blocks(), 0, name)
      ensures k < |dirs| ==> prePos == Before(disk[..], dirs[k], name)
    {
      k, prePos := 0, 0;
      while k < |dirs|
        invariant k <= |dirs| && Valid() && FirstWith(Blocks(), 0, name) == FirstWith(Blocks(), k, name)
      {
        var found, p := WalkBefore(dirs[k], name);
        FindIn(disk[..], dirs[k], FoundIn(disk[..], dirs[k], name), name);
        if found { return k, p; }
        k := k + 1;
      }
    }

    /** The part of the unlink that knows the record. */
    method UnlinkAt(ghost k: nat, prePos: nat, pos: nat, ghost name: seq<Byte>)
      requires Valid() && k == FirstWith(Blocks(), 0, name) < |dirs|
      requires pos == FoundIn(disk[..], dirs[k], name) < dirs[k] * BLOCK + BLOCK
            && prePos == Before(disk[..], dirs[k], name)
      requires pos + HEADER <= disk.Length && (disk[pos + 7] == FT_SYMLINK || disk[pos + 7] == FT_REG_FILE)
      modifies disk
      ensures IsCut(old(disk[..]), disk[..], prePos, pos)
      ensures if prePos == pos then pos == dirs[k] * BLOCK
              else Valid() && Unlinked(old(Blocks()), name) == (Removed, Blocks())
    {
      ghost var d := disk[..];
      HasBefore(d, dirs[k], dirs[k] * BLOCK, dirs[k] * BLOCK + BLOCK, prePos, pos, name);
      Merge(prePos, pos);
      if prePos != pos {
        MergedRecs(d, disk[..], dirs, k, prePos, pos, name);
      }
    }

    /** What `ext2_rm` finds out before it writes: the entry, if it is a file or a link, and the one before it. */
    method LookUp(name: seq<Byte>) returns (outcome: Outcome, k: nat, prePos: nat, pos: nat)
      requires Valid()
      ensures outcome == Unlinked(Blocks(), name).0
      ensures outcome == Removed ==> k == FirstWith(Blocks(), 0, name) < |dirs|
      ensures outcome == Removed ==>
                pos == FoundIn(disk[..], dirs[k], name) < dirs[k] * BLOCK + BLOCK
                && prePos == Before(disk[..], dirs[k], name)
      ensures outcome == Removed ==>
                pos + HEADER <= disk.Length && (disk[pos + 7] == FT_SYMLINK || disk[pos + 7] == FT_REG_FILE)
    {
      k, pos := FindDirEntry(name);
      prePos := pos;
      if k == |dirs| { return NotFound, k, prePos, pos; }
      FindIn(disk[..], dirs[k], pos, name);
      if disk[pos + 7] != FT_SYMLINK && disk[pos + 7] != FT_REG_FILE { return IsDirectory, k, prePos, pos; }
      UnlinkedIs(Blocks(), k, name);
      var _, before := FindPrePos(name);
      outcome, prePos := Removed, before;
    }

    /** The unlink of `ext2_rm`: nothing happens unless the first record of that name is a file or a link. If that is
        not first in its block, it goes and every block stays tiled; if it is, its length doubles. */
    method Unlink(name: seq<Byte>) returns (outcome: Outcome, ghost k: nat, ghost pre: nat, ghost entry: nat)
      requires Valid()
      modifies disk
      ensures outcome == Unlinked(old(Blocks()), name).0
      ensures outcome == NotFound <==> forall j | 0 <= j < |dirs| :: Find(old(Blocks())[j], name).None?
      ensures outcome != Removed ==> disk[..] == old(disk[..])
      ensures outcome == Removed ==>
                k == FirstWith(old(Blocks()), 0, name) < |dirs|
                && entry == FoundIn(old(disk[..]), dirs[k], name) && pre == Before(old(disk[..]), dirs[k], name)
                && IsCut(old(disk[..]), disk[..], pre, entry)
      ensures outcome == Removed ==>
                if pre == entry then entry == dirs[k] * BLOCK
                else Valid() && Blocks() == Unlinked(old(Blocks()), name).1
    {
      var i, prePos, pos;
      NotFoundIff(Blocks(), name);
      outcome, i, prePos, pos := LookUp(name);
      k, pre, entry := i, prePos, pos;
      if outcome == Removed {
        UnlinkAt(i, prePos, pos, name);
      }
    }

    /** A client that creates a file or link that fits, under a name that neither the parent's block nor an earlier one
        holds, and unlinks it: every block has its records again. */
    method CreateAndUnlink(parent: nat, inode: nat, name: seq<Byte>, mode: Byte)
      returns (created: Creation, gone: Outcome)
      requires Valid() && inode < 0x1_0000_0000 && |name| < 256 && (mode == FT_REG_FILE || mode == FT_SYMLINK)
      requires var k := ParentFrom(disk[..], dirs, 0, parent);
               k < |dirs| ==> k < FirstWith(Blocks(), 0, name) && FitsIn(Blocks()[k], |name|, mode)
      modifies disk
      ensures created != Created ==> disk[..] == old(disk[..])
      ensures created == Created ==> gone == Removed && Valid() && Blocks() == old(Blocks())
    {
      ghost var blocks := Blocks();
      ghost var k, slot;
      created, k, slot := CreateLink(parent, inode, name, mode);
      gone := NotFound;
      if created == Created {
        ghost var j, pre, entry;
        FreshIsThere(disk[..], dirs, blocks, k, inode, name, mode);
        gone, j, pre, entry := Unlink(name);
      }
    }

    /** Its writes. */
    method Merge(prePos: nat, pos: nat)
      requires (prePos == pos || prePos + HEADER <= pos) && pos + HEADER <= disk.Length
      requires RecLen(disk[..], prePos) + RecLen(disk[..], pos) < 0x1_0000
      modifies disk
      ensures IsCut(old(disk[..]), disk[..], prePos, pos)
    {
      Put16(prePos + 4, Get16(prePos + 4) + Get16(pos + 4));
      ghost var low, high := disk[prePos + 4], disk[prePos + 5];
      Put32(pos, 0);
      assert disk[prePos + 4] == low && disk[prePos + 5] == high;
      assert Le16(disk[..], prePos + 4) == Le16(old(disk[..]), prePos + 4) + Le16(old(disk[..]), pos + 4);
    }
  }
}
