/** The records of an ext2 directory block, as a list. */
module DirRecords {
  import opened Options

  type Byte = b: nat | b < 256

  datatype Rec = Rec(inode: nat, recLen: nat, ftype: nat, name: seq<Byte>)

  datatype Recs = Nil | Cons(rec: Rec, rest: Recs)

  const FT_SYMLINK := 7

  /** `round_up`: a multiple of four gains four. */
  function RoundUp(n: nat): (r: nat)
    ensures r % 4 == 0 && n < r <= n + 4
  {
    n + (4 - n % 4)
  }

  /** What `create_link` reserves for a new record: for a symbolic link only the length of its name; else eight bytes
      for the pointer and four for the constant are counted, too. */
  function NewSize(nameLen: nat, mode: nat): nat {
    if mode == FT_SYMLINK then nameLen else RoundUp(4 + 2 + 8 + nameLen + 4)
  }

  /** What it leaves to a record that is there. */
  function UsedSize(nameLen: nat): nat {
    RoundUp(4 + 2 + 1 + nameLen + 1)
  }

  predicate HasRoom(r: Rec, nameLen: nat, mode: nat) {
    UsedSize(|r.name|) + NewSize(nameLen, mode) <= r.recLen
  }

  /** The name as its one-byte length records it. */
  function Stored(name: seq<Byte>): seq<Byte> {
    name[..|name| % 256]
  }

  /** The record that gets the new name when `r` is split. */
  function Fresh(r: Rec, inode: nat, name: seq<Byte>, mode: nat): Rec
    requires UsedSize(|r.name|) <= r.recLen
  {
    Rec(inode, r.recLen - UsedSize(|r.name|), mode, Stored(name))
  }

  /** The records after `create_link`, if one has room. */
  function Insert(rs: Recs, inode: nat, name: seq<Byte>, mode: nat): Option<Recs> {
    match rs
    case Nil => None
    case Cons(r, rest) =>
      var used := UsedSize(|r.name|);
      if HasRoom(r, |name|, mode) then
        Some(Cons(r.(recLen := used), Cons(Fresh(r, inode, name, mode), rest)))
      else
        match Insert(rest, inode, name, mode)
        case None => None
        case Some(rest') => Some(Cons(r, rest'))
  }

  /** The first record of that name: `find_dir_entry` within a block. */
  function Find(rs: Recs, name: seq<Byte>): Option<Rec> {
    match rs
    case Nil => None
    case Cons(r, rest) => if r.name == name then Some(r) else Find(rest, name)
  }

  /** What a lookup is for: inode and type. */
  function Lookup(rs: Recs, name: seq<Byte>): Option<(nat, nat)> {
    match Find(rs, name)
    case None => None
    case Some(r) => Some((r.inode, r.ftype))
  }

  /** The records after the unlink of `ext2_rm`: the one before takes over the length; a first record is its own
      predecessor, and its length doubles. */
  function Remove(rs: Recs, name: seq<Byte>): Recs {
    match rs
    case Nil => Nil
    case Cons(r, rest) =>
      if r.name == name then Cons(r.(recLen := r.recLen + r.recLen, inode := 0), rest) else RemoveAfter(r, rest, name)
  }

  /** The same behind a record `r` that is not the one. */
  function RemoveAfter(r: Rec, rest: Recs, name: seq<Byte>): Recs
    decreases rest
  {
    match rest
    case Nil => Cons(r, Nil)
    case Cons(d, after) =>
      if d.name == name then Cons(r.(recLen := r.recLen + d.recLen), after) else Cons(r, RemoveAfter(d, after, name))
  }

  function Total(rs: Recs): nat {
    match rs case Nil => 0 case Cons(r, rest) => r.recLen + Total(rest)
  }

  /** Lengths are multiples of four and hold the header and the name. */
  predicate WellFormed(rs: Recs) {
    match rs case Nil => true case Cons(r, rest) => r.recLen % 4 == 0 && 8 + |r.name| <= r.recLen && WellFormed(rest)
  }

  // ----- Insertion ------------------------------------------------------------------------------

  /** The record `create_link` splits. */
  function Split(rs: Recs, nameLen: nat, mode: nat): Option<Rec> {
    match rs
    case Nil => None
    case Cons(r, rest) => if HasRoom(r, nameLen, mode) then Some(r) else Split(rest, nameLen, mode)
  }

  /** Header, name and terminator of the new record stay within what the split one leaves. */
  predicate Contained(r: Rec, nameLen: nat) {
    UsedSize(|r.name|) + 9 + nameLen <= r.recLen
  }

  /** So they do for the record that `create_link` splits, if there is one. */
  predicate FitsIn(rs: Recs, nameLen: nat, mode: nat) {
    Split(rs, nameLen, mode).Some? ==> Contained(Split(rs, nameLen, mode).value, nameLen)
  }

  /** Of all but symbolic links that is always so. */
  lemma {:induction false} NewSizeSuffices(rs: Recs, nameLen: nat, mode: nat)
    requires mode != FT_SYMLINK
    ensures FitsIn(rs, nameLen, mode)
  {
    if rs.Cons? && !HasRoom(rs.rec, nameLen, mode) { NewSizeSuffices(rs.rest, nameLen, mode); }
  }

  /** A successful insertion keeps the total length, and keeps the block well formed if the new record fits. By the
      lengths alone the block is well formed exactly when there is room for the header and the name as recorded. */
  lemma {:induction false} InsertWellFormed(rs: Recs, inode: nat, name: seq<Byte>, mode: nat)
    requires WellFormed(rs) && Insert(rs, inode, name, mode).Some?
    ensures Split(rs, |name|, mode).Some? && Total(Insert(rs, inode, name, mode).value) == Total(rs)
    ensures FitsIn(rs, |name|, mode) ==> WellFormed(Insert(rs, inode, name, mode).value)
    ensures var r := Split(rs, |name|, mode).value;
            WellFormed(Insert(rs, inode, name, mode).value) <==> UsedSize(|r.name|) + 8 + |Stored(name)| <= r.recLen
  {
    if !HasRoom(rs.rec, |name|, mode) {
      InsertWellFormed(rs.rest, inode, name, mode);
    }
  }

  /** A symbolic link need not fit: a record of sixteen bytes is split for a name of four, which leaves four. */
  lemma SymlinkTooSmall(rs: Recs, name: seq<Byte>)
    requires rs == Cons(Rec(2, 16, 2, [46]), Nil) && |name| == 4
    ensures WellFormed(rs) && Insert(rs, 9, name, FT_SYMLINK).Some?
         && !WellFormed(Insert(rs, 9, name, FT_SYMLINK).value)
    ensures !FitsIn(rs, |name|, FT_SYMLINK)
  {
    assert RoundUp(9) == 12;
    assert Insert(rs, 9, name, FT_SYMLINK).value
        == Cons(Rec(2, 12, 2, [46]), Cons(Rec(9, 4, FT_SYMLINK, Stored(name)), Nil));
  }

  /** And it need not fit although the lengths do: in a record of 24 bytes a name of four ends where the record ends,
      and its terminator falls on the next record. */
  lemma SymlinkTooLong(rs: Recs, name: seq<Byte>, next: Rec)
    requires rs == Cons(Rec(2, 24, 2, [46]), Cons(next, Nil)) && |name| == 4 && WellFormed(Cons(next, Nil))
    ensures WellFormed(rs) && Insert(rs, 9, name, FT_SYMLINK).Some? && WellFormed(Insert(rs, 9, name, FT_SYMLINK).value)
    ensures UsedSize(1) + 8 + |name| == 24 && !FitsIn(rs, |name|, FT_SYMLINK)
  {
    InsertWellFormed(rs, 9, name, FT_SYMLINK);
  }

  lemma FindInSplit(r: Rec, d: Rec, rest: Recs, name: seq<Byte>)
    ensures Find(Cons(r, Cons(d, rest)), name)
         == if r.name == name then Some(r) else if d.name == name then Some(d) else Find(rest, name)
  {
    assert Find(Cons(d, rest), name) == if d.name == name then Some(d) else Find(rest, name);
  }

  /** The new name is found with its inode exactly when its length fits in a byte. */
  lemma {:induction false} InsertedIsFoundIff(rs: Recs, inode: nat, name: seq<Byte>, mode: nat)
    requires Find(rs, name).None? && Insert(rs, inode, name, mode).Some? && FitsIn(rs, |name|, mode)
    ensures Lookup(Insert(rs, inode, name, mode).value, name) == if |name| < 256 then Some((inode, mode)) else None
  {
    if HasRoom(rs.rec, |name|, mode) {
      assert |name| < 256 ==> Stored(name) == name;
      assert |name| >= 256 ==> |Stored(name)| < |name|;
      var r := rs.rec;
      FindInSplit(r.(recLen := UsedSize(|r.name|)), Fresh(r, inode, name, mode), rs.rest, name);
    } else {
      InsertedIsFoundIff(rs.rest, inode, name, mode);
    }
  }

  /** The records up to the one `create_link` splits. */
  function Upto(rs: Recs, nameLen: nat, mode: nat): Recs {
    match rs
    case Nil => Nil
    case Cons(r, rest) => if HasRoom(r, nameLen, mode) then Cons(r, Nil) else Cons(r, Upto(rest, nameLen, mode))
  }

  /** What any lookup gives after the insertion: the new record for the name as recorded, unless one of that name stands
      before it; and what it gave before for every other name. */
  lemma {:induction false} LookupAfterInsert(rs: Recs, inode: nat, name: seq<Byte>, mode: nat, other: seq<Byte>)
    requires Insert(rs, inode, name, mode).Some? && FitsIn(rs, |name|, mode)
    ensures Lookup(Insert(rs, inode, name, mode).value, other)
         == if other == Stored(name) && Find(Upto(rs, |name|, mode), other).None? then Some((inode, mode))
            else Lookup(rs, other)
  {
    var r := rs.rec;
    if HasRoom(r, |name|, mode) {
      assert Find(Cons(r, Nil), other) == if r.name == other then Some(r) else Find(Nil, other);
      FindInSplit(r.(recLen := UsedSize(|r.name|)), Fresh(r, inode, name, mode), rs.rest, other);
    } else {
      LookupAfterInsert(rs.rest, inode, name, mode, other);
    }
  }

  function Append(before: Recs, rest: Recs): Recs {
    match before case Nil => rest case Cons(r, more) => Cons(r, Append(more, rest))
  }

  /** The bytes a record keeps when it is split: eight, its name, and on to the next multiple of four. */
  function KeptLen(nameLen: nat): (n: nat)
    ensures n % 4 == 0 && 8 + nameLen < n <= 8 + nameLen + 4
  {
    4 * ((8 + nameLen) / 4) + 4
  }

  /** By lengths: what a record must have, for its own name and for the new one. */
  predicate Spacious(r: Rec, nameLen: nat, mode: nat) {
    KeptLen(|r.name|) + (if mode == 7 then nameLen else 4 * ((18 + nameLen) / 4) + 4) <= r.recLen
  }

  predicate NoneSpacious(rs: Recs, nameLen: nat, mode: nat) {
    match rs case Nil => true case Cons(r, rest) => !Spacious(r, nameLen, mode) && NoneSpacious(rest, nameLen, mode)
  }

  lemma RoomByLengths(r: Rec, nameLen: nat, mode: nat)
    ensures HasRoom(r, nameLen, mode) <==> Spacious(r, nameLen, mode)
    ensures UsedSize(|r.name|) == KeptLen(|r.name|)
  {
  }

  /** The insertion by the records around it: the first record with enough room is split, keeps all but its length,
      and is followed by the new record with the rest of the length; all others stay. */
  lemma {:induction false} InsertIs(before: Recs, r: Rec, rest: Recs, inode: nat, name: seq<Byte>, mode: nat)
    requires NoneSpacious(before, |name|, mode) && Spacious(r, |name|, mode)
    ensures Insert(Append(before, Cons(r, rest)), inode, name, mode)
         == Some(Append(before, Cons(Rec(r.inode, KeptLen(|r.name|), r.ftype, r.name),
                                     Cons(Rec(inode, r.recLen - KeptLen(|r.name|), mode, name[..|name| % 256]), rest))))
  {
    match before
    case Nil => RoomByLengths(r, |name|, mode);
    case Cons(q, more) =>
      RoomByLengths(q, |name|, mode);
      InsertIs(more, r, rest, inode, name, mode);
  }

  /** It fails exactly when no record has that room. */
  lemma {:induction false} InsertFailsIff(rs: Recs, inode: nat, name: seq<Byte>, mode: nat)
    ensures Insert(rs, inode, name, mode).None? <==> NoneSpacious(rs, |name|, mode)
  {
    if rs.Cons? {
      RoomByLengths(rs.rec, |name|, mode);
      InsertFailsIff(rs.rest, inode, name, mode);
    }
  }

  predicate NoneNamed(rs: Recs, name: seq<Byte>) {
    match rs case Nil => true case Cons(r, rest) => r.name != name && NoneNamed(rest, name)
  }

  /** A lookup finds the first record of the name. */
  lemma {:induction false} FindIs(before: Recs, r: Rec, rest: Recs)
    requires NoneNamed(before, r.name)
    ensures Find(Append(before, Cons(r, rest)), r.name) == Some(r)
  {
    if before.Cons? { FindIs(before.rest, r, rest); }
  }

  /** And nothing exactly when there is none. */
  lemma {:induction false} FindsNothingIff(rs: Recs, name: seq<Byte>)
    ensures Find(rs, name).None? <==> NoneNamed(rs, name)
  {
    if rs.Cons? { FindsNothingIff(rs.rest, name); }
  }

  /** The removal by the records around it: the first record of the name is gone, and the one before it takes over its
      length; all others stay. */
  lemma {:induction false} RemoveIs(before: Recs, r: Rec, d: Rec, rest: Recs)
    requires NoneNamed(before, d.name) && r.name != d.name
    ensures Remove(Append(before, Cons(r, Cons(d, rest))), d.name)
         == Append(before, Cons(Rec(r.inode, r.recLen + d.recLen, r.ftype, r.name), rest))
  {
    if before.Cons? {
      RemoveIs(before.rest, r, d, rest);
      RemoveCons(before.rec, Append(before.rest, Cons(r, Cons(d, rest))), d.name);
      if before.rest.Nil? {
        RemoveCons(before.rec, Cons(r, Cons(d, rest)), d.name);
      }
    }
  }

  /** A record of another name in front of one of another name stays in front. */
  lemma RemoveCons(q: Rec, rs: Recs, name: seq<Byte>)
    requires q.name != name && rs.Cons? && rs.rec.name != name
    ensures Remove(Cons(q, rs), name) == Cons(q, Remove(rs, name))
  {
  }

  // ----- Insertion and removal ------------------------------------------------------------------

  lemma {:induction false} RemoveAfterUndoes(r: Rec, rs: Recs, inode: nat, name: seq<Byte>, mode: nat)
    requires Find(rs, name).None? && Insert(rs, inode, name, mode).Some? && |name| < 256 && FitsIn(rs, |name|, mode)
    ensures RemoveAfter(r, Insert(rs, inode, name, mode).value, name) == Cons(r, rs)
    decreases rs
  {
    assert Stored(name) == name;
    if !HasRoom(rs.rec, |name|, mode) {
      RemoveAfterUndoes(rs.rec, rs.rest, inode, name, mode);
    }
  }

  /** Creating a fresh name and removing it restores the records. */
  lemma RemoveUndoesInsert(rs: Recs, inode: nat, name: seq<Byte>, mode: nat)
    requires Find(rs, name).None? && Insert(rs, inode, name, mode).Some? && |name| < 256 && FitsIn(rs, |name|, mode)
    ensures Remove(Insert(rs, inode, name, mode).value, name) == rs
  {
    assert Stored(name) == name;
    if !HasRoom(rs.rec, |name|, mode) {
      RemoveAfterUndoes(rs.rec, rs.rest, inode, name, mode);
    }
  }

  /** Removal of a name that is not first keeps a block well formed and its total length. */
  lemma {:induction false} RemoveAfterKeeps(r: Rec, rest: Recs, name: seq<Byte>)
    requires WellFormed(Cons(r, rest))
    ensures WellFormed(RemoveAfter(r, rest, name)) && Total(RemoveAfter(r, rest, name)) == r.recLen + Total(rest)
    decreases rest
  {
    if rest.Cons? && rest.rec.name != name {
      RemoveAfterKeeps(rest.rec, rest.rest, name);
    }
  }

  /** The total length survives a removal exactly when the name is absent or not first. */
  lemma RemoveKeepsTotalIff(rs: Recs, name: seq<Byte>)
    requires WellFormed(rs)
    ensures Total(Remove(rs, name)) == Total(rs) <==> rs.Nil? || rs.rec.name != name
  {
    if rs.Cons? && rs.rec.name != name { RemoveAfterKeeps(rs.rec, rs.rest, name); }
  }

  /** Removal of one name leaves the lookup of every other. */
  lemma {:induction false} RemoveAfterOthers(r: Rec, rest: Recs, name: seq<Byte>, other: seq<Byte>)
    requires other != name && r.name != name
    ensures Lookup(RemoveAfter(r, rest, name), other) == Lookup(Cons(r, rest), other)
    decreases rest
  {
    if rest.Cons? {
      FindInSplit(r, rest.rec, rest.rest, other);
      if rest.rec.name != name { RemoveAfterOthers(rest.rec, rest.rest, name, other); }
    }
  }

  // ----- All directory blocks of an image -------------------------------------------------------

  const FT_REG_FILE := 1

  datatype Outcome = NotFound | IsDirectory | Removed

  /** The first block, from the `i`-th on, that holds the name: the blocks are searched by name alone. */
  function FirstWith(blocks: seq<Recs>, i: nat, name: seq<Byte>): (k: nat)
    requires i <= |blocks|
    ensures i <= k <= |blocks| && (k < |blocks| ==> Find(blocks[k], name).Some?)
    decreases |blocks| - i
  {
    if i == |blocks| || Find(blocks[i], name).Some? then i else FirstWith(blocks, i + 1, name)
  }

  /** What `create_link` makes of the blocks, with the `k`-th for its directory. */
  function Linked(blocks: seq<Recs>, k: nat, inode: nat, name: seq<Byte>, mode: nat): Option<seq<Recs>>
    requires k < |blocks|
  {
    match Insert(blocks[k], inode, name, mode)
    case None => None
    case Some(rs) => Some(blocks[k := rs])
  }

  /** What `ext2_rm` makes of a name: it removes the first record of that name if that is a file or a link. */
  function Unlinked(blocks: seq<Recs>, name: seq<Byte>): (Outcome, seq<Recs>) {
    var k := FirstWith(blocks, 0, name);
    if k == |blocks| then (NotFound, blocks)
    else if Find(blocks[k], name).value.ftype != FT_SYMLINK && Find(blocks[k], name).value.ftype != FT_REG_FILE then
      (IsDirectory, blocks)
    else (Removed, blocks[k := Remove(blocks[k], name)])
  }

  lemma {:induction false} FirstWithIs(blocks: seq<Recs>, i: nat, k: nat, name: seq<Byte>)
    requires i <= k < |blocks| && Find(blocks[k], name).Some?
    requires forall j | i <= j < k :: Find(blocks[j], name).None?
    ensures FirstWith(blocks, i, name) == k
    decreases k - i
  {
    if i < k { FirstWithIs(blocks, i + 1, k, name); }
  }

  /** A lookup over all blocks. */
  function LookupIn(blocks: seq<Recs>, name: seq<Byte>): Option<(nat, nat)> {
    var k := FirstWith(blocks, 0, name);
    if k == |blocks| then None else Lookup(blocks[k], name)
  }

  /** What any lookup over all blocks gives after a creation in the `k`-th: the new record for the name as recorded,
      unless an earlier block, or an earlier record of its block, has that name; and what it gave before otherwise. */
  lemma LinkedLookups(blocks: seq<Recs>, k: nat, inode: nat, name: seq<Byte>, mode: nat, other: seq<Byte>)
    requires k < |blocks| && Linked(blocks, k, inode, name, mode).Some? && FitsIn(blocks[k], |name|, mode)
    ensures LookupIn(Linked(blocks, k, inode, name, mode).value, other)
         == if other == Stored(name) && FirstWith(blocks, 0, other) >= k
               && Find(Upto(blocks[k], |name|, mode), other).None?
            then Some((inode, mode)) else LookupIn(blocks, other)
  {
    var after, j := Linked(blocks, k, inode, name, mode).value, FirstWith(blocks, 0, other);
    LookupAfterInsert(blocks[k], inode, name, mode, other);
    NoneBefore(blocks, 0, other);
    if j < |blocks| && (j < k || Find(after[k], other).None?) {
      FirstWithIs(after, 0, j, other);
    } else if Find(after[k], other).Some? {
      FirstWithIs(after, 0, k, other);
    } else {
      NoneAtAll(after, 0, other);
    }
  }

  lemma {:induction false} NoneAtAll(blocks: seq<Recs>, i: nat, name: seq<Byte>)
    requires i <= |blocks| && forall j | i <= j < |blocks| :: Find(blocks[j], name).None?
    ensures FirstWith(blocks, i, name) == |blocks|
    decreases |blocks| - i
  {
    if i < |blocks| { NoneAtAll(blocks, i + 1, name); }
  }

  lemma UnlinkUndoesFresh(blocks: seq<Recs>, k: nat, inode: nat, name: seq<Byte>, mode: nat)
    requires k < |blocks| && |name| < 256 && forall j | 0 <= j <= k :: Find(blocks[j], name).None?
    requires Linked(blocks, k, inode, name, mode).Some? && FitsIn(blocks[k], |name|, mode)
    ensures Unlinked(Linked(blocks, k, inode, name, mode).value, name)
         == if mode == FT_REG_FILE || mode == FT_SYMLINK then (Removed, blocks)
            else (IsDirectory, Linked(blocks, k, inode, name, mode).value)
  {
    var rs := Insert(blocks[k], inode, name, mode).value;
    InsertedIsFoundIff(blocks[k], inode, name, mode);
    RemoveUndoesInsert(blocks[k], inode, name, mode);
    FirstWithIs(blocks[k := rs], 0, k, name);
    assert blocks[k := rs][k := blocks[k]] == blocks;
  }

  /** If an earlier block holds the name, it is that record which goes, and the new one stays. */
  lemma UnlinkTakesTheFirst(blocks: seq<Recs>, j: nat, k: nat, inode: nat, name: seq<Byte>, mode: nat)
    requires j < k < |blocks| && FirstWith(blocks, 0, name) == j && Linked(blocks, k, inode, name, mode).Some?
    ensures var after := Linked(blocks, k, inode, name, mode).value;
            Unlinked(after, name).1[k] == after[k] && Unlinked(after, name).0 == Unlinked(blocks, name).0
  {
    NoneBefore(blocks, 0, name);
    FirstWithIs(Linked(blocks, k, inode, name, mode).value, 0, j, name);
  }

  /** A creation under a name that its block lacks is undone by the unlink, with every block as before, if and only if
      it was of a file or a link and no earlier block holds the name. */
  lemma UnlinkUndoesCreateIff(blocks: seq<Recs>, k: nat, inode: nat, name: seq<Byte>, mode: nat)
    requires k < |blocks| && |name| < 256 && Find(blocks[k], name).None?
    requires Linked(blocks, k, inode, name, mode).Some? && FitsIn(blocks[k], |name|, mode)
    ensures Unlinked(Linked(blocks, k, inode, name, mode).value, name) == (Removed, blocks)
       <==> (mode == FT_REG_FILE || mode == FT_SYMLINK) && forall j | 0 <= j < k :: Find(blocks[j], name).None?
  {
    var j := FirstWith(blocks, 0, name);
    NoneBefore(blocks, 0, name);
    if j < k {
      InsertedIsFoundIff(blocks[k], inode, name, mode);
      UnlinkTakesTheFirst(blocks, j, k, inode, name, mode);
    } else {
      UnlinkUndoesFresh(blocks, k, inode, name, mode);
    }
  }

  /** The unlink by the blocks, with `k` the first that holds the name: not found exactly when none does; refused when
      the record found there is neither a file nor a link, and then nothing changes either; and otherwise the removal
      in that block alone. */
  lemma UnlinkedMeans(blocks: seq<Recs>, k: nat, name: seq<Byte>)
    requires k <= |blocks| && (k < |blocks| ==> Find(blocks[k], name).Some?)
    requires forall j | 0 <= j < k :: NoneNamed(blocks[j], name)
    ensures var (outcome, after) := Unlinked(blocks, name);
            (outcome == NotFound <==> k == |blocks|)
            && (outcome == IsDirectory <==>
                  k < |blocks| && Find(blocks[k], name).value.ftype != 1 && Find(blocks[k], name).value.ftype != 7)
            && after == if outcome == Removed then blocks[k := Remove(blocks[k], name)] else blocks
  {
    forall j | 0 <= j < k ensures Find(blocks[j], name).None? {
      FindsNothingIff(blocks[j], name);
    }
    if k < |blocks| { FirstWithIs(blocks, 0, k, name); } else { NoneAtAll(blocks, 0, name); }
  }

  lemma NotFoundIff(blocks: seq<Recs>, name: seq<Byte>)
    ensures Unlinked(blocks, name).0 == NotFound <==> forall j | 0 <= j < |blocks| :: Find(blocks[j], name).None?
  {
    NoneBefore(blocks, 0, name);
  }

  lemma {:induction false} NoneBefore(blocks: seq<Recs>, i: nat, name: seq<Byte>)
    requires i <= |blocks|
    ensures forall j | i <= j < FirstWith(blocks, i, name) :: Find(blocks[j], name).None?
    decreases |blocks| - i
  {
    if i < |blocks| && Find(blocks[i], name).None? { NoneBefore(blocks, i + 1, name); }
  }
}
