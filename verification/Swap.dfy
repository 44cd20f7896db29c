/** The swap area: slots handed out by the bitmap, and the page data written to them. */
module Swap {
  import opened Bitmap
  import opened PteWord

  /** The sixteen bytes of a simulated page frame: a version counter and the address recorded in it. */
  datatype Contents = Contents(version: int, vaddr: nat)

  const SLOT := 16
  const MAX_SLOTS := 0x800_0000

  /** `idx * SIMPAGESIZE`: an unsigned product, then stored in an int. */
  function Offset(idx: nat): int {
    var u := idx * SLOT % 0x1_0000_0000;
    if u < 0x8000_0000 then u else u - 0x1_0000_0000
  }

  /** All slots of a swap area have the byte offsets they should exactly when it has at most 2^27 of them. */
  lemma OffsetsExactIff(size: nat)
    requires size < 0x1_0000_0000
    ensures (forall i: nat | i < size :: Offset(i) == 16 * i) <==> size <= 0x800_0000
  {
    if size > MAX_SLOTS {
      assert Offset(MAX_SLOTS) != 16 * MAX_SLOTS;
    }
  }

  /** The bitmap's set of slots and the swap file, by byte offset. */
  datatype Area = Area(size: nat, used: set<nat>, file: map<int, Contents>)

  /** `swap_pageout`: where the data went, or `INVALID_SWAP`. A negative position cannot be sought. */
  function PageOut(a: Area, data: Contents, swapOff: int): (r: (Area, int)) {
    var idx := LeastFree(a.used, 0, a.size);
    if swapOff != INVALID_SWAP then
      if swapOff < 0 then (a, INVALID_SWAP) else (a.(file := a.file[swapOff := data]), swapOff)
    else if idx == a.size then (a, INVALID_SWAP)
    else
      var b := a.(used := a.used + {idx});
      if Offset(idx) < 0 then (b, INVALID_SWAP) else (b.(file := b.file[Offset(idx) := data]), Offset(idx))
  }

  /** Something has been written behind that offset. */
  predicate WrittenBehind(file: map<int, Contents>, off: int) {
    exists o | o in file :: o > off
  }

  /** `swap_pagein`: what the frame holds afterwards. A hole in the file reads as zeros; past its end, and at a negative
      position, nothing is read. */
  function PageIn(a: Area, swapOff: int, before: Contents): Contents
    requires swapOff != INVALID_SWAP
  {
    if swapOff < 0 then before
    else if swapOff in a.file then a.file[swapOff]
    else if WrittenBehind(a.file, swapOff) then Contents(0, 0)
    else before
  }

  /** A page-in gives back what the page-out wrote, and what any other slot held before. */
  lemma PageInAfterPageOut(a: Area, data: Contents, swapOff: int, before: Contents, other: int)
    requires PageOut(a, data, swapOff).1 != INVALID_SWAP
    ensures var (b, off) := PageOut(a, data, swapOff);
            PageIn(b, off, before) == data
            && (other in a.file && other != off && other != INVALID_SWAP ==>
                  PageIn(b, other, before) == PageIn(a, other, before))
  {
  }

  /** What has never been written reads as zeros in front of written data, and leaves the frame as it was behind it. */
  lemma HolesReadAsZeros(a: Area, off: int, before: Contents)
    requires off != -1 && off !in a.file
    ensures off < 0 ==> PageIn(a, off, before) == before
    ensures off >= 0 && (exists o :: o in a.file && off < o) ==> PageIn(a, off, before) == Contents(0, 0)
    ensures (forall o | o in a.file :: o < off) ==> PageIn(a, off, before) == before
  {
  }

  /** A page-out by its result: it fails for a position that cannot be sought, and for a page without a slot when none
      is free; the file changes at the position returned and nowhere else; and a slot is taken exactly for a page
      without one, the least free, even when its position cannot be sought. */
  lemma PageOutMeans(a: Area, data: Contents, swapOff: int, idx: nat)
    requires idx <= a.size && (forall i: nat | i < idx :: i in a.used) && (idx < a.size ==> idx !in a.used)
    ensures var (b, off) := PageOut(a, data, swapOff);
            (off == -1 <==>
               if swapOff != -1 then swapOff < 0 else idx == a.size || idx * 16 % 0x1_0000_0000 >= 0x8000_0000)
            && (off != -1 ==> off == if swapOff != -1 then swapOff else idx * 16 % 0x1_0000_0000)
            && b == Area(a.size, if swapOff == -1 && idx < a.size then a.used + {idx} else a.used,
                         if off == -1 then a.file else a.file[off := data])
  {
    LeastFreeIs(a.used, a.size, idx);
  }

  /** The swap area as the program holds it. */
  class SwapArea {
    const slots: Map
    var file: map<int, Contents>

    ghost predicate Valid()
      reads this, slots, slots.v
    {
      slots.Valid()
    }

    ghost function Abs(): Area
      requires Valid()
      reads this, slots, slots.v
    {
      Area(slots.nbits, slots.Used(), file)
    }

    /** `swap_init`, for any size; the bitmap has a bit for each slot but for the last 31 sizes. */
    constructor (swapsize: nat)
      requires swapsize < 0x1_0000_0000
      ensures Valid() <==> swapsize <= 0xffff_ffe0
      ensures Valid() ==> Abs() == Area(swapsize, {}, map[])
      ensures fresh(slots) && fresh(slots.v)
    {
      slots := new Map(swapsize);
      file := map[];
    }

    method WriteOut(data: Contents, swapOff: int) returns (off: int)
      requires Valid()
      modifies this, slots.v
      ensures Valid() && (Abs(), off) == PageOut(old(Abs()), data, swapOff)
    {
      off := swapOff;
      if off == INVALID_SWAP {
        var ok, idx := slots.Alloc();
        if !ok {
          return INVALID_SWAP;
        }
        off := Offset(idx);
      }
      if off < 0 {
        return INVALID_SWAP;
      }
      file := file[off := data];
    }

    /** `swap_pagein`. */
    method ReadIn(before: Contents, swapOff: int) returns (data: Contents)
      requires Valid() && swapOff != INVALID_SWAP
      ensures data == PageIn(Abs(), swapOff, before)
    {
      if swapOff < 0 {
        data := before;
      } else if swapOff in file {
        data := file[swapOff];
      } else {
        data := if WrittenBehind(file, swapOff) then Contents(0, 0) else before;
      }
    }

    /** A client that writes a page out and reads it in again: what it wrote comes back, unless there is no slot or its
        offset cannot be sought. */
    method OutAndIn(data: Contents, swapOff: int, before: Contents) returns (off: int, back: Contents)
      requires Valid()
      modifies this, slots.v
      ensures Valid() && (Abs(), off) == PageOut(old(Abs()), data, swapOff)
      ensures off != INVALID_SWAP ==> back == data
    {
      ghost var a := Abs();
      off := WriteOut(data, swapOff);
      back := before;
      if off != INVALID_SWAP {
        PageInAfterPageOut(a, data, swapOff, before, off);
        back := ReadIn(before, off);
      }
    }
  }
}
