/** The simulator as the program holds it: page table words, coremap and physical memory updated in place. */
module Simulator {
  import opened Options
  import opened Demand
  import opened PteWord
  import opened Swap
  import opened Paging
  import opened Runs

  /** A page table entry: the word with frame number and flags, and the swap offset. */
  datatype Entry = Entry(word: nat, swapOff: int)

  function EntryOf(table: map<Page, Entry>, p: Page): Entry {
    if p in table then table[p] else Entry(0, INVALID_SWAP)
  }

  function Decoded(table: map<Page, Entry>): map<Page, Pte> {
    map p | p in table :: Decode(table[p].word, table[p].swapOff)
  }

  lemma DecodedEntry(table: map<Page, Entry>, p: Page)
    ensures PteOf(Decoded(table), p) == Decode(EntryOf(table, p).word, EntryOf(table, p).swapOff)
  {
  }

  lemma DecodedUpdate(table: map<Page, Entry>, p: Page, e: Entry)
    ensures Decoded(table[p := e]) == Decoded(table)[p := Decode(e.word, e.swapOff)]
  {
  }

  /** The REF bit of a page. */
  predicate RefOn(table: map<Page, Entry>, p: Page) {
    Flag(EntryOf(table, p).word, REF)
  }

  class Sim {
    const coremap: array<Option<Page>>
    const physmem: array<Contents>
    const swap: SwapArea
    var table: map<Page, Entry>
    var hits: nat
    var misses: nat
    var refs: nat
    var clean: nat
    var dirty: nat

    ghost predicate Valid()
      reads this, coremap, swap, swap.slots, swap.slots.v
    {
      swap.Valid() && coremap.Length == physmem.Length <= 0x10_0000
      && coremap as object != physmem && coremap as object != swap.slots.v && physmem as object != swap.slots.v
    }

    ghost function Abs(): State
      requires Valid()
      reads this, coremap, physmem, swap, swap.slots, swap.slots.v
    {
      State(coremap[..], Decoded(table), physmem[..], swap.Abs(), hits, misses, refs, clean, dirty)
    }

    /** The set-up in `main`, for any sizes. The frame numbers must fit in the twenty bits a page table word has for
        them, and the bitmap of the swap area must cover its slots. */
    constructor (memsize: nat, swapsize: nat, memory: seq<Contents>)
      requires memsize == |memory| && swapsize < 0x1_0000_0000
      ensures Valid() <==> memsize <= 0x10_0000 && swapsize <= 0xffff_ffe0
      ensures Valid() ==> Abs() == Start(Machine(memory, swapsize, false))
      ensures fresh(coremap) && fresh(physmem) && fresh(swap) && fresh(swap.slots.v)
    {
      coremap := new Option<Page>[memsize](_ => None);
      physmem := new Contents[memsize](i requires 0 <= i < |memory| => memory[i]);
      swap := new SwapArea(swapsize);
      table := map[];
      hits, misses, refs, clean, dirty := 0, 0, 0, 0, 0;
    }

    /** The eviction half of `allocate_frame`. */
    method EvictFrame(frame: nat)
      requires Valid() && frame < coremap.Length && coremap[frame].Some?
      modifies this`table, this`clean, this`dirty, swap, swap.slots.v
      ensures Valid() && Abs() == Evict(old(Abs()), frame)
      ensures forall r :: RefOn(table, r) == old(RefOn(table, r))
    {
      var q := coremap[frame].value;
      var bye := EntryOf(table, q);
      DecodedEntry(table, q);
      if !Flag(bye.word, DIRTY) {
        clean := clean + 1;
      } else {
        dirty := dirty + 1;
        var offset := swap.WriteOut(physmem[frame], bye.swapOff);
        if offset != INVALID_SWAP {
          EvictedWord(bye.word, offset, true);
          bye := Entry(Set(bye.word, ONSWAP), offset);
        }
      }
      EvictedWord(bye.word, bye.swapOff, false);
      bye := bye.(word := Clear(bye.word, VALID));
      DecodedUpdate(table, q, bye);
      table := table[q := bye];
    }

    method AllocateFrame(p: Page, victim: nat) returns (frame: nat)
      requires Valid() && victim < coremap.Length
      modifies this`table, this`clean, this`dirty, coremap, swap, swap.slots.v
      ensures Valid() && (Abs(), frame) == Allocate(old(Abs()), p, victim)
      ensures forall r :: RefOn(table, r) == old(RefOn(table, r))
    {
      frame := 0;
      while frame < coremap.Length && coremap[frame].Some?
        invariant 0 <= frame <= coremap.Length
        invariant forall k | 0 <= k < frame :: coremap[k].Some?
      {
        frame := frame + 1;
      }
      FirstFreeIs(coremap[..], frame);
      if frame == coremap.Length {
        frame := victim;
        EvictFrame(frame);
      }
      coremap[frame] := Some(p);
    }

    /** `init_frame`. */
    method InitFrame(frame: nat, vaddr: nat)
      requires frame < physmem.Length
      modifies physmem
      ensures physmem[..] == old(physmem[..])[frame := Contents(0, vaddr)]
    {
      physmem[frame] := Contents(0, vaddr);
    }

    /** The miss branch of `find_physpage` once it has a frame. */
    method FillFrame(p: Page, vaddr: nat, f: nat)
      requires Valid() && f < physmem.Length
      modifies this`table, physmem
      ensures Valid()
      ensures var s := old(Abs());
              Abs() == s.(table := s.table[p := Pte(f, false, false, false, PteOf(s.table, p).swapOff)],
                          phys := s.phys[f := Contents(0, vaddr)])
      ensures forall r | r != p :: RefOn(table, r) == old(RefOn(table, r))
    {
      var e := Entry(Shifted(f), EntryOf(table, p).swapOff);
      DecodedEntry(table, p);
      DecodedUpdate(table, p, e);
      table := table[p := e];
      if Flag(e.word, ONSWAP) {
        // `swap_pagein` stands here, but the word has just been overwritten and the flag is never found set.
        ShiftedFits(f);
        assert false;
      } else {
        ShiftedFits(f);
        InitFrame(f, vaddr);
      }
    }

    /** The miss branch of `find_physpage`. */
    method LoadPage(p: Page, vaddr: nat, victim: nat) returns (f: nat)
      requires Valid() && victim < coremap.Length && p == PageOf(vaddr)
      modifies this`table, this`clean, this`dirty, this`misses, coremap, physmem, swap, swap.slots.v
      ensures Valid() && (Abs(), f) == Load(old(Abs()), vaddr, victim, false)
      ensures forall r | r != p :: RefOn(table, r) == old(RefOn(table, r))
    {
      misses := misses + 1;
      f := AllocateFrame(p, victim);
      FillFrame(p, vaddr, f);
    }

    /** The flags set at the end of `find_physpage`. */
    method MarkAccessed(p: Page, kind: char) returns (frame: nat)
      requires Valid()
      modifies this`table
      ensures Valid() && Abs() == Mark(old(Abs()), p, kind) && frame == PteOf(old(Abs()).table, p).frame
      ensures RefOn(table, p) && forall r | r != p :: RefOn(table, r) == old(RefOn(table, r))
    {
      var e := EntryOf(table, p);
      DecodedEntry(table, p);
      MarkedWord(e.word, e.swapOff, Writes(kind));
      FlagsAreIndependent(Set(e.word, VALID), REF, REF);
      FlagsAreIndependent(Set(Set(e.word, VALID), REF), DIRTY, REF);
      e := e.(word := Set(Set(e.word, VALID), REF));
      if kind == 'M' || kind == 'S' {
        e := e.(word := Set(e.word, DIRTY));
      }
      DecodedUpdate(table, p, e);
      table := table[p := e];
      frame := FrameNo(e.word);
    }

    method FindPhyspage(vaddr: nat, kind: char, victim: nat) returns (frame: nat)
      requires Valid() && victim < coremap.Length
      modifies this, coremap, physmem, swap, swap.slots.v
      ensures Valid() && (Abs(), frame) == Find(old(Abs()), Event(kind, vaddr, victim), false)
      ensures RefOn(table, PageOf(vaddr)) && forall r | r != PageOf(vaddr) :: RefOn(table, r) == old(RefOn(table, r))
    {
      ghost var s := Abs();
      var p := PageOf(vaddr);
      refs := refs + 1;
      DecodedEntry(table, p);
      assert Abs() == s.(refs := s.refs + 1);
      if !Flag(EntryOf(table, p).word, VALID) {
        var f := LoadPage(p, vaddr, victim);
      } else {
        hits := hits + 1;
      }
      frame := MarkAccessed(p, kind);
    }

    /** `access_mem`: whether the address check passes, and the write counted. */
    method AccessMem(kind: char, vaddr: nat, victim: nat) returns (matches: bool)
      requires Valid() && victim < coremap.Length && Frames(Abs())
      modifies this, coremap, physmem, swap, swap.slots.v
      ensures Valid() && Abs() == Access(old(Abs()), Event(kind, vaddr, victim), false).0
      ensures matches <==> Access(old(Abs()), Event(kind, vaddr, victim), false).1.vaddr == vaddr
    {
      FindKeepsFrames(Abs(), Event(kind, vaddr, victim), false);
      var f := FindPhyspage(vaddr, kind, victim);
      matches := physmem[f].vaddr == vaddr;
      if kind == 'S' || kind == 'M' {
        physmem[f] := physmem[f].(version := physmem[f].version + 1);
      }
    }

    /** `replay_trace`, with the number of errors that `access_mem` prints. */
    method ReplayTrace(evs: seq<Event>, ghost mc: Machine) returns (errors: nat)
      requires Valid() && Abs() == Start(mc) && !mc.doc && Fits(mc, evs)
      modifies this, coremap, physmem, swap, swap.slots.v
      ensures Valid() && Abs() == StateAt(mc, evs, |evs|)
      ensures Aligned(evs) ==> errors == 0
    {
      var t := 0;
      errors := 0;
      ghost var s := Abs();
      while t < |evs|
        invariant 0 <= t <= |evs| && Valid() && Abs() == s == StateAt(mc, evs, t)
        invariant Aligned(evs) ==> errors == 0
      {
        NextState(mc, evs, t, s);
        if Aligned(evs) { CheckAlwaysPasses(mc, evs, t); }
        var matches := AccessMem(evs[t].kind, evs[t].vaddr, evs[t].victim);
        if !matches { errors := errors + 1; }
        s := Access(s, evs[t], false).0;
        t := t + 1;
      }
    }
  }

  /** The word of an evicted page, first saved or at once invalid. */
  lemma EvictedWord(w: nat, swapOff: int, saved: bool)
    ensures saved ==> Decode(Set(w, ONSWAP), swapOff) == Decode(w, swapOff).(onswap := true)
    ensures saved ==> (Flag(Set(w, ONSWAP), REF) <==> Flag(w, REF))
    ensures !saved ==> Decode(Clear(w, VALID), swapOff) == Decode(w, swapOff).(valid := false)
    ensures !saved ==> (Flag(Clear(w, VALID), REF) <==> Flag(w, REF))
  {
    DecodeSet(w, swapOff);
    FlagsAreIndependent(w, ONSWAP, REF);
    FlagsAreIndependent(w, VALID, REF);
  }

  /** The word after the flags set at the end of `find_physpage`. */
  lemma MarkedWord(w: nat, swapOff: int, writes: bool)
    ensures Decode(if writes then Set(Set(Set(w, VALID), REF), DIRTY) else Set(Set(w, VALID), REF), swapOff)
         == Decode(w, swapOff).(valid := true, dirty := Flag(w, DIRTY) || writes)
  {
    DecodeSet(w, swapOff);
    DecodeSet(Set(w, VALID), swapOff);
    DecodeSet(Set(Set(w, VALID), REF), swapOff);
  }
}
