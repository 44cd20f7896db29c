/** Memory transparency of the paging simulator: which runs show every access the contents a plain map would. */
module Transparency {
  import opened Demand
  import opened PteWord
  import opened Swap
  import opened Paging

  type Memory = map<Page, Contents>

  /** What a plain memory without paging holds for the page of `vaddr`. */
  function Ideal(mem: Memory, vaddr: nat): Contents {
    if PageOf(vaddr) in mem then mem[PageOf(vaddr)] else Contents(0, vaddr)
  }

  function Written(c: Contents, kind: char): Contents {
    if Writes(kind) then c.(version := c.version + 1) else c
  }

  /** The access loads a page whose entry still carries DIRTY, and the load does not read it back from swap. */
  predicate Loses(s: State, vaddr: nat, doc: bool) {
    var e := PteOf(s.table, PageOf(vaddr));
    !e.valid && e.dirty && !(doc && e.onswap)
  }

  /** Reloading the page would bring back `c`. */
  predicate Backed(e: Pte, q: Page, file: map<int, Contents>, c: Contents, doc: bool) {
    if doc && e.onswap then e.swapOff in file && file[e.swapOff] == c else c == Contents(0, PAGE_SIZE * q)
  }

  /** What holds of a page while nothing has been lost: a valid page is in its frame, and a page that is clean, or dirty
      but saved, is also where the next load would take it from. */
  ghost predicate CoherentAt(e: Pte, q: Page, phys: seq<Contents>, file: map<int, Contents>, mem: Memory, doc: bool) {
    if q !in mem then e == Untouched
    else
      var c := mem[q];
      c.vaddr == PAGE_SIZE * q && c.version >= 0
      && (e.valid ==> e.frame < |phys| && phys[e.frame] == c)
      && (e.dirty ==> c.version > 0)
      && (!e.dirty || (!e.valid && doc && e.onswap) ==> Backed(e, q, file, c, doc))
  }

  ghost predicate Coherent(s: State, mem: Memory, doc: bool) {
    forall q :: CoherentAt(PteOf(s.table, q), q, s.phys, s.swap.file, mem, doc)
  }

  ghost predicate Sound(s: State) {
    Frames(s) && Slots(s.table, s.swap) && Roomy(s.table, s.swap.size)
  }

  /** What transparency rests on: the swap area only if it is ever read. */
  ghost predicate Ready(s: State, doc: bool) {
    Frames(s) && (doc ==> Sound(s))
  }

  lemma EvictKeepsCoherent(s: State, victim: nat, mem: Memory, doc: bool)
    requires Ready(s, doc) && Coherent(s, mem, doc) && victim < |s.core| && s.core[victim].Some?
    ensures Coherent(Evict(s, victim), mem, doc)
    ensures doc ==> Slots(Evict(s, victim).table, Evict(s, victim).swap)
  {
    var q := s.core[victim].value;
    var e, s1 := PteOf(s.table, q), Evict(s, victim);
    assert HoldsAt(s.core, victim, q) && MapsTo(s.table, q, victim);
    assert CoherentAt(e, q, s.phys, s.swap.file, mem, doc);
    if doc {
      EvictKeepsSlots(s, victim);
      if e.dirty { PageOutKeepsSlots(s.table, s.swap, q, s.phys[victim]); }
    }
    assert doc ==> OffsetFine(e, s.swap);
    forall r ensures CoherentAt(PteOf(s1.table, r), r, s1.phys, s1.swap.file, mem, doc) {
      assert CoherentAt(PteOf(s.table, r), r, s.phys, s.swap.file, mem, doc);
      assert doc ==> OffsetFine(PteOf(s.table, r), s.swap);
    }
  }

  /** `allocate_frame` leaves no valid page in the frame it hands out. */
  lemma AllocateKeepsCoherent(s: State, p: Page, victim: nat, mem: Memory, doc: bool)
    requires Ready(s, doc) && Coherent(s, mem, doc) && victim < |s.core| && !PteOf(s.table, p).valid
    ensures var (a, g) := Allocate(s, p, victim);
            Coherent(a, mem, doc) && (doc ==> Slots(a.table, a.swap))
            && PteOf(a.table, p) == PteOf(s.table, p)
            && forall q :: PteOf(a.table, q).valid ==> PteOf(a.table, q).frame != g
  {
    var (a, g) := Allocate(s, p, victim);
    if Full(s.core) {
      EvictKeepsCoherent(s, victim, mem, doc);
    }
    AllocateEntry(s, p, victim, p);
    assert HoldsAt(s.core, g, p) <==> MapsTo(s.table, p, g);
    forall q ensures PteOf(a.table, q).valid ==> PteOf(a.table, q).frame != g {
      AllocateEntry(s, p, victim, q);
      assert HoldsAt(s.core, g, q) <==> MapsTo(s.table, q, g);
    }
    forall q ensures CoherentAt(PteOf(a.table, q), q, a.phys, a.swap.file, mem, doc) {
      assert Full(s.core) ==> CoherentAt(PteOf(Evict(s, victim).table, q), q, s.phys, a.swap.file, mem, doc);
      assert CoherentAt(PteOf(s.table, q), q, s.phys, s.swap.file, mem, doc);
    }
  }

  /** A load of a page that is not being lost brings its contents into the frame. */
  lemma LoadBringsContents(s: State, vaddr: nat, victim: nat, mem: Memory, doc: bool)
    requires Ready(s, doc) && Coherent(s, mem, doc) && victim < |s.core| && vaddr % PAGE_SIZE == 0
    requires !PteOf(s.table, PageOf(vaddr)).valid && !Loses(s, vaddr, doc)
    ensures var (s1, f) := Load(s, vaddr, victim, doc);
            var e := PteOf(s1.table, PageOf(vaddr));
            f < |s1.phys| && s1.phys[f] == Ideal(mem, vaddr)
            && e == Pte(f, false, false, e.onswap, e.swapOff)
            && Backed(e, PageOf(vaddr), s1.swap.file, Ideal(mem, vaddr), doc)
  {
    var p := PageOf(vaddr);
    var s0 := s.(misses := s.misses + 1);
    assert Coherent(s0, mem, doc);
    AllocateKeepsCoherent(s0, p, victim, mem, doc);
    var a := Allocate(s0, p, victim).0;
    assert CoherentAt(PteOf(a.table, p), p, a.phys, a.swap.file, mem, doc);
    assert doc ==> OffsetFine(PteOf(a.table, p), a.swap);
  }

  /** It disturbs no other page. */
  lemma LoadKeepsOthers(s: State, vaddr: nat, victim: nat, mem: Memory, doc: bool, q: Page)
    requires Ready(s, doc) && Coherent(s, mem, doc) && victim < |s.core|
    requires !PteOf(s.table, PageOf(vaddr)).valid && q != PageOf(vaddr)
    ensures var s1 := Load(s, vaddr, victim, doc).0;
            CoherentAt(PteOf(s1.table, q), q, s1.phys, s1.swap.file, mem, doc)
  {
    var p := PageOf(vaddr);
    var s0 := s.(misses := s.misses + 1);
    assert Coherent(s0, mem, doc);
    AllocateKeepsCoherent(s0, p, victim, mem, doc);
    var a := Allocate(s0, p, victim).0;
    assert CoherentAt(PteOf(a.table, q), q, a.phys, a.swap.file, mem, doc);
  }

  /** A load but for its entry keeps the slots in order. */
  lemma AllocateKeepsSlots(s: State, p: Page, victim: nat)
    requires Sound(s) && victim < |s.core|
    ensures var a := Allocate(s, p, victim).0;
            Slots(a.table, a.swap) && Roomy(a.table, s.swap.size) && a.swap.size == s.swap.size
  {
    if Full(s.core) {
      EvictKeepsSlots(s, victim);
    }
  }

  /** A reference to an absent page, before its flags are set. */
  lemma MissKeepsSlots(s: State, vaddr: nat, victim: nat, doc: bool, s1: State)
    requires Sound(s) && victim < |s.core| && (s.swap.size <= MAX_SLOTS || PageOf(vaddr) < MAX_SLOTS)
    requires s1 == Load(s.(refs := s.refs + 1), vaddr, victim, doc).0
    ensures Slots(s1.table, s1.swap) && s1.swap.size == s.swap.size && Roomy(s1.table, s1.swap.size)
  {
    var s0 := s.(refs := s.refs + 1, misses := s.misses + 1);
    var a := Allocate(s0, PageOf(vaddr), victim).0;
    AllocateKeepsSlots(s0, PageOf(vaddr), victim);
    SlotsKept(a.table, s1.table, a.swap, s1.swap);
  }

  lemma MarkKeepsSlots(s: State, p: Page, kind: char, s1: State)
    requires Slots(s.table, s.swap) && Roomy(s.table, s.swap.size) && (s.swap.size <= MAX_SLOTS || p < MAX_SLOTS)
    requires s1 == Mark(s, p, kind)
    ensures Slots(s1.table, s1.swap) && s1.swap.size == s.swap.size && Roomy(s1.table, s1.swap.size)
  {
    SlotsKept(s.table, s1.table, s.swap, s.swap);
  }

  /** `find_physpage` but for the flags it sets at the end. */
  lemma FindMarks(s: State, ev: Event, doc: bool) returns (l: State)
    requires Frames(s) && ev.victim < |s.core|
    ensures Find(s, ev, doc).0 == Mark(l, PageOf(ev.vaddr), ev.kind)
    ensures if PteOf(s.table, PageOf(ev.vaddr)).valid then l == s.(refs := s.refs + 1, hits := s.hits + 1)
            else l == Load(s.(refs := s.refs + 1), ev.vaddr, ev.victim, doc).0
  {
    if PteOf(s.table, PageOf(ev.vaddr)).valid {
      l := s.(refs := s.refs + 1, hits := s.hits + 1);
    } else {
      l := Load(s.(refs := s.refs + 1), ev.vaddr, ev.victim, doc).0;
    }
  }

  lemma FindKeepsSlots(s: State, ev: Event, doc: bool, s1: State)
    requires Sound(s) && ev.victim < |s.core| && (s.swap.size <= MAX_SLOTS || PageOf(ev.vaddr) < MAX_SLOTS)
    requires s1 == Find(s, ev, doc).0
    ensures Slots(s1.table, s1.swap) && s1.swap.size == s.swap.size && Roomy(s1.table, s1.swap.size)
  {
    var l := FindMarks(s, ev, doc);
    if !PteOf(s.table, PageOf(ev.vaddr)).valid { MissKeepsSlots(s, ev.vaddr, ev.victim, doc, l); }
    MarkKeepsSlots(l, PageOf(ev.vaddr), ev.kind, s1);
  }

  lemma FindKeepsSound(s: State, ev: Event, doc: bool)
    requires Sound(s) && ev.victim < |s.core| && (s.swap.size <= MAX_SLOTS || PageOf(ev.vaddr) < MAX_SLOTS)
    ensures Sound(Find(s, ev, doc).0) && Find(s, ev, doc).0.swap.size == s.swap.size
  {
    FindKeepsFrames(s, ev, doc);
    FindKeepsSlots(s, ev, doc, Find(s, ev, doc).0);
  }

  lemma EvictKeepsSlots(s: State, victim: nat)
    requires Sound(s) && victim < |s.core| && s.core[victim].Some?
    ensures Slots(Evict(s, victim).table, Evict(s, victim).swap) && Evict(s, victim).swap.size == s.swap.size
    ensures forall q | q in Evict(s, victim).table :: q in s.table
  {
    var q := s.core[victim].value;
    assert HoldsAt(s.core, victim, q) && MapsTo(s.table, q, victim);
    if PteOf(s.table, q).dirty {
      PageOutKeepsSlots(s.table, s.swap, q, s.phys[victim]);
    } else {
      SlotsKept(s.table, Evict(s, victim).table, s.swap, s.swap);
    }
  }

  lemma FindKeepsOthers(s: State, ev: Event, mem: Memory, doc: bool, q: Page)
    requires Ready(s, doc) && Coherent(s, mem, doc) && ev.victim < |s.core| && q != PageOf(ev.vaddr)
    ensures var s1 := Find(s, ev, doc).0;
            CoherentAt(PteOf(s1.table, q), q, s1.phys, s1.swap.file, mem, doc)
  {
    var s0, s1 := s.(refs := s.refs + 1), Find(s, ev, doc).0;
    if PteOf(s.table, PageOf(ev.vaddr)).valid {
      assert CoherentAt(PteOf(s.table, q), q, s.phys, s.swap.file, mem, doc);
      assert PteOf(s1.table, q) == PteOf(s.table, q) && s1.phys == s.phys && s1.swap == s.swap;
    } else {
      var l := Load(s0, ev.vaddr, ev.victim, doc).0;
      assert Coherent(s0, mem, doc);
      LoadKeepsOthers(s0, ev.vaddr, ev.victim, mem, doc, q);
      assert PteOf(s1.table, q) == PteOf(l.table, q) && s1.phys == l.phys && s1.swap == l.swap;
    }
  }

  /** What `find_physpage` leaves of the accessed page when nothing is lost. */
  lemma FindShowsIdeal(s: State, ev: Event, mem: Memory, doc: bool)
    requires Ready(s, doc) && Coherent(s, mem, doc) && ev.victim < |s.core| && ev.vaddr % PAGE_SIZE == 0
    requires !Loses(s, ev.vaddr, doc)
    ensures var (s1, f) := Find(s, ev, doc);
            var p, c := PageOf(ev.vaddr), Ideal(mem, ev.vaddr);
            var e := PteOf(s1.table, p);
            f < |s1.phys| && s1.phys[f] == c && c.vaddr == PAGE_SIZE * p && c.version >= 0
            && e.valid && e.frame == f && (e.dirty ==> c.version > 0 || Writes(ev.kind))
            && (!e.dirty ==> Backed(e, p, s1.swap.file, c, doc))
  {
    var p := PageOf(ev.vaddr);
    var s0 := s.(refs := s.refs + 1);
    assert CoherentAt(PteOf(s.table, p), p, s.phys, s.swap.file, mem, doc);
    assert Coherent(s0, mem, doc);
    if !PteOf(s.table, p).valid {
      LoadBringsContents(s0, ev.vaddr, ev.victim, mem, doc);
    }
  }

  /** An access that loses nothing sees what a plain memory would show, and stays in step with it. */
  lemma AccessIsTransparent(s: State, ev: Event, mem: Memory, doc: bool)
    requires Ready(s, doc) && Coherent(s, mem, doc) && ev.victim < |s.core| && ev.vaddr % PAGE_SIZE == 0
    requires !Loses(s, ev.vaddr, doc)
    ensures Access(s, ev, doc).1 == Ideal(mem, ev.vaddr)
    ensures Coherent(Access(s, ev, doc).0, mem[PageOf(ev.vaddr) := Written(Ideal(mem, ev.vaddr), ev.kind)], doc)
  {
    var p, c := PageOf(ev.vaddr), Ideal(mem, ev.vaddr);
    var mem' := mem[p := Written(c, ev.kind)];
    var (s1, f) := Find(s, ev, doc);
    FindShowsIdeal(s, ev, mem, doc);
    OthersElsewhere(s, ev, doc);
    var s2 := Access(s, ev, doc).0;
    assert s2.table == s1.table && s2.swap == s1.swap && s2.phys == s1.phys[f := Written(c, ev.kind)];
    forall q ensures CoherentAt(PteOf(s2.table, q), q, s2.phys, s2.swap.file, mem', doc) {
      if q != p {
        FindKeepsOthers(s, ev, mem, doc, q);
      }
    }
  }

  lemma OthersElsewhere(s: State, ev: Event, doc: bool)
    requires Frames(s) && ev.victim < |s.core|
    ensures var (s1, f) := Find(s, ev, doc);
            forall q | q != PageOf(ev.vaddr) && PteOf(s1.table, q).valid :: PteOf(s1.table, q).frame != f
  {
    var (s1, f) := Find(s, ev, doc);
    FindKeepsFrames(s, ev, doc);
    forall q | q != PageOf(ev.vaddr) && PteOf(s1.table, q).valid ensures PteOf(s1.table, q).frame != f {
      assert MapsTo(s1.table, q, PteOf(s1.table, q).frame);
      assert HoldsAt(s1.core, PteOf(s1.table, q).frame, q);
    }
  }

  /** An access that loses a page finds version 0 where a plain memory holds a positive count of writes. */
  lemma LossIsVisible(s: State, ev: Event, mem: Memory, doc: bool)
    requires Ready(s, doc) && Coherent(s, mem, doc) && ev.victim < |s.core| && Loses(s, ev.vaddr, doc)
    ensures Access(s, ev, doc).1.version == 0 < Ideal(mem, ev.vaddr).version
  {
    var p := PageOf(ev.vaddr);
    assert CoherentAt(PteOf(s.table, p), p, s.phys, s.swap.file, mem, doc);
    var s0 := s.(refs := s.refs + 1, misses := s.misses + 1);
    assert HoldsAt(s.core, Slot(s.core, ev.victim), p) <==> MapsTo(s.table, p, Slot(s.core, ev.victim));
    AllocateEntry(s0, p, ev.victim, p);
  }
}
