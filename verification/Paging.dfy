/** The paging simulator as a state machine on values: page table, coremap, physical memory, swap and counters. */
module Paging {
  import opened Options
  import opened Bitmap
  import opened Demand
  import opened PteWord
  import opened Swap

  datatype State = State(
    core: Core, table: map<Page, Pte>, phys: seq<Contents>, swap: Area,
    hits: nat, misses: nat, refs: nat, clean: nat, dirty: nat)

  /** One trace line, with the frame `evict_fcn` would answer if it were asked during this access. */
  datatype Event = Event(kind: char, vaddr: nat, victim: nat)

  predicate Writes(kind: char) {
    kind == 'M' || kind == 'S'
  }

  function PageOf(vaddr: nat): Page {
    vaddr / PAGE_SIZE
  }

  function PteOf(table: map<Page, Pte>, p: Page): Pte {
    if p in table then table[p] else Untouched
  }

  /** The entry of a page after `swap_pageout` answered `off` for it. */
  function Gone(e: Pte, off: int): Pte {
    (if off != INVALID_SWAP then e.(onswap := true, swapOff := off) else e).(valid := false)
  }

  /** The eviction half of `allocate_frame`. */
  function Evict(s: State, victim: nat): State
    requires victim < |s.core| == |s.phys| && s.core[victim].Some?
  {
    var q := s.core[victim].value;
    var bye := PteOf(s.table, q);
    if !bye.dirty then s.(clean := s.clean + 1, table := s.table[q := bye.(valid := false)])
    else
      var (area, off) := PageOut(s.swap, s.phys[victim], bye.swapOff);
      s.(dirty := s.dirty + 1, swap := area, table := s.table[q := Gone(bye, off)])
  }

  /** `allocate_frame`. */
  function Allocate(s: State, p: Page, victim: nat): (r: (State, nat))
    requires victim < |s.core| == |s.phys|
    ensures r.1 == Slot(s.core, victim) < |s.core| && r.0.core == s.core[r.1 := Some(p)] && r.0.phys == s.phys
  {
    var f := FirstFree(s.core);
    if f < |s.core| then (s.(core := s.core[f := Some(p)]), f)
    else (Evict(s, victim).(core := s.core[victim := Some(p)]), victim)
  }

  /** The miss branch of `find_physpage`. With `doc` the ONSWAP flag is tested before the word is overwritten and
      kept, as the comment above the function promises; without, as the code has it, it is never seen set. */
  function Load(s: State, vaddr: nat, victim: nat, doc: bool): (r: (State, nat))
    requires victim < |s.core| == |s.phys|
    ensures r.1 == Slot(s.core, victim) < |s.core|
  {
    var p := PageOf(vaddr);
    var (s1, f) := Allocate(s.(misses := s.misses + 1), p, victim);
    var was := PteOf(s1.table, p);
    var e := Pte(f, false, false, doc && was.onswap, was.swapOff);
    var data := if e.onswap && e.swapOff != INVALID_SWAP
                then PageIn(s1.swap, e.swapOff, s1.phys[f]) else Contents(0, vaddr);
    (s1.(table := s1.table[p := e], phys := s1.phys[f := data]), f)
  }

  /** The flags set at the end of `find_physpage`. */
  function Mark(s: State, p: Page, kind: char): State {
    var e := PteOf(s.table, p);
    s.(table := s.table[p := e.(valid := true, dirty := e.dirty || Writes(kind))])
  }

  /** `find_physpage`: the new state and the frame whose memory it returns. */
  function Find(s: State, ev: Event, doc: bool): (r: (State, nat))
    requires ev.victim < |s.core| == |s.phys|
  {
    var p := PageOf(ev.vaddr);
    var s0 := s.(refs := s.refs + 1);
    var s1 := if PteOf(s.table, p).valid then s0.(hits := s.hits + 1) else Load(s0, ev.vaddr, ev.victim, doc).0;
    (Mark(s1, p, ev.kind), PteOf(s1.table, p).frame)
  }

  /** `access_mem`: the new state and the contents it finds before counting the write. */
  function Access(s: State, ev: Event, doc: bool): (r: (State, Contents))
    requires ev.victim < |s.core| == |s.phys| && Frames(s)
    ensures Frames(r.0) && |r.0.core| == |r.0.phys| == |s.core|
  {
    FindKeepsFrames(s, ev, doc);
    var (s1, f) := Find(s, ev, doc);
    var seen := s1.phys[f];
    if Writes(ev.kind) then (s1.(phys := s1.phys[f := seen.(version := seen.version + 1)]), seen) else (s1, seen)
  }

  // ----- Frames and pages -----------------------------------------------------------------------

  predicate HoldsAt(core: Core, f: nat, q: Page) {
    f < |core| && core[f] == Some(q)
  }

  predicate MapsTo(table: map<Page, Pte>, q: Page, f: nat) {
    PteOf(table, q).valid && PteOf(table, q).frame == f
  }

  /** Valid entries and in-use frames are mutual inverses. */
  ghost predicate Mutual(core: Core, table: map<Page, Pte>) {
    forall f: nat, q: Page :: HoldsAt(core, f, q) <==> MapsTo(table, q, f)
  }

  ghost predicate Frames(s: State) {
    |s.phys| == |s.core| && Mutual(s.core, s.table)
  }

  lemma ValidIffResident(s: State, p: Page)
    requires Frames(s)
    ensures PteOf(s.table, p).valid <==> Resident(s.core, p)
    ensures PteOf(s.table, p).valid ==> HoldsAt(s.core, PteOf(s.table, p).frame, p)
  {
    assert PteOf(s.table, p).valid ==> MapsTo(s.table, p, PteOf(s.table, p).frame);
    if Resident(s.core, p) {
      var f :| 0 <= f < |s.core| && s.core[f] == Some(p);
      assert HoldsAt(s.core, f, p);
    }
  }

  /** What `allocate_frame` does to the entry of any page. */
  lemma AllocateEntry(s: State, p: Page, victim: nat, q: Page)
    requires Frames(s) && victim < |s.core|
    ensures var q' := PteOf(Allocate(s, p, victim).0.table, q);
            if HoldsAt(s.core, Slot(s.core, victim), q) then !q'.valid && q'.dirty == PteOf(s.table, q).dirty
            else q' == PteOf(s.table, q)
  {
  }

  /** A load leaves everything consistent but for the valid flag of the loaded page, which `find_physpage` sets next. */
  lemma LoadKeepsFrames(s: State, vaddr: nat, victim: nat, doc: bool, e: Pte)
    requires Frames(s) && victim < |s.core| && !PteOf(s.table, PageOf(vaddr)).valid
    requires e.valid && e.frame == Slot(s.core, victim)
    ensures var (s1, f) := Load(s, vaddr, victim, doc);
            s1.core == s.core[f := Some(PageOf(vaddr))] && Frames(s1.(table := s1.table[PageOf(vaddr) := e]))
  {
    var p, g := PageOf(vaddr), Slot(s.core, victim);
    var s0 := s.(misses := s.misses + 1);
    var s1 := Load(s, vaddr, victim, doc).0;
    var table' := s1.table[p := e];
    forall f: nat, q: Page ensures HoldsAt(s1.core, f, q) <==> MapsTo(table', q, f) {
      assert HoldsAt(s.core, f, q) <==> MapsTo(s.table, q, f);
      assert HoldsAt(s.core, g, q) <==> MapsTo(s.table, q, g);
      AllocateEntry(s0, p, victim, q);
      assert q != p ==> PteOf(table', q) == PteOf(Allocate(s0, p, victim).0.table, q);
    }
  }

  lemma HitKeepsMutual(core: Core, table: map<Page, Pte>, p: Page, e: Pte)
    requires Mutual(core, table) && PteOf(table, p).valid && e.valid && e.frame == PteOf(table, p).frame
    ensures Mutual(core, table[p := e])
  {
    forall f: nat, q: Page ensures HoldsAt(core, f, q) <==> MapsTo(table[p := e], q, f) {
      assert HoldsAt(core, f, q) <==> MapsTo(table, q, f);
    }
  }

  lemma FindKeepsFrames(s: State, ev: Event, doc: bool)
    requires Frames(s) && ev.victim < |s.core|
    ensures var (s1, f) := Find(s, ev, doc);
            Frames(s1) && |s1.core| == |s.core| && HoldsAt(s1.core, f, PageOf(ev.vaddr))
  {
    var p := PageOf(ev.vaddr);
    var e := PteOf(Find(s, ev, doc).0.table, p);
    ValidIffResident(s, p);
    if PteOf(s.table, p).valid {
      HitKeepsMutual(s.core, s.table, p, e);
    } else {
      LoadKeepsFrames(s.(refs := s.refs + 1), ev.vaddr, ev.victim, doc, e);
    }
  }

  /** `find_physpage` moves the coremap exactly as demand paging does, and counts its misses. */
  lemma FindTouches(s: State, ev: Event, doc: bool)
    requires Frames(s) && ev.victim < |s.core|
    ensures var s1 := Find(s, ev, doc).0;
            s1.core == Touch(s.core, PageOf(ev.vaddr), ev.victim)
            && s1.misses == s.misses + (if Resident(s.core, PageOf(ev.vaddr)) then 0 else 1)
  {
    ValidIffResident(s, PageOf(ev.vaddr));
  }

  // ----- Counters -------------------------------------------------------------------------------

  /** Every reference is a hit or a miss, and every miss that evicted nothing filled the next frame in order. */
  ghost predicate Counts(s: State) {
    s.hits + s.misses == s.refs
    && s.misses == s.clean + s.dirty + FirstFree(s.core)
    && forall f | FirstFree(s.core) <= f < |s.core| :: s.core[f].None?
  }

  lemma FindKeepsCounts(s: State, ev: Event, doc: bool)
    requires Frames(s) && Counts(s) && ev.victim < |s.core|
    ensures Counts(Find(s, ev, doc).0)
  {
    var p, g := PageOf(ev.vaddr), FirstFree(s.core);
    if !PteOf(s.table, p).valid {
      FirstFreeIs(s.core[Slot(s.core, ev.victim) := Some(p)], if g < |s.core| then g + 1 else g);
    }
  }

  /** The dirty flag of the page a full memory would give up frame `f` of. */
  predicate HoldsDirty(s: State, f: nat) {
    f < |s.core| && s.core[f].Some? && PteOf(s.table, s.core[f].value).dirty
  }

  /** What one access counts: a reference, a hit or a miss by whether the page is resident, and when a missing page
      meets a full memory an eviction, dirty or clean by the flag of the page given up. */
  lemma FindCounts(s: State, ev: Event, doc: bool)
    requires Frames(s) && ev.victim < |s.core|
    ensures var s1 := Find(s, ev, doc).0;
            var hit := Resident(s.core, PageOf(ev.vaddr));
            s1.refs == s.refs + 1
            && s1.hits == s.hits + (if hit then 1 else 0) && s1.misses == s.misses + (if hit then 0 else 1)
            && s1.dirty == s.dirty + (if !hit && Full(s.core) && HoldsDirty(s, ev.victim) then 1 else 0)
            && s1.clean == s.clean + (if !hit && Full(s.core) && !HoldsDirty(s, ev.victim) then 1 else 0)
  {
    ValidIffResident(s, PageOf(ev.vaddr));
  }

  /** What becomes of dirty flags: a store or a modify sets that of its page, a load clears it otherwise, and no other
      page is concerned, an evicted one neither. */
  lemma FindDirties(s: State, ev: Event, doc: bool, q: Page)
    requires Frames(s) && ev.victim < |s.core|
    ensures PteOf(Find(s, ev, doc).0.table, q).dirty
         == if q != PageOf(ev.vaddr) then PteOf(s.table, q).dirty
            else ev.kind == 'M' || ev.kind == 'S' || (Resident(s.core, q) && PteOf(s.table, q).dirty)
  {
    ValidIffResident(s, PageOf(ev.vaddr));
    if !Resident(s.core, PageOf(ev.vaddr)) {
      AllocateEntry(s.(refs := s.refs + 1, misses := s.misses + 1), PageOf(ev.vaddr), ev.victim, q);
    }
  }

  /** What `access_mem` makes of memory: a store or a modify adds one to the version in the frame found, which is the
      frame of its page, and any other access leaves memory as `find_physpage` does. */
  lemma AccessCountsWrite(s: State, ev: Event, doc: bool)
    requires Frames(s) && ev.victim < |s.core|
    ensures var (s1, f) := Find(s, ev, doc);
            var (s2, seen) := Access(s, ev, doc);
            HoldsAt(s1.core, f, PageOf(ev.vaddr)) && f < |s1.phys| && seen == s1.phys[f]
            && s2 == s1.(phys := s2.phys)
            && s2.phys == if ev.kind == 'M' || ev.kind == 'S' then s1.phys[f := Contents(seen.version + 1, seen.vaddr)]
                          else s1.phys
  {
    FindKeepsFrames(s, ev, doc);
  }

  // ----- Swap slots -----------------------------------------------------------------------------

  ghost predicate Owns(table: map<Page, Pte>, q: Page, idx: nat) {
    PteOf(table, q).swapOff == SLOT * idx
  }

  /** Entries and used slots correspond: every swap offset is the start of a used slot with data in it, every used slot
      belongs to an entry, and no two entries share one. */
  ghost predicate Slots(table: map<Page, Pte>, a: Area) {
    (forall q :: OffsetFine(PteOf(table, q), a))
    && (forall i | i in a.used :: i < a.size && exists q :: Owns(table, q, i))
    && (forall q, r | q != r :: Apart(PteOf(table, q), PteOf(table, r)))
  }

  predicate OffsetFine(e: Pte, a: Area) {
    if e.swapOff == INVALID_SWAP then !e.onswap
    else e.swapOff >= 0 && e.swapOff % SLOT == 0 && e.swapOff / SLOT in a.used && e.swapOff in a.file
  }

  predicate Apart(e: Pte, d: Pte) {
    e.swapOff != INVALID_SWAP ==> e.swapOff != d.swapOff
  }

  lemma SlotsKept(table: map<Page, Pte>, table': map<Page, Pte>, a: Area, b: Area)
    requires Slots(table, a) && b.size == a.size && b.used == a.used && a.file.Keys <= b.file.Keys
    requires forall q :: PteOf(table', q).swapOff == PteOf(table, q).swapOff
                         && (PteOf(table', q).onswap ==>
                               PteOf(table, q).onswap || PteOf(table, q).swapOff != INVALID_SWAP)
    ensures Slots(table', b)
  {
    forall q ensures OffsetFine(PteOf(table', q), b) {
      assert OffsetFine(PteOf(table, q), a);
    }
    forall i | i in b.used ensures i < b.size && exists q :: Owns(table', q, i) {
      var q :| Owns(table, q, i);
      assert Owns(table', q, i);
    }
    forall q, r | q != r ensures Apart(PteOf(table', q), PteOf(table', r)) {
      assert Apart(PteOf(table, q), PteOf(table, r));
    }
  }

  ghost predicate SameData(a: Area, b: Area, off: int) {
    off in a.file && off in b.file && b.file[off] == a.file[off]
  }

  /** The entry of `q` at `off` holds `data`; every other entry's data is as it was in `a`. */
  ghost predicate Stored(table: map<Page, Pte>, a: Area, b: Area, q: Page, off: int, data: Contents) {
    off in b.file && b.file[off] == data
    && forall r | r != q && PteOf(table, r).swapOff != INVALID_SWAP :: SameData(a, b, PteOf(table, r).swapOff)
  }

  lemma WriteStores(table: map<Page, Pte>, a: Area, b: Area, q: Page, off: int, data: Contents)
    requires Slots(table, a) && b.file == a.file[off := data]
    requires off == PteOf(table, q).swapOff || off / SLOT !in a.used
    ensures Stored(table, a, b, q, off, data)
  {
    forall r | r != q && PteOf(table, r).swapOff != INVALID_SWAP ensures SameData(a, b, PteOf(table, r).swapOff) {
      assert OffsetFine(PteOf(table, r), a) && Apart(PteOf(table, r), PteOf(table, q));
    }
  }

  lemma NewSlot(table: map<Page, Pte>, a: Area, q: Page, data: Contents, idx: nat)
    requires Slots(table, a) && PteOf(table, q).swapOff == INVALID_SWAP && idx < a.size && idx !in a.used
    ensures Slots(table[q := Gone(PteOf(table, q), SLOT * idx)],
                  a.(used := a.used + {idx}, file := a.file[SLOT * idx := data]))
  {
    var e, off := PteOf(table, q), SLOT * idx;
    var b, table' := a.(used := a.used + {idx}, file := a.file[off := data]), table[q := Gone(e, off)];
    forall r ensures OffsetFine(PteOf(table', r), b) {
      assert OffsetFine(PteOf(table, r), a);
    }
    forall i | i in b.used ensures i < b.size && exists r :: Owns(table', r, i) {
      assert Owns(table', q, idx);
      if i != idx {
        var r :| Owns(table, r, i);
        assert Owns(table', r, i);
      }
    }
    forall r, t | r != t ensures Apart(PteOf(table', r), PteOf(table', t)) {
      assert Apart(PteOf(table, r), PteOf(table, t));
      assert OffsetFine(PteOf(table, r), a) && OffsetFine(PteOf(table, t), a);
    }
  }

  lemma {:induction false} OwnersAreMany(table: map<Page, Pte>, used: set<nat>, w: set<Page>)
    requires forall i | i in used :: exists q | q in w :: Owns(table, q, i)
    ensures |used| <= |w|
    decreases |used|
  {
    if used != {} {
      var i :| i in used;
      var q :| q in w && Owns(table, q, i);
      forall j | j in used - {i} ensures exists r | r in w - {q} :: Owns(table, r, j) {
        var r :| r in w && Owns(table, r, j);
        assert r in w - {q};
      }
      OwnersAreMany(table, used - {i}, w - {q});
    }
  }

  /** Slots are handed out lowest first, one to a page: with no more slots than have exact byte offsets, or no more
      pages, every slot handed out has one. */
  ghost predicate Roomy(table: map<Page, Pte>, size: nat) {
    size <= MAX_SLOTS || forall q | q in table :: q < MAX_SLOTS
  }

  /** The numbers below `n`. */
  function Below(n: nat): (r: set<nat>)
    ensures |r| == n && forall i: nat :: i in r <==> i < n
  {
    if n == 0 then {} else Below(n - 1) + {n - 1}
  }

  lemma OwnerBelow(table: map<Page, Pte>, a: Area, q: Page, n: nat, i: nat)
    requires Slots(table, a) && i in a.used && PteOf(table, q).swapOff == INVALID_SWAP
    requires forall r | r in table :: r < n
    ensures exists r | r in Below(n) - {q} :: Owns(table, r, i)
  {
    var r :| Owns(table, r, i);
    assert r in table && r in Below(n) - {q};
  }

  /** A page without a slot finds one whose number is below the number of pages. */
  lemma LeastFreeBelow(table: map<Page, Pte>, a: Area, q: Page, n: nat)
    requires Slots(table, a) && q < n && PteOf(table, q).swapOff == INVALID_SWAP && forall r | r in table :: r < n
    ensures LeastFree(a.used, 0, a.size) < n
  {
    var k := LeastFree(a.used, 0, a.size);
    forall i | i in Below(k) ensures exists r | r in Below(n) - {q} :: Owns(table, r, i) {
      OwnerBelow(table, a, q, n, i);
    }
    OwnersAreMany(table, Below(k), Below(n) - {q});
  }

  lemma LeastFreeExact(table: map<Page, Pte>, a: Area, q: Page, idx: nat)
    requires Slots(table, a) && Roomy(table, a.size) && q in table && PteOf(table, q).swapOff == INVALID_SWAP
    requires idx == LeastFree(a.used, 0, a.size) < a.size
    ensures idx < MAX_SLOTS && Offset(idx) == SLOT * idx
  {
    if a.size > MAX_SLOTS { LeastFreeBelow(table, a, q, MAX_SLOTS); }
  }

  /** Writing a page out keeps the correspondence, stores its data, and leaves the data of every other page alone. It
      fails exactly when the page has no slot and none is free. */
  lemma PageOutKeepsSlots(table: map<Page, Pte>, a: Area, q: Page, data: Contents)
    requires Slots(table, a) && Roomy(table, a.size) && q in table
    ensures var (b, off) := PageOut(a, data, PteOf(table, q).swapOff);
            Slots(table[q := Gone(PteOf(table, q), off)], b) && b.size == a.size
            && (off == INVALID_SWAP <==>
                  PteOf(table, q).swapOff == INVALID_SWAP && LeastFree(a.used, 0, a.size) == a.size)
            && (if off == INVALID_SWAP then b == a else Stored(table, a, b, q, off, data))
  {
    var e, idx := PteOf(table, q), LeastFree(a.used, 0, a.size);
    var (b, off) := PageOut(a, data, e.swapOff);
    if e.swapOff != INVALID_SWAP {
      SlotsKept(table, table[q := Gone(e, off)], a, b);
      WriteStores(table, a, b, q, off, data);
    } else if idx < a.size {
      LeastFreeExact(table, a, q, idx);
      NewSlot(table, a, q, data, idx);
      WriteStores(table, a, b, q, off, data);
    } else {
      SlotsKept(table, table[q := Gone(e, off)], a, b);
    }
  }
}
