/** The swap area over whole runs: what it gives back, and how much of it is enough. */
module SwapRuns {
  import opened Options
  import opened Bitmap
  import opened Demand
  import opened PteWord
  import opened Swap
  import opened Paging
  import opened Transparency
  import opened Runs

  // ----- Page-in returns the latest page-out ----------------------------------------------------

  type Saved = map<Page, Contents>

  /** The latest contents written out for each page, after one more eviction of frame `victim`. */
  function SavedAfterEvict(s: State, victim: nat, out: Saved): Saved
    requires victim < |s.core| == |s.phys| && s.core[victim].Some?
  {
    var q := s.core[victim].value;
    if PteOf(s.table, q).dirty && PageOut(s.swap, s.phys[victim], PteOf(s.table, q).swapOff).1 != INVALID_SWAP
    then out[q := s.phys[victim]] else out
  }

  ghost function SavedAt(mc: Machine, evs: seq<Event>, t: nat): Saved
    requires Fits(mc, evs) && t <= |evs|
  {
    if t == 0 then map[]
    else
      var s, ev, out := StateAt(mc, evs, t - 1), evs[t - 1], SavedAt(mc, evs, t - 1);
      if Full(s.core) && !PteOf(s.table, PageOf(ev.vaddr)).valid then SavedAfterEvict(s, ev.victim, out) else out
  }

  ghost predicate TracksAt(e: Pte, q: Page, file: map<int, Contents>, out: Saved) {
    e.swapOff != INVALID_SWAP ==> q in out && e.swapOff in file && file[e.swapOff] == out[q]
  }

  ghost predicate Tracks(table: map<Page, Pte>, a: Area, out: Saved) {
    forall q :: TracksAt(PteOf(table, q), q, a.file, out)
  }

  lemma EvictTracks(s: State, victim: nat, out: Saved)
    requires Sound(s) && Tracks(s.table, s.swap, out) && victim < |s.core| && s.core[victim].Some?
    ensures Tracks(Evict(s, victim).table, Evict(s, victim).swap, SavedAfterEvict(s, victim, out))
  {
    var q := s.core[victim].value;
    var s1, out' := Evict(s, victim), SavedAfterEvict(s, victim, out);
    assert HoldsAt(s.core, victim, q) && MapsTo(s.table, q, victim);
    if PteOf(s.table, q).dirty {
      PageOutKeepsSlots(s.table, s.swap, q, s.phys[victim]);
    }
    forall r ensures TracksAt(PteOf(s1.table, r), r, s1.swap.file, out') {
      assert TracksAt(PteOf(s.table, r), r, s.swap.file, out);
    }
  }

  lemma FindTracks(s: State, ev: Event, doc: bool, out: Saved)
    requires Sound(s) && Tracks(s.table, s.swap, out) && ev.victim < |s.core|
    ensures var s1 := Find(s, ev, doc).0;
            var out' := if Full(s.core) && !PteOf(s.table, PageOf(ev.vaddr)).valid
                        then SavedAfterEvict(s, ev.victim, out) else out;
            Tracks(s1.table, s1.swap, out')
  {
    var s1 := Find(s, ev, doc).0;
    var out' := if Full(s.core) && !PteOf(s.table, PageOf(ev.vaddr)).valid
                then SavedAfterEvict(s, ev.victim, out) else out;
    var s0 := s.(refs := s.refs + 1, misses := s.misses + 1);
    if Full(s.core) {
      EvictTracks(s0, ev.victim, out);
      assert SavedAfterEvict(s0, ev.victim, out) == SavedAfterEvict(s, ev.victim, out);
    }
    forall r ensures TracksAt(PteOf(s1.table, r), r, s1.swap.file, out') {
      assert TracksAt(PteOf(s.table, r), r, s.swap.file, out);
      assert Full(s.core) ==>
        TracksAt(PteOf(Evict(s0, ev.victim).table, r), r, Evict(s0, ev.victim).swap.file,
                 SavedAfterEvict(s, ev.victim, out));
    }
  }

  /** In every run, the slot an entry points to holds what was last written out for that page. */
  lemma {:induction false} SlotHoldsLatestPageOut(mc: Machine, evs: seq<Event>, t: nat)
    requires Fits(mc, evs) && Exact(mc, evs) && t <= |evs|
    ensures Tracks(StateAt(mc, evs, t).table, StateAt(mc, evs, t).swap, SavedAt(mc, evs, t))
  {
    if t > 0 {
      var n := t - 1;
      SlotHoldsLatestPageOut(mc, evs, n);
      InvariantsHold(mc, evs, n);
      var s, ev, out := StateAt(mc, evs, n), evs[n], SavedAt(mc, evs, n);
      NextState(mc, evs, n, s);
      FindTracks(s, ev, mc.doc, out);
    }
  }

  // ----- How many slots are enough --------------------------------------------------------------

  /** The pages some access writes to. */
  function WrittenPages(evs: seq<Event>): set<Page> {
    set i | 0 <= i < |evs| && Writes(evs[i].kind) :: PageOf(evs[i].vaddr)
  }

  predicate OnlyWritten(e: Pte, q: Page, w: set<Page>) {
    (e.dirty || e.swapOff != INVALID_SWAP ==> q in w) && (!e.valid && e.dirty ==> e.onswap)
  }

  /** Only written pages are dirty or have slots, and no dirty page is without its slot once evicted. */
  ghost predicate AllSaved(table: map<Page, Pte>, w: set<Page>) {
    forall q :: OnlyWritten(PteOf(table, q), q, w)
  }

  /** While there are as many slots as written pages, a written page without a slot finds one. */
  lemma SlotRemains(table: map<Page, Pte>, a: Area, w: set<Page>, q: Page)
    requires Slots(table, a) && AllSaved(table, w) && |w| <= a.size
    requires q in w && PteOf(table, q).swapOff == INVALID_SWAP
    ensures LeastFree(a.used, 0, a.size) < a.size
  {
    forall i | i in a.used ensures exists r | r in w - {q} :: Owns(table, r, i) {
      var r :| Owns(table, r, i);
      assert OnlyWritten(PteOf(table, r), r, w);
    }
    OwnersAreMany(table, a.used, w - {q});
    FramesBound(a.used, a.size);
  }

  lemma FindKeepsAllSaved(s: State, ev: Event, w: set<Page>)
    requires Sound(s) && AllSaved(s.table, w) && |w| <= s.swap.size && ev.victim < |s.core|
    requires Writes(ev.kind) ==> PageOf(ev.vaddr) in w
    ensures AllSaved(Find(s, ev, true).0.table, w)
  {
    var s1 := Find(s, ev, true).0;
    if Full(s.core) {
      var q := s.core[ev.victim].value;
      assert OnlyWritten(PteOf(s.table, q), q, w);
      assert HoldsAt(s.core, ev.victim, q) && MapsTo(s.table, q, ev.victim);
      if PteOf(s.table, q).dirty {
        PageOutKeepsSlots(s.table, s.swap, q, s.phys[ev.victim]);
        if PteOf(s.table, q).swapOff == INVALID_SWAP { SlotRemains(s.table, s.swap, w, q); }
      }
    }
    forall r ensures OnlyWritten(PteOf(s1.table, r), r, w) {
      assert OnlyWritten(PteOf(s.table, r), r, w);
    }
  }

  lemma {:induction false} DocKeepsAllSaved(mc: Machine, evs: seq<Event>, t: nat)
    requires Fits(mc, evs) && Exact(mc, evs) && t <= |evs| && mc.doc && |WrittenPages(evs)| <= mc.size
    ensures AllSaved(StateAt(mc, evs, t).table, WrittenPages(evs))
  {
    if t > 0 {
      var n := t - 1;
      DocKeepsAllSaved(mc, evs, n);
      InvariantsHold(mc, evs, n);
      var s := StateAt(mc, evs, n);
      NextState(mc, evs, n, s);
      FindKeepsAllSaved(s, evs[n], WrittenPages(evs));
    }
  }

  /** With the flag tested as documented, and a slot for every written page, paging is transparent: any trace of
      page-aligned addresses, any number of frames, any policy. */
  lemma DocumentedIsTransparent(mc: Machine, evs: seq<Event>, t: nat)
    requires Fits(mc, evs) && Exact(mc, evs) && t < |evs| && Aligned(evs) && mc.doc && |WrittenPages(evs)| <= mc.size
    ensures ShowsIdealAt(mc, evs, t)
  {
    forall i | 0 <= i < t + 1 ensures !LosesAt(mc, evs, i) {
      DocKeepsAllSaved(mc, evs, i);
      var q := PageOf(evs[i].vaddr);
      assert OnlyWritten(PteOf(StateAt(mc, evs, i).table, q), q, WrittenPages(evs));
    }
    TransparentIffNothingLost(mc, evs, t + 1);
  }

  lemma OneFrameLoad(s: State, ev: Event)
    requires s.core == [None] && |s.phys| == 1 && s.table == map[] && ev == Event('S', 0, 0) && Frames(s)
    ensures var s1 := Access(s, ev, false).0;
            s1.core == [Some(0)] && PteOf(s1.table, 0) == Pte(0, true, true, false, INVALID_SWAP)
  {
    FirstFreeIs(s.core, 0);
  }

  lemma OneFrameReplace(s: State, ev: Event)
    requires s.core == [Some(0)] && |s.phys| == 1 && ev == Event('L', PAGE_SIZE, 0) && Frames(s)
    ensures Access(s, ev, false).0.core == [Some(1)]
  {
    FirstFreeIs(s.core, 1);
    FindTouches(s, ev, false);
  }

  /** As the code is, a page that is loaded shows version 0, whatever was written to it before. */
  lemma CodeLoadsZero(s: State, ev: Event)
    requires Frames(s) && ev.victim < |s.core| && !Resident(s.core, PageOf(ev.vaddr))
    ensures Access(s, ev, false).1 == Contents(0, ev.vaddr)
  {
    ValidIffResident(s, PageOf(ev.vaddr));
  }

  /** One frame and three references suffice to lose a write: store to page 0, load page 1, load page 0. */
  lemma CodeForgetsAWrite(mc: Machine, evs: seq<Event>)
    requires |mc.phys0| == 1 && !mc.doc
    requires evs == [Event('S', 0, 0), Event('L', PAGE_SIZE, 0), Event('L', 0, 0)]
    ensures Fits(mc, evs) && WritesTo(evs, 0, 2) == 1 && SeenAt(mc, evs, 2) == Contents(0, 0)
  {
    assert evs[0] == Event('S', 0, 0) && evs[1] == Event('L', PAGE_SIZE, 0) && evs[2] == Event('L', 0, 0);
    assert WritesTo(evs, 0, 0) == 0 && WritesTo(evs, 0, 1) == 1;
    assert Empty(1) == [None];
    OneFrameLoad(StateAt(mc, evs, 0), evs[0]);
    OneFrameReplace(StateAt(mc, evs, 1), evs[1]);
    CodeLoadsZero(StateAt(mc, evs, 2), evs[2]);
  }
}
