/** Whole runs of the simulator: what holds after every trace, for every policy. */
module Runs {
  import opened Options
  import opened Demand
  import opened PteWord
  import opened Swap
  import opened Paging
  import opened Transparency

  /** The memory the simulator starts with (its contents are arbitrary), the swap size, and the reading of line 177. */
  datatype Machine = Machine(phys0: seq<Contents>, size: nat, doc: bool)

  ghost predicate Fits(mc: Machine, evs: seq<Event>) {
    forall i | 0 <= i < |evs| :: evs[i].victim < |mc.phys0|
  }

  /** Every slot that is ever handed out has an exact byte offset. The addresses of 36 bits that the page directory
      takes make that so for any swap size. */
  ghost predicate Exact(mc: Machine, evs: seq<Event>) {
    mc.size <= MAX_SLOTS || forall i | 0 <= i < |evs| :: PageOf(evs[i].vaddr) < MAX_SLOTS
  }

  function Start(mc: Machine): State {
    State(Empty(|mc.phys0|), map[], mc.phys0, Area(mc.size, {}, map[]), 0, 0, 0, 0, 0)
  }

  /** The state before access `t`. */
  ghost function StateAt(mc: Machine, evs: seq<Event>, t: nat): (s: State)
    requires Fits(mc, evs) && t <= |evs|
    ensures Frames(s) && |s.core| == |mc.phys0|
  {
    if t == 0 then Start(mc) else Access(StateAt(mc, evs, t - 1), evs[t - 1], mc.doc).0
  }

  lemma NextState(mc: Machine, evs: seq<Event>, t: nat, s: State)
    requires Fits(mc, evs) && t < |evs| && s == StateAt(mc, evs, t)
    ensures evs[t].victim < |s.core| == |mc.phys0|
    ensures var s1, s2 := StateAt(mc, evs, t + 1), Find(s, evs[t], mc.doc).0;
            s1 == Access(s, evs[t], mc.doc).0
            && s1.core == s2.core && s1.table == s2.table && s1.swap == s2.swap
            && s1.hits == s2.hits && s1.misses == s2.misses && s1.refs == s2.refs
            && s1.clean == s2.clean && s1.dirty == s2.dirty
  {
  }

  /** The contents `access_mem` finds at access `t`. */
  ghost function SeenAt(mc: Machine, evs: seq<Event>, t: nat): Contents
    requires Fits(mc, evs) && t < |evs|
  {
    Access(StateAt(mc, evs, t), evs[t], mc.doc).1
  }

  /** The plain memory before access `t`. */
  function IdealAt(evs: seq<Event>, t: nat): Memory
    requires t <= |evs|
  {
    if t == 0 then map[]
    else
      var mem, ev := IdealAt(evs, t - 1), evs[t - 1];
      mem[PageOf(ev.vaddr) := Written(Ideal(mem, ev.vaddr), ev.kind)]
  }

  /** The writes to page `p` among the first `t` accesses. */
  function WritesTo(evs: seq<Event>, p: Page, t: nat): nat
    requires t <= |evs|
  {
    if t == 0 then 0
    else WritesTo(evs, p, t - 1) + if PageOf(evs[t - 1].vaddr) == p && Writes(evs[t - 1].kind) then 1 else 0
  }

  ghost predicate Aligned(evs: seq<Event>) {
    forall i | 0 <= i < |evs| :: evs[i].vaddr % PAGE_SIZE == 0
  }

  /** A plain memory shows the page's own address and the number of writes so far. */
  lemma {:induction false} IdealCountsWrites(evs: seq<Event>, p: Page, t: nat)
    requires t <= |evs| && Aligned(evs)
    ensures Ideal(IdealAt(evs, t), PAGE_SIZE * p) == Contents(WritesTo(evs, p, t), PAGE_SIZE * p)
  {
    if t > 0 {
      IdealCountsWrites(evs, p, t - 1);
      assert evs[t - 1].vaddr == PAGE_SIZE * PageOf(evs[t - 1].vaddr);
    }
  }

  // ----- Invariants of every run ----------------------------------------------------------------

  lemma InvariantsNext(s: State, ev: Event, doc: bool, s1: State, s2: State, exact: bool)
    requires Frames(s) && Counts(s) && ev.victim < |s.core| && (exact ==> Sound(s))
    requires exact ==> s.swap.size <= MAX_SLOTS || PageOf(ev.vaddr) < MAX_SLOTS
    requires s2 == Find(s, ev, doc).0 && s1 == s2.(phys := s1.phys) && |s1.phys| == |s2.phys|
    ensures Counts(s1) && (exact ==> Sound(s1)) && s1.swap.size == s.swap.size
  {
    FindKeepsCounts(s, ev, doc);
    if exact { FindKeepsSound(s, ev, doc); }
  }

  /** Frames and pages are mutual inverses, slots and their owners correspond, and the counters add up, always. */
  lemma {:induction false} InvariantsHold(mc: Machine, evs: seq<Event>, t: nat)
    requires Fits(mc, evs) && t <= |evs|
    ensures Counts(StateAt(mc, evs, t)) && StateAt(mc, evs, t).swap.size == mc.size
    ensures Exact(mc, evs) ==> Sound(StateAt(mc, evs, t))
  {
    if t == 0 {
      FirstFreeIs(Empty(|mc.phys0|), 0);
    } else {
      var n := t - 1;
      var s := StateAt(mc, evs, n);
      InvariantsHold(mc, evs, n);
      NextState(mc, evs, n, s);
      InvariantsNext(s, evs[n], mc.doc, StateAt(mc, evs, t), Find(s, evs[n], mc.doc).0, Exact(mc, evs));
    }
  }

  function Pages(evs: seq<Event>): seq<Page> {
    seq(|evs|, i requires 0 <= i < |evs| => PageOf(evs[i].vaddr))
  }

  function Victims(evs: seq<Event>): seq<nat> {
    seq(|evs|, i requires 0 <= i < |evs| => evs[i].victim)
  }

  lemma AccessTouches(s: State, ev: Event, doc: bool)
    requires Frames(s) && ev.victim < |s.core|
    ensures var s1 := Access(s, ev, doc).0;
            s1.core == Touch(s.core, PageOf(ev.vaddr), ev.victim)
            && s1.misses == s.misses + (if Some(PageOf(ev.vaddr)) in s.core then 0 else 1)
  {
    FindTouches(s, ev, doc);
  }

  lemma PagingNext(mc: Machine, evs: seq<Event>, t: nat, t': nat, s: State, pages: seq<Page>, vs: seq<nat>)
    requires Fits(mc, evs) && t < |evs| && t' == t + 1 && s == StateAt(mc, evs, t)
    requires pages == Pages(evs) && vs == Victims(evs) && InRange(vs, |mc.phys0|)
    requires s.core == CoreAt(|mc.phys0|, pages, vs, t) && s.misses == MissesAt(|mc.phys0|, pages, vs, t)
    ensures StateAt(mc, evs, t').core == CoreAt(|mc.phys0|, pages, vs, t')
    ensures StateAt(mc, evs, t').misses == MissesAt(|mc.phys0|, pages, vs, t')
  {
    assert pages[t] == PageOf(evs[t].vaddr) && vs[t] == evs[t].victim;
    AccessTouches(s, evs[t], mc.doc);
    Unfold(|mc.phys0|, pages, vs, t, s.core);
  }

  /** The simulator runs demand paging: its coremap and its miss count are those of the plain model. */
  lemma {:induction false} RunIsDemandPaging(mc: Machine, evs: seq<Event>, t: nat)
    requires Fits(mc, evs) && t <= |evs|
    ensures InRange(Victims(evs), |mc.phys0|)
    ensures StateAt(mc, evs, t).core == CoreAt(|mc.phys0|, Pages(evs), Victims(evs), t)
    ensures StateAt(mc, evs, t).misses == MissesAt(|mc.phys0|, Pages(evs), Victims(evs), t)
  {
    if t > 0 {
      RunIsDemandPaging(mc, evs, t - 1);
      PagingNext(mc, evs, t - 1, t, StateAt(mc, evs, t - 1), Pages(evs), Victims(evs));
    }
  }

  // ----- Counters -------------------------------------------------------------------------------

  /** Page `q` has been stored to or modified since it was last loaded, as of access `t`. */
  ghost predicate WrittenSinceLoad(mc: Machine, evs: seq<Event>, q: Page, t: nat)
    requires Fits(mc, evs) && t <= |evs|
  {
    t > 0
    && if PageOf(evs[t - 1].vaddr) != q then WrittenSinceLoad(mc, evs, q, t - 1)
       else evs[t - 1].kind == 'M' || evs[t - 1].kind == 'S'
            || (Resident(StateAt(mc, evs, t - 1).core, q) && WrittenSinceLoad(mc, evs, q, t - 1))
  }

  /** The state after access `t`, but for memory. */
  lemma After(mc: Machine, evs: seq<Event>, t: nat, s: State, ev: Event) returns (s1: State)
    requires Fits(mc, evs) && t < |evs| && s == StateAt(mc, evs, t) && ev == evs[t]
    ensures s1 == StateAt(mc, evs, t + 1) && Frames(s) && ev.victim < |s.core|
    ensures s1 == Find(s, ev, mc.doc).0.(phys := s1.phys)
  {
    NextState(mc, evs, t, s);
    s1 := StateAt(mc, evs, t + 1);
  }

  lemma DirtyNext(mc: Machine, evs: seq<Event>, q: Page, t: nat, s: State, ev: Event, s1: State)
    requires Fits(mc, evs) && t < |evs| && s == StateAt(mc, evs, t) && ev == evs[t]
    requires Frames(s) && ev.victim < |s.core| && s1 == Find(s, ev, mc.doc).0.(phys := s1.phys)
    requires PteOf(s.table, q).dirty <==> WrittenSinceLoad(mc, evs, q, t)
    ensures PteOf(s1.table, q).dirty <==> WrittenSinceLoad(mc, evs, q, t + 1)
  {
    FindDirties(s, ev, mc.doc, q);
  }

  /** DIRTY is set in exactly the entries of those pages. */
  lemma {:induction false} DirtyMeansWritten(mc: Machine, evs: seq<Event>, q: Page, t: nat) returns (s: State)
    requires Fits(mc, evs) && t <= |evs|
    ensures s == StateAt(mc, evs, t) && (PteOf(s.table, q).dirty <==> WrittenSinceLoad(mc, evs, q, t))
  {
    if t == 0 {
      s := Start(mc);
    } else {
      var n := t - 1;
      var s0 := DirtyMeansWritten(mc, evs, q, n);
      s := After(mc, evs, n, s0, evs[n]);
      DirtyNext(mc, evs, q, n, s0, evs[n], s);
    }
  }

  /** Access `t` meets a full memory without its page, and gives up a page written since its load, or one not. */
  ghost predicate EvictsAt(mc: Machine, evs: seq<Event>, t: nat, written: bool)
    requires Fits(mc, evs) && t < |evs|
  {
    var core := StateAt(mc, evs, t).core;
    !Resident(core, PageOf(evs[t].vaddr)) && Full(core) && core[evs[t].victim].Some?
    && (WrittenSinceLoad(mc, evs, core[evs[t].victim].value, t) <==> written)
  }

  /** The accesses with such an eviction, marked one by one. */
  ghost predicate Marks(mc: Machine, evs: seq<Event>, evicts: seq<bool>, written: bool)
    requires Fits(mc, evs)
  {
    |evicts| == |evs|
    && forall i {:trigger EvictsAt(mc, evs, i, written)} | 0 <= i < |evs| ::
         evicts[i] <==> EvictsAt(mc, evs, i, written)
  }

  function Count(marks: seq<bool>, n: nat): nat
    requires n <= |marks|
  {
    if n == 0 then 0 else Count(marks, n - 1) + if marks[n - 1] then 1 else 0
  }

  lemma EvictsIs(mc: Machine, evs: seq<Event>, t: nat, s: State)
    requires Fits(mc, evs) && t < |evs| && s == StateAt(mc, evs, t) && evs[t].victim < |s.core|
    ensures var absent := !Resident(s.core, PageOf(evs[t].vaddr)) && Full(s.core);
            (EvictsAt(mc, evs, t, true) <==> absent && HoldsDirty(s, evs[t].victim))
            && (EvictsAt(mc, evs, t, false) <==> absent && !HoldsDirty(s, evs[t].victim))
  {
    if s.core[evs[t].victim].Some? { var _ := DirtyMeansWritten(mc, evs, s.core[evs[t].victim].value, t); }
  }

  /** The counter of evictions of written pages, or of the others. */
  function Evicted(s: State, written: bool): nat {
    if written then s.dirty else s.clean
  }

  /** What the counters say before access `t`. */
  ghost predicate Told(s: State, t: nat, evicts: seq<bool>, written: bool) {
    t <= |evicts| && s.refs == t && s.hits == t - s.misses && Evicted(s, written) == Count(evicts, t)
  }

  lemma CountersStart(mc: Machine, evs: seq<Event>, t: nat, evicts: seq<bool>, written: bool) returns (s: State)
    requires Fits(mc, evs) && t == 0
    ensures s == StateAt(mc, evs, t) && Told(s, t, evicts, written)
  {
    s := Start(mc);
  }

  lemma CountersNext(mc: Machine, evs: seq<Event>, t: nat, t': nat, s: State, evicts: seq<bool>, written: bool)
    returns (s1: State)
    requires Fits(mc, evs) && t < |evs| && t' == t + 1 && Marks(mc, evs, evicts, written)
    requires s == StateAt(mc, evs, t) && Told(s, t, evicts, written)
    ensures s1 == StateAt(mc, evs, t') && Told(s1, t', evicts, written)
  {
    s1 := After(mc, evs, t, s, evs[t]);
    assert evicts[t] <==> EvictsAt(mc, evs, t, written);
    EvictsIs(mc, evs, t, s);
    FindCounts(s, evs[t], mc.doc);
  }

  /** What the counters say after every prefix of every run: references, hits and misses, and the evictions of pages
      that had been written since their load, and of those that had not. */
  lemma {:induction false} CountersAre(mc: Machine, evs: seq<Event>, t: nat, evicts: seq<bool>, written: bool)
    returns (s: State)
    requires Fits(mc, evs) && t <= |evs| && Marks(mc, evs, evicts, written)
    ensures s == StateAt(mc, evs, t) && Told(s, t, evicts, written)
  {
    if t == 0 {
      s := CountersStart(mc, evs, t, evicts, written);
    } else {
      s := CountersAre(mc, evs, t - 1, evicts, written);
      s := CountersNext(mc, evs, t - 1, t, s, evicts, written);
    }
  }

  /** An access counts as a write exactly if it is a store or a modify. */
  lemma WritesToNext(evs: seq<Event>, p: Page, t: nat)
    requires t < |evs|
    ensures WritesTo(evs, p, t + 1)
         == WritesTo(evs, p, t)
            + if PageOf(evs[t].vaddr) == p && (evs[t].kind == 'M' || evs[t].kind == 'S') then 1 else 0
  {
  }

  // ----- Transparency ---------------------------------------------------------------------------

  ghost predicate LosesAt(mc: Machine, evs: seq<Event>, t: nat)
    requires Fits(mc, evs) && t < |evs|
  {
    Loses(StateAt(mc, evs, t), evs[t].vaddr, mc.doc)
  }

  ghost predicate ShowsIdealAt(mc: Machine, evs: seq<Event>, t: nat)
    requires Fits(mc, evs) && t < |evs|
  {
    SeenAt(mc, evs, t) == Contents(WritesTo(evs, PageOf(evs[t].vaddr), t), evs[t].vaddr)
  }

  lemma {:induction false} CoherentUntilLoss(mc: Machine, evs: seq<Event>, t: nat)
    requires Fits(mc, evs) && (mc.doc ==> Exact(mc, evs)) && t <= |evs| && Aligned(evs)
    requires forall i | 0 <= i < t :: !LosesAt(mc, evs, i)
    ensures Coherent(StateAt(mc, evs, t), IdealAt(evs, t), mc.doc)
  {
    if t > 0 {
      var n := t - 1;
      var s := StateAt(mc, evs, n);
      CoherentUntilLoss(mc, evs, n);
      InvariantsHold(mc, evs, n);
      assert !LosesAt(mc, evs, n);
      NextState(mc, evs, n, s);
      AccessIsTransparent(s, evs[n], IdealAt(evs, n), mc.doc);
    }
  }

  /** The first loss is seen, and before it every access sees the ideal contents. */
  lemma ShownUnlessLost(mc: Machine, evs: seq<Event>, t: nat)
    requires Fits(mc, evs) && (mc.doc ==> Exact(mc, evs)) && t < |evs| && Aligned(evs)
    requires forall i | 0 <= i < t :: !LosesAt(mc, evs, i)
    ensures ShowsIdealAt(mc, evs, t) <==> !LosesAt(mc, evs, t)
  {
    var s, ev, mem := StateAt(mc, evs, t), evs[t], IdealAt(evs, t);
    CoherentUntilLoss(mc, evs, t);
    InvariantsHold(mc, evs, t);
    assert ev.vaddr == PAGE_SIZE * PageOf(ev.vaddr);
    IdealCountsWrites(evs, PageOf(ev.vaddr), t);
    if LosesAt(mc, evs, t) {
      LossIsVisible(s, ev, mem, mc.doc);
    } else {
      AccessIsTransparent(s, ev, mem, mc.doc);
    }
  }

  /** Transparency, exactly: every access of a page-aligned run sees its own address and the number of earlier
      writes to its page, if and only if no access loads a page whose entry still has DIRTY set (and, with
      `doc`, lacks ONSWAP). */
  lemma {:induction false} TransparentIffNothingLost(mc: Machine, evs: seq<Event>, n: nat)
    requires Fits(mc, evs) && (mc.doc ==> Exact(mc, evs)) && n <= |evs| && Aligned(evs)
    ensures (forall t | 0 <= t < n :: ShowsIdealAt(mc, evs, t)) <==> (forall t | 0 <= t < n :: !LosesAt(mc, evs, t))
  {
    if n > 0 {
      TransparentIffNothingLost(mc, evs, n - 1);
      if forall t | 0 <= t < n - 1 :: !LosesAt(mc, evs, t) {
        ShownUnlessLost(mc, evs, n - 1);
      }
    }
  }

  // ----- As the code is -------------------------------------------------------------------------

  /** An access to a page that has been written finds it resident. */
  ghost predicate HitsIfWritten(mc: Machine, evs: seq<Event>, t: nat)
    requires Fits(mc, evs) && t < |evs|
  {
    WritesTo(evs, PageOf(evs[t].vaddr), t) > 0 ==> Resident(StateAt(mc, evs, t).core, PageOf(evs[t].vaddr))
  }

  /** While nothing is lost, the pages with DIRTY set are exactly those written. */
  lemma DirtyIffWritten(e: Pte, q: Page, s: State, mem: Memory, vaddr: nat)
    requires Coherent(s, mem, false) && q == PageOf(vaddr) && e == PteOf(s.table, q) && vaddr % PAGE_SIZE == 0
    ensures e.dirty <==> Ideal(mem, vaddr).version > 0
  {
    assert CoherentAt(e, q, s.phys, s.swap.file, mem, false);
  }

  lemma LosesIff(mc: Machine, evs: seq<Event>, t: nat)
    requires Fits(mc, evs) && t < |evs| && Aligned(evs) && !mc.doc && forall i | 0 <= i < t :: !LosesAt(mc, evs, i)
    ensures LosesAt(mc, evs, t) <==> !HitsIfWritten(mc, evs, t)
  {
    var s, vaddr := StateAt(mc, evs, t), evs[t].vaddr;
    var p := PageOf(vaddr);
    CoherentUntilLoss(mc, evs, t);
    InvariantsHold(mc, evs, t);
    assert vaddr == PAGE_SIZE * p;
    IdealCountsWrites(evs, p, t);
    DirtyIffWritten(PteOf(s.table, p), p, s, IdealAt(evs, t), vaddr);
    ValidIffResident(s, p);
  }

  lemma {:induction false} NothingLostIff(mc: Machine, evs: seq<Event>, n: nat)
    requires Fits(mc, evs) && n <= |evs| && Aligned(evs) && !mc.doc
    ensures (forall t | 0 <= t < n :: !LosesAt(mc, evs, t)) <==> (forall t | 0 <= t < n :: HitsIfWritten(mc, evs, t))
  {
    if n > 0 {
      NothingLostIff(mc, evs, n - 1);
      if forall t | 0 <= t < n - 1 :: !LosesAt(mc, evs, t) { LosesIff(mc, evs, n - 1); }
    }
  }

  /** As the code is, paging is transparent if and only if every access to a page written earlier is a hit. */
  lemma TransparentIffWrittenPagesHit(mc: Machine, evs: seq<Event>, n: nat)
    requires Fits(mc, evs) && n <= |evs| && Aligned(evs) && !mc.doc
    ensures (forall t | 0 <= t < n :: ShowsIdealAt(mc, evs, t))
           <==> (forall t | 0 <= t < n :: HitsIfWritten(mc, evs, t))
  {
    TransparentIffNothingLost(mc, evs, n);
    NothingLostIff(mc, evs, n);
  }

  // ----- The address check ----------------------------------------------------------------------

  /** The frame of a valid entry records the address of its page. */
  predicate AddressAt(e: Pte, q: Page, phys: seq<Contents>) {
    e.valid ==> e.frame < |phys| && phys[e.frame].vaddr == PAGE_SIZE * q
  }

  ghost predicate Addressed(s: State) {
    forall q :: AddressAt(PteOf(s.table, q), q, s.phys)
  }

  lemma FindAddressed(s: State, ev: Event)
    requires Frames(s) && Addressed(s) && ev.victim < |s.core| && ev.vaddr % PAGE_SIZE == 0
    ensures var (s1, f) := Find(s, ev, false);
            Addressed(s1) && f < |s1.phys| && s1.phys[f].vaddr == ev.vaddr
  {
    var (s1, f) := Find(s, ev, false);
    var p := PageOf(ev.vaddr);
    assert AddressAt(PteOf(s.table, p), p, s.phys);
    OthersElsewhere(s, ev, false);
    forall q ensures AddressAt(PteOf(s1.table, q), q, s1.phys) {
      assert AddressAt(PteOf(s.table, q), q, s.phys);
    }
  }

  /** Counting a write leaves every address as it is. */
  lemma AccessAddressed(s: State, ev: Event)
    requires Frames(s) && Addressed(s) && ev.victim < |s.core| && ev.vaddr % PAGE_SIZE == 0
    ensures Addressed(Access(s, ev, false).0) && Access(s, ev, false).1.vaddr == ev.vaddr
  {
    FindAddressed(s, ev);
    var s1, s2 := Find(s, ev, false).0, Access(s, ev, false).0;
    forall q ensures AddressAt(PteOf(s2.table, q), q, s2.phys) {
      assert AddressAt(PteOf(s1.table, q), q, s1.phys);
    }
  }

  lemma AddressedNext(mc: Machine, evs: seq<Event>, t: nat, s: State, ev: Event) returns (s1: State)
    requires Fits(mc, evs) && t < |evs| && s == StateAt(mc, evs, t) && ev == evs[t] && !mc.doc
    requires ev.vaddr % PAGE_SIZE == 0 && Addressed(s)
    ensures s1 == StateAt(mc, evs, t + 1) && Addressed(s1)
  {
    NextState(mc, evs, t, s);
    AccessAddressed(s, ev);
    s1 := Access(s, ev, false).0;
  }

  lemma {:induction false} AlwaysAddressed(mc: Machine, evs: seq<Event>, t: nat) returns (s: State)
    requires Fits(mc, evs) && t <= |evs| && Aligned(evs) && !mc.doc
    ensures s == StateAt(mc, evs, t) && Addressed(s)
  {
    s := Start(mc);
    if t > 0 {
      s := AlwaysAddressed(mc, evs, t - 1);
      s := AddressedNext(mc, evs, t - 1, s, evs[t - 1]);
    }
  }

  /** As the code is, the address check of `access_mem` passes at every access, those that lose writes among them. */
  lemma CheckAlwaysPasses(mc: Machine, evs: seq<Event>, t: nat)
    requires Fits(mc, evs) && t < |evs| && Aligned(evs) && !mc.doc
    ensures SeenAt(mc, evs, t).vaddr == evs[t].vaddr
  {
    var s := AlwaysAddressed(mc, evs, t);
    AccessAddressed(s, evs[t]);
  }
}
