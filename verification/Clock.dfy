/** The CLOCK policy: the recursive second-chance sweep over the REF bits of the resident pages. */
module Clock {
  import opened Options
  import opened Demand
  import opened Modular
  import opened PteWord
  import opened Paging
  import opened Simulator
  import opened Fifo

  /** The frame `k` steps on from `h`, at most one round. */
  function On(h: nat, k: nat, m: nat): (f: nat)
    requires h < m && k <= m
    ensures f < m
  {
    if h + k < m then h + k else h + k - m
  }

  /** How many steps it takes from `h` to `f`. */
  function Distance(h: nat, f: nat, m: nat): nat
    requires h < m && f < m
  {
    if h <= f then f - h else f + m - h
  }

  lemma OnIsModular(h: nat, k: nat, m: nat)
    requires h < m && k <= m
    ensures On(h, k, m) == (h + k) % m
  {
    if h + k < m { DivModOf(0, m, h + k); } else { DivModOf(1, m, h + k - m); }
  }

  /** From `h`, how many steps from `d` on to the first clear REF bit; `m` when a whole round finds none. */
  function Skipped(refs: seq<bool>, h: nat, d: nat): (n: nat)
    requires h < |refs| && d <= |refs|
    ensures d <= n <= |refs|
    ensures n < |refs| ==> !refs[On(h, n, |refs|)]
    ensures forall f | 0 <= f < |refs| && d <= Distance(h, f, |refs|) < n :: refs[f]
    decreases |refs| - d
  {
    if d == |refs| || !refs[On(h, d, |refs|)] then d else Skipped(refs, h, d + 1)
  }

  lemma {:induction false} SkippedIs(refs: seq<bool>, h: nat, d: nat, n: nat)
    requires h < |refs| && d <= n <= |refs|
    requires n < |refs| ==> !refs[On(h, n, |refs|)]
    requires forall f: nat | f < |refs| && d <= Distance(h, f, |refs|) < n :: refs[f]
    ensures Skipped(refs, h, d) == n
    decreases n - d
  {
    if d < n {
      assert Distance(h, On(h, d, |refs|), |refs|) == d;
      SkippedIs(refs, h, d + 1, n);
    }
  }

  /** The hand ends just past the victim exactly when nothing was skipped, or everything. */
  lemma HandPastVictimIff(h: nat, d: nat, m: nat)
    requires h < m && d <= m
    ensures (h + 2 * d + 1) % m == (h + d + 1) % m <==> d == 0 || d == m
  {
    ModShift(h + d + 1, d, m);
  }

  /** What a sweep from `h` over `d` referenced frames leaves: the victim is the first clear frame (or `h`, after a
      whole round), exactly the frames passed over are cleared, and the hand has moved twice for each of them and once
      more. */
  ghost predicate Sweeps(refs: seq<bool>, h: nat, evict: nat, hand: nat, refs': seq<bool>)
    requires h < |refs|
  {
    var m, d := |refs|, Skipped(refs, h, 0);
    evict == On(h, d, m) && hand == (h + 2 * d + 1) % m && |refs'| == m
    && forall f: nat | f < m :: refs'[f] <==> refs[f] && d <= Distance(h, f, m)
  }

  /** A sweep whose first frame is referenced clears that bit, sweeps from the next frame, and moves the hand
      once more. */
  lemma SweepUnfolds(refs: seq<bool>, h: nat, evict: nat, hand: nat, refs': seq<bool>)
    requires h < |refs| && refs[h]
    requires Sweeps(refs[h := false], Next(h, |refs|), evict, hand, refs')
    ensures Sweeps(refs, h, evict, Next(hand, |refs|), refs')
  {
    var m, g, cleared := |refs|, Next(h, |refs|), refs[h := false];
    var d := Skipped(cleared, g, 0);
    assert Distance(g, h, m) == m - 1;
    assert d < m;
    forall f: nat | f < m && f != h ensures Distance(h, f, m) == Distance(g, f, m) + 1 {
    }
    SkippedIs(refs, h, 0, d + 1);
    HandMoves(h, d, m);
  }

  lemma HandMoves(h: nat, d: nat, m: nat)
    requires h < m
    ensures Next((Next(h, m) + 2 * d + 1) % m, m) == (h + 2 * (d + 1) + 1) % m
  {
    ModNext(h + 2 * d + 2, m);
    if h + 1 == m {
      AddDivisor(2 * d + 1, m);
    }
  }

  /** A sweep whose first frame is clear. */
  lemma SweepStops(refs: seq<bool>, h: nat)
    requires h < |refs| && !refs[h]
    ensures Sweeps(refs, h, h, Next(h, |refs|), refs)
  {
    SkippedIs(refs, h, 0, 0);
    DivModOf(0, |refs|, h);
    ModNext(h, |refs|);
  }

  // ----- One reference under CLOCK --------------------------------------------------------------

  /** What CLOCK goes by: the pages in the frames, the REF bits of these pages, and the hand. */
  datatype Turn = Turn(core: Core, refs: seq<bool>, hand: nat)

  predicate TurnOk(t: Turn) {
    |t.refs| == |t.core| && t.hand < |t.core|
  }

  predicate Needs(core: Core, p: Page) {
    Full(core) && Some(p) !in core
  }

  /** The bits after a sweep from `h`: those skipped are clear. */
  function Swept(refs: seq<bool>, h: nat): (refs': seq<bool>)
    requires h < |refs|
    ensures |refs'| == |refs|
  {
    seq(|refs|, f requires 0 <= f < |refs| => refs[f] && Skipped(refs, h, 0) <= Distance(h, f, |refs|))
  }

  lemma SweepIs(refs: seq<bool>, h: nat, evict: nat, hand: nat, refs': seq<bool>)
    requires h < |refs| && Sweeps(refs, h, evict, hand, refs')
    ensures refs' == Swept(refs, h) && evict == (h + Skipped(refs, h, 0)) % |refs|
  {
    OnIsModular(h, Skipped(refs, h, 0), |refs|);
  }

  /** The frame given up for `p`, if one has to be: the first from the hand whose bit is clear. */
  function VictimOf(t: Turn, p: Page): (v: nat)
    requires TurnOk(t)
    ensures v < |t.core|
  {
    if Needs(t.core, p) then (t.hand + Skipped(t.refs, t.hand, 0)) % |t.core| else 0
  }

  function HandAfter(t: Turn, p: Page): (h: nat)
    requires TurnOk(t)
    ensures h < |t.core|
  {
    if Needs(t.core, p) then (t.hand + 2 * Skipped(t.refs, t.hand, 0) + 1) % |t.core| else t.hand
  }

  lemma SweepServes(t: Turn, p: Page, evict: nat, hand: nat, refs': seq<bool>)
    requires TurnOk(t) && Needs(t.core, p) && Sweeps(t.refs, t.hand, evict, hand, refs')
    ensures evict == VictimOf(t, p) && hand == HandAfter(t, p) && refs' == Swept(t.refs, t.hand)
  {
    SweepIs(t.refs, t.hand, evict, hand, refs');
  }

  /** After a reference to `p`: its frame is marked, and so is the one under the hand. */
  function NextTurn(t: Turn, p: Page): (t': Turn)
    requires TurnOk(t)
    ensures TurnOk(t') && |t'.core| == |t.core|
  {
    var core := Touch(t.core, p, VictimOf(t, p));
    var refs := if Needs(t.core, p) then Swept(t.refs, t.hand) else t.refs;
    Turn(core, refs[FrameOf(core, p) := true][HandAfter(t, p) := true], HandAfter(t, p))
  }

  lemma OnDistance(h: nat, f: nat, m: nat)
    requires h < m && f < m
    ensures Distance(h, f, m) < m && (h + Distance(h, f, m)) % m == f
  {
    OnIsModular(h, Distance(h, f, m), m);
  }

  lemma DistanceOn(h: nat, k: nat, m: nat)
    requires h < m && k < m
    ensures (h + k) % m < m && Distance(h, (h + k) % m, m) == k
  {
    OnIsModular(h, k, m);
  }

  /** The bit `k` frames on from `h`. */
  predicate BitFrom(refs: seq<bool>, h: nat, k: nat)
    requires |refs| > 0
  {
    refs[(h + k) % |refs|]
  }

  /** `d` frames from the hand on have their bit set, and the next one has not, unless they are all. */
  ghost predicate FirstClear(refs: seq<bool>, h: nat, d: nat)
    requires h < |refs|
  {
    d <= |refs| && (forall k: nat | k < d :: BitFrom(refs, h, k)) && (d < |refs| ==> !BitFrom(refs, h, d))
  }

  lemma SkippedIsFirstClear(refs: seq<bool>, h: nat, d: nat)
    requires h < |refs| && FirstClear(refs, h, d)
    ensures Skipped(refs, h, 0) == d
  {
    if d < |refs| { OnIsModular(h, d, |refs|); }
    forall f: nat | f < |refs| && Distance(h, f, |refs|) < d ensures refs[f] {
      OnDistance(h, f, |refs|);
      assert BitFrom(refs, h, Distance(h, f, |refs|));
    }
    SkippedIs(refs, h, 0, d);
  }

  lemma SweptBit(refs: seq<bool>, h: nat, d: nat, k: nat, f: nat)
    requires h < |refs| && FirstClear(refs, h, d) && k < |refs| && f == (h + k) % |refs|
    ensures f < |refs| && (Swept(refs, h)[f] <==> refs[f] && k >= d)
  {
    SkippedIsFirstClear(refs, h, d);
    DistanceOn(h, k, |refs|);
  }

  /** A page stays in the one frame that holds it. */
  lemma HeldOnce(core: Core, p: Page, f: nat)
    requires Distinct(core) && Some(p) in core && f < |core|
    ensures f == FrameOf(core, p) <==> core[f] == Some(p)
  {
    var g := FrameOf(core, p);
    assert f < g ==> core[f].Some? ==> core[f] != core[g];
    assert g < f ==> core[g].Some? ==> core[g] != core[f];
  }

  /** The hand and the coremap after a reference to `p`: a page is given up only if it has to be, in the first frame
      from the hand whose bit is clear, and then the hand ends `2 * d + 1` frames on. */
  lemma HandAndCoreAfter(t: Turn, p: Page, d: nat)
    requires TurnOk(t) && FirstClear(t.refs, t.hand, d)
    ensures var m, t', evicts := |t.core|, NextTurn(t, p), Full(t.core) && Some(p) !in t.core;
            t'.hand == (if evicts then (t.hand + 2 * d + 1) % m else t.hand)
            && t'.core == Touch(t.core, p, if evicts then (t.hand + d) % m else 0)
  {
    SkippedIsFirstClear(t.refs, t.hand, d);
  }

  /** The bits after it: those under the hand and of its own frame are set. If a page was given up, the bits of the `d`
      frames passed over are clear otherwise; every other bit is as it was. */
  lemma BitsAfter(t: Turn, p: Page, d: nat, k: nat, f: nat)
    requires TurnOk(t) && FirstClear(t.refs, t.hand, d) && Distinct(t.core)
    requires k < |t.core| && f == (t.hand + k) % |t.core|
    ensures var t' := NextTurn(t, p);
            f < |t.core|
            && (t'.refs[f] <==>
                  f == t'.hand || t'.core[f] == Some(p)
                  || (t.refs[f] && (Full(t.core) && Some(p) !in t.core ==> k >= d)))
  {
    SweptBit(t.refs, t.hand, d, k, f);
    var g := TouchOneFrame(t.core, p, VictimOf(t, p));
    HeldOnce(NextTurn(t, p).core, p, f);
  }

  // ----- The REF bits of the resident pages -----------------------------------------------------

  predicate RefOf(table: map<Page, Entry>, o: Option<Page>) {
    o.Some? && RefOn(table, o.value)
  }

  function RefBits(core: Core, table: map<Page, Entry>): seq<bool> {
    seq(|core|, i requires 0 <= i < |core| => RefOf(table, core[i]))
  }

  /** Rewriting the REF bit of one resident page changes one bit and nothing the page table stands for. */
  lemma OneRefChanged(core: Core, table: map<Page, Entry>, f: nat, on: bool)
    requires f < |core| && core[f].Some? && core[f].value in table && Distinct(core)
    ensures var q := core[f].value;
            var e := table[q];
            var table' := table[q := e.(word := if on then Set(e.word, REF) else Clear(e.word, REF))];
            Decoded(table') == Decoded(table) && RefBits(core, table') == RefBits(core, table)[f := on]
  {
    var q := core[f].value;
    var e := table[q];
    var table' := table[q := e.(word := if on then Set(e.word, REF) else Clear(e.word, REF))];
    DecodeSet(e.word, e.swapOff);
    FlagsAreIndependent(e.word, REF, REF);
    forall i | 0 <= i < |core| ensures RefBits(core, table')[i] == RefBits(core, table)[f := on][i] {
      if i != f && core[i].Some? {
        assert core[i].value != q by { if i < f { assert core[i] != core[f]; } else { assert core[f] != core[i]; } }
      }
    }
  }

  /** A reference to `p` that marks it and leaves the bits of other pages marks one frame. */
  lemma RefsAfterFind(core: Core, table: map<Page, Entry>, core': Core, table': map<Page, Entry>, p: Page, v: nat)
    requires v < |core| && Distinct(core) && core' == Touch(core, p, v)
    requires RefOn(table', p) && forall r | r != p :: RefOn(table', r) == RefOn(table, r)
    ensures RefBits(core', table') == RefBits(core, table)[FrameOf(core', p) := true]
  {
    var g := TouchOneFrame(core, p, v);
    assert FrameOf(core', p) == g;
    forall i | 0 <= i < |core| && i != g ensures RefOf(table', core'[i]) == RefOf(table, core[i]) {
      assert core'[i] == core[i] != Some(p);
    }
  }

  function CountSet(refs: seq<bool>, n: nat): nat
    requires n <= |refs|
  {
    if n == 0 then 0 else CountSet(refs, n - 1) + if refs[n - 1] then 1 else 0
  }

  lemma {:induction false} CountDrops(refs: seq<bool>, f: nat, n: nat)
    requires f < |refs| && n <= |refs| && refs[f]
    ensures CountSet(refs[f := false], n) == CountSet(refs, n) - if f < n then 1 else 0
  {
    if n > 0 { CountDrops(refs, f, n - 1); }
  }

  class ClockHand {
    const sim: Sim
    var index: nat

    constructor (sim: Sim)
      ensures this.sim == sim && index == 0
    {
      this.sim := sim;
      index := 0;
    }

    ghost predicate Valid()
      reads this, sim, sim.coremap, sim.physmem, sim.swap, sim.swap.slots, sim.swap.slots.v
    {
      sim.Valid() && Frames(sim.Abs()) && index < sim.coremap.Length
    }

    ghost function Refs(): seq<bool>
      reads this, sim, sim.coremap
    {
      RefBits(sim.coremap[..], sim.table)
    }

    ghost function At(): Turn
      reads this, sim, sim.coremap
    {
      Turn(sim.coremap[..], Refs(), index)
    }

    method Advance()
      requires index < sim.coremap.Length
      modifies this`index
      ensures index == Next(old(index), sim.coremap.Length) == (old(index) + 1) % sim.coremap.Length
    {
      DivModOf(0, sim.coremap.Length, index);
      ModNext(index, sim.coremap.Length);
      index := index + 1;
      if index >= sim.coremap.Length {
        index := 0;
      }
    }

    /** Set or clear the REF bit of the page under the hand. */
    method WriteRef(on: bool)
      requires Valid() && sim.coremap[index].Some?
      modifies sim`table
      ensures Valid() && sim.Abs() == old(sim.Abs()) && Refs() == old(Refs())[index := on]
    {
      var q := sim.coremap[index].value;
      assert HoldsAt(sim.Abs().core, index, q) && MapsTo(sim.Abs().table, q, index);
      FramesDistinct(sim.Abs());
      OneRefChanged(sim.coremap[..], sim.table, index, on);
      var e := EntryOf(sim.table, q);
      sim.table := sim.table[q := e.(word := if on then Set(e.word, REF) else Clear(e.word, REF))];
    }

    /** `clock_evict`, called when every frame is in use. */
    method Evict() returns (evict: nat)
      requires Valid() && Full(sim.coremap[..])
      modifies this, sim`table
      ensures Valid() && sim.Abs() == old(sim.Abs())
      ensures Sweeps(old(Refs()), old(index), evict, index, Refs())
      decreases CountSet(Refs(), |Refs()|)
    {
      ghost var refs, h := Refs(), index;
      evict := index;
      if RefOf(sim.table, sim.coremap[evict]) {
        CountDrops(refs, evict, |refs|);
        WriteRef(false);
        Advance();
        evict := Evict();
        SweepUnfolds(refs, h, evict, index, Refs());
      } else {
        SweepStops(refs, h);
      }
      Advance();
    }

    /** `clock_ref`: the page under the hand is marked, whichever page was referenced. */
    method Ref()
      requires Valid() && sim.coremap[index].Some?
      modifies sim`table
      ensures Valid() && sim.Abs() == old(sim.Abs()) && Refs() == old(Refs())[index := true]
    {
      WriteRef(true);
    }

    /** The hand stays at frame 0 until every frame is in use, and frames are taken in order. */
    ghost predicate Started()
      reads this, sim, sim.coremap
    {
      (index == 0 || Full(sim.coremap[..])) && FilledInOrder(sim.coremap[..])
    }

    /** The victim, if a missing page needs one. */
    method PickVictim(vaddr: nat) returns (victim: nat)
      requires Valid()
      modifies this, sim`table
      ensures Valid() && sim.Abs() == old(sim.Abs())
      ensures victim == VictimOf(old(At()), PageOf(vaddr)) && index == HandAfter(old(At()), PageOf(vaddr))
      ensures Refs() == if Needs(sim.coremap[..], PageOf(vaddr)) then Swept(old(Refs()), old(index)) else old(Refs())
    {
      victim := 0;
      ghost var t := At();
      DecodedEntry(sim.table, PageOf(vaddr));
      ValidIffResident(sim.Abs(), PageOf(vaddr));
      if !Flag(EntryOf(sim.table, PageOf(vaddr)).word, VALID) && Full(sim.coremap[..]) {
        victim := Evict();
        SweepServes(t, PageOf(vaddr), victim, index, Refs());
      }
    }

    /** `find_physpage` with CLOCK behind it. It never follows the entry pointer of a free frame: `clock_evict` is
        called when all are in use, and `clock_ref` finds the frame under the hand in use. */
    method FindPhyspage(vaddr: nat, kind: char) returns (frame: nat, ghost victim: nat)
      requires Valid() && Started()
      modifies this, sim, sim.coremap, sim.physmem, sim.swap, sim.swap.slots.v
      ensures Valid() && Started() && victim == VictimOf(old(At()), PageOf(vaddr))
      ensures (sim.Abs(), frame) == Find(old(sim.Abs()), Event(kind, vaddr, victim), false)
      ensures At() == NextTurn(old(At()), PageOf(vaddr))
      ensures Refs()[index]
    {
      ghost var s := sim.Abs();
      var v := PickVictim(vaddr);
      victim := v;
      ghost var core, table := sim.coremap[..], sim.table;
      FindInOrder(s, Event(kind, vaddr, v));
      FramesDistinct(s);
      frame := sim.FindPhyspage(vaddr, kind, v);
      RefsAfterFind(core, table, sim.coremap[..], sim.table, PageOf(vaddr), v);
      Ref();
    }

    /** The rest of `access_mem` for the frame found: the address check, and the version word that counts a write. */
    method UseFrame(f: nat, kind: char, vaddr: nat, ghost s: State) returns (matches: bool)
      requires Valid() && f < |s.phys| && s == sim.Abs()
      modifies sim.physmem
      ensures Valid() && At() == old(At()) && (old(Started()) ==> Started())
      ensures matches <==> s.phys[f].vaddr == vaddr
      ensures sim.Abs() == if Writes(kind)
                           then s.(phys := s.phys[f := s.phys[f].(version := s.phys[f].version + 1)]) else s
    {
      matches := sim.physmem[f].vaddr == vaddr;
      if kind == 'S' || kind == 'M' {
        sim.physmem[f] := sim.physmem[f].(version := sim.physmem[f].version + 1);
      }
    }

    /** `access_mem` with CLOCK behind it. */
    method AccessMem(kind: char, vaddr: nat, ghost s: State) returns (matches: bool, ghost victim: nat)
      requires Valid() && Started() && s == sim.Abs()
      modifies this, sim, sim.coremap, sim.physmem, sim.swap, sim.swap.slots.v
      ensures Valid() && Started() && victim == VictimOf(old(At()), PageOf(vaddr))
           && victim < |s.core| == |s.phys| && Frames(s)
      ensures sim.Abs() == Access(s, Event(kind, vaddr, victim), false).0
      ensures matches <==> Access(s, Event(kind, vaddr, victim), false).1.vaddr == vaddr
      ensures At() == NextTurn(old(At()), PageOf(vaddr))
    {
      var f;
      f, victim := FindPhyspage(vaddr, kind);
      ghost var s1 := sim.Abs();
      AccessIs(s, Event(kind, vaddr, victim), s1, f);
      matches := UseFrame(f, kind, vaddr, s1);
    }
  }

  /** The frames in use are the first ones. */
  ghost predicate FilledInOrder(core: Core) {
    forall f | FirstFree(core) <= f < |core| :: core[f].None?
  }

  /** A reference keeps that order, fills a frame at most, and leaves frame 0 in use. */
  lemma TouchFills(core: Core, p: Page, v: nat)
    requires v < |core| && FilledInOrder(core)
    ensures FilledInOrder(Touch(core, p, v)) && Touch(core, p, v)[0].Some?
    ensures Full(core) ==> Full(Touch(core, p, v))
  {
    var n := FirstFree(core);
    if Some(p) !in core {
      FirstFreeIs(core[Slot(core, v) := Some(p)], if n < |core| then n + 1 else n);
    }
  }

  lemma AccessIs(s: State, ev: Event, s1: State, f: nat)
    requires Frames(s) && ev.victim < |s.core| && (s1, f) == Find(s, ev, false)
    ensures f < |s1.phys| && Access(s, ev, false).1 == s1.phys[f]
    ensures Access(s, ev, false).0
         == if Writes(ev.kind) then s1.(phys := s1.phys[f := s1.phys[f].(version := s1.phys[f].version + 1)]) else s1
  {
    FindKeepsFrames(s, ev, false);
  }

  lemma FindInOrder(s: State, ev: Event)
    requires Frames(s) && ev.victim < |s.core| && FilledInOrder(s.core)
    ensures var core := Find(s, ev, false).0.core;
            core == Touch(s.core, PageOf(ev.vaddr), ev.victim) && FilledInOrder(core) && |core| == |s.core|
            && core[0].Some? && (Full(s.core) ==> Full(core))
    ensures Frames(Find(s, ev, false).0)
  {
    FindTouches(s, ev, false);
    FindKeepsFrames(s, ev, false);
    TouchFills(s.core, PageOf(ev.vaddr), ev.victim);
  }

  lemma FramesDistinct(s: State)
    requires Frames(s)
    ensures Distinct(s.core)
  {
    forall i, j | 0 <= i < j < |s.core| && s.core[i].Some? ensures s.core[i] != s.core[j] {
      var q := s.core[i].value;
      assert HoldsAt(s.core, i, q) && MapsTo(s.table, q, i);
      assert HoldsAt(s.core, j, q) ==> MapsTo(s.table, q, j);
    }
  }
}
