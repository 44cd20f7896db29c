/** The trace reduction of `fastslim.py`: phases of distinct pages, and what it may drop under LRU. */
module FastSlim {
  import opened Demand
  import opened Lists
  import opened Lru

  /** A reference of the filtered trace: its page, its position, and the mark. */
  datatype Item = Item(page: Page, tstamp: nat, marked: bool)

  /** What the main loop has built: the phases printed so far, the items waiting in `toprint`, and the pages buffered,
      the latest first. */
  datatype Slim = Slim(phases: seq<seq<nat>>, pending: seq<nat>, buffer: List)

  function SlimStep(s: Slim, p: Page, ts: nat, b: int): Slim {
    if Has(s.buffer, p) then s
    else if Length(s.buffer) == b then Slim(s.phases + [s.pending], [ts], Cons(p, Nil))
    else Slim(s.phases, s.pending + [ts], Cons(p, s.buffer))
  }

  /** The state before reference `t`; items are named by their position in the trace. */
  function SlimAt(trace: seq<Page>, b: int, t: nat): Slim
    requires t <= |trace|
  {
    if t == 0 then Slim([], [], Nil) else SlimStep(SlimAt(trace, b, t - 1), trace[t - 1], t - 1, b)
  }

  /** Reference `t` is dropped: its page is in the buffer. */
  predicate Dropped(trace: seq<Page>, b: int, t: nat)
    requires t < |trace|
  {
    Has(SlimAt(trace, b, t).buffer, trace[t])
  }

  function Flatten(phases: seq<seq<nat>>): seq<nat> {
    if phases == [] then [] else Flatten(phases[..|phases| - 1]) + phases[|phases| - 1]
  }

  /** All references kept so far, printed or waiting. */
  function Kept(s: Slim): seq<nat> {
    Flatten(s.phases) + s.pending
  }

  // ----- Shape of the output --------------------------------------------------------------------

  /** The references at these positions are to pages all different. */
  ghost predicate DistinctPages(trace: seq<Page>, ts: seq<nat>) {
    (forall i | 0 <= i < |ts| :: ts[i] < |trace|) && forall i, j | 0 <= i < j < |ts| :: trace[ts[i]] != trace[ts[j]]
  }

  /** Positions in trace order, below `t`, no two neighbours of the same page. */
  ghost predicate Chain(trace: seq<Page>, ts: seq<nat>, t: nat)
    requires t <= |trace|
  {
    (forall i | 0 <= i < |ts| :: ts[i] < t)
    && (forall i, j | 0 <= i < j < |ts| :: ts[i] < ts[j])
    && (forall i, j | 0 <= i && j == i + 1 < |ts| :: trace[ts[i]] != trace[ts[j]])
  }

  ghost predicate Buffers(trace: seq<Page>, pending: seq<nat>, buffer: List) {
    DistinctPages(trace, pending) && |pending| == Length(buffer)
    && (forall i | 0 <= i < |pending| :: Has(buffer, trace[pending[i]]))
  }

  ghost predicate Phases(trace: seq<Page>, b: int, phases: seq<seq<nat>>) {
    forall i | 0 <= i < |phases| :: |phases[i]| == b && DistinctPages(trace, phases[i])
  }

  /** The last reference kept is the last one waiting. */
  ghost predicate Links(ks: seq<nat>, pending: seq<nat>) {
    if pending == [] then ks == [] else ks != [] && ks[|ks| - 1] == pending[|pending| - 1]
  }

  lemma KeepStep(s: Slim, p: Page, ts: nat, b: int)
    ensures Kept(SlimStep(s, p, ts, b)) == if Has(s.buffer, p) then Kept(s) else Kept(s) + [ts]
  {
    if !Has(s.buffer, p) && Length(s.buffer) == b {
      assert (s.phases + [s.pending])[..|s.phases|] == s.phases;
    }
  }

  lemma ChainAppend(trace: seq<Page>, ks: seq<nat>, t: nat)
    requires t < |trace| && Chain(trace, ks, t) && (ks != [] ==> trace[ks[|ks| - 1]] != trace[t])
    ensures Chain(trace, ks + [t], t + 1)
  {
  }

  /** Whatever is printed comes in phases of exactly `b` distinct pages; the waiting references are one page each, too.
      With room for none the buffer is only full while it is empty, and grows from the first page on. */
  lemma {:induction false} OutputPhases(trace: seq<Page>, b: int, t: nat) returns (s: Slim)
    requires t <= |trace|
    ensures s == SlimAt(trace, b, t)
    ensures Phases(trace, b, s.phases) && Buffers(trace, s.pending, s.buffer) && (b > 0 ==> Length(s.buffer) <= b)
  {
    if t == 0 {
      s := Slim([], [], Nil);
    } else {
      var s0 := OutputPhases(trace, b, t - 1);
      s := SlimStep(s0, trace[t - 1], t - 1, b);
    }
  }

  lemma ChainStep(trace: seq<Page>, s: Slim, ks: seq<nat>, t: nat, b: int) returns (ks': seq<nat>)
    requires t < |trace| && Chain(trace, ks, t) && Links(ks, s.pending) && ks == Kept(s)
    requires Buffers(trace, s.pending, s.buffer)
    ensures var s' := SlimStep(s, trace[t], t, b);
            ks' == Kept(s') && Chain(trace, ks', t + 1) && Links(ks', s'.pending)
  {
    ks' := ks;
    KeepStep(s, trace[t], t, b);
    if !Has(s.buffer, trace[t]) {
      ks' := ks + [t];
      if s.pending != [] {
        assert Has(s.buffer, trace[s.pending[|s.pending| - 1]]);
      }
      ChainAppend(trace, ks, t);
    }
  }

  /** The kept references are a subsequence of the trace without two neighbours of one page; so is what is printed. */
  lemma {:induction false} OutputChain(trace: seq<Page>, b: int, t: nat) returns (s: Slim, ks: seq<nat>)
    requires t <= |trace|
    ensures s == SlimAt(trace, b, t) && ks == Kept(s) && Chain(trace, ks, t) && Links(ks, s.pending)
  {
    if t == 0 {
      s, ks := Slim([], [], Nil), [];
    } else {
      var n := t - 1;
      var _ := OutputPhases(trace, b, n);
      s, ks := OutputChain(trace, b, n);
      ks := ChainStep(trace, s, ks, n, b);
      s := SlimStep(s, trace[n], n, b);
    }
  }

  /** What is printed falls short of what is kept as soon as there is anything: the last buffer waits for good. */
  lemma PrintedIsKeptIff(trace: seq<Page>, b: int)
    ensures var s := SlimAt(trace, b, |trace|); Flatten(s.phases) == Kept(s) <==> trace == []
  {
    SomethingWaits(trace, b, |trace|);
    var s := SlimAt(trace, b, |trace|);
    assert Flatten(s.phases) == Kept(s) ==> |Kept(s)| == |Flatten(s.phases)| + |s.pending|;
  }

  lemma {:induction false} SomethingWaits(trace: seq<Page>, b: int, t: nat)
    requires t <= |trace|
    ensures SlimAt(trace, b, t).pending != [] <==> t > 0
    ensures SlimAt(trace, b, t).buffer.Cons? ==> t > 0
  {
    if t > 0 { SomethingWaits(trace, b, t - 1); }
  }

  /** With room for none, or a negative size, the buffer takes in every page, and nothing is ever printed. */
  lemma {:induction false} NoRoomPrintsNothing(trace: seq<Page>, b: int, t: nat, p: Page)
    requires t <= |trace| && b <= 0
    ensures Flatten(SlimAt(trace, b, t).phases) == []
    ensures Has(SlimAt(trace, b, t).buffer, p) <==> exists i | 0 <= i < t :: trace[i] == p
  {
    if t > 0 {
      NoRoomPrintsNothing(trace, b, t - 1, p);
      SomethingWaits(trace, b, t - 1);
      var s := SlimAt(trace, b, t - 1);
      NothingToFlush(trace, b, t - 1);
      assert (s.phases + [s.pending])[..|s.phases|] == s.phases;
    }
  }

  lemma NothingToFlush(trace: seq<Page>, b: int, t: nat)
    requires t <= |trace| && b <= 0
    ensures var s := SlimAt(trace, b, t); Length(s.buffer) == b ==> s.pending == []
  {
    var _ := OutputPhases(trace, b, t);
  }

  // ----- Dropped references hit under LRU -------------------------------------------------------

  lemma {:induction false} TakeBelow(l: List, k: nat, x: nat)
    requires !Has(Take(l, k), x)
    ensures Take(Without(l, x), k) == Take(l, k)
  {
    if l.Cons? && k > 0 { TakeBelow(l.tail, k - 1, x); }
  }

  lemma {:induction false} TakeWithoutTop(l: List, k: nat, x: nat, y: nat)
    requires Has(Take(l, k), x) && NoDuplicates(l)
    ensures Has(Take(Without(l, x), k - 1), y) <==> Has(Take(l, k), y) && y != x
  {
    if l.head == x {
      if Has(Take(l.tail, k - 1), x) { TakeWithin(l.tail, k - 1, k, x); }
    } else {
      TakeWithoutTop(l.tail, k - 1, x, y);
    }
  }

  /** The new top of the stack, by its first page and the rest. */
  lemma TakeMoved(l: List, x: nat, n: nat, p: nat)
    requires n > 0
    ensures Has(Take(MoveToFront(l, x), n), p) <==> p == x || Has(Take(Without(l, x), n - 1), p)
  {
    assert Take(MoveToFront(l, x), n) == Cons(x, Take(Without(l, x), n - 1));
  }

  /** One step of the buffer against one step of the stack. */
  lemma BufferStep(s: Slim, l: List, x: Page, ts: nat, b: int, p: Page, s': Slim)
    requires NoDuplicates(l) && (b > 0 ==> Length(s.buffer) <= b) && s' == SlimStep(s, x, ts, b)
    requires (Has(s.buffer, p) <==> Has(Take(l, Length(s.buffer)), p))
          && (Has(s.buffer, x) <==> Has(Take(l, Length(s.buffer)), x))
    ensures b > 0 ==> Length(s'.buffer) <= b
    ensures Has(s'.buffer, p) <==> Has(Take(MoveToFront(l, x), Length(s'.buffer)), p)
  {
    var k := Length(s.buffer);
    if Has(s.buffer, x) {
      TakeWithoutTop(l, k, x, p);
      TakeMoved(l, x, k, p);
    } else if k == b {
      TakeMoved(l, x, 1, p);
    } else {
      TakeBelow(l, k, x);
      TakeMoved(l, x, k + 1, p);
    }
  }

  /** The buffered pages are exactly the most recently used ones. */
  lemma {:induction false} BufferIsTopOfStack(trace: seq<Page>, b: int, t: nat, p: Page)
    requires t <= |trace|
    ensures var buffer := SlimAt(trace, b, t).buffer;
            (b > 0 ==> Length(buffer) <= b) && (Has(buffer, p) <==> Has(Take(Stack(trace, t), Length(buffer)), p))
  {
    if t > 0 {
      var n := t - 1;
      BufferIsTopOfStack(trace, b, n, p);
      BufferIsTopOfStack(trace, b, n, trace[n]);
      StackNoDuplicates(trace, n);
      BufferStep(SlimAt(trace, b, n), Stack(trace, n), trace[n], n, b, p, SlimAt(trace, b, t));
    }
  }

  /** Every reference dropped because its page is buffered is a hit when the unreduced trace runs under LRU with at
      least as many frames as the buffer has entries, or at that time has pages. */
  lemma DroppedIsHit(trace: seq<Page>, b: int, m: nat, vs: seq<nat>, t: nat)
    requires t < |trace| && t <= |vs| <= |trace| && InRange(vs, m) && FollowsLru(m, trace, vs)
    requires Dropped(trace, b, t) && (0 < b <= m || Length(SlimAt(trace, b, t).buffer) <= m)
    ensures Resident(CoreAt(m, trace, vs, t), trace[t])
  {
    BufferIsTopOfStack(trace, b, t, trace[t]);
    TakeWithin(Stack(trace, t), Length(SlimAt(trace, b, t).buffer), m, trace[t]);
    LruKeepsTopOfStack(m, trace, vs, t, trace[t]);
  }

  /** What an LRU run does at a reference, by the stack alone. */
  lemma LruMissAt(m: nat, trace: seq<Page>, vs: seq<nat>, t: nat)
    requires t < |trace| && t < |vs| <= |trace| && InRange(vs, m) && FollowsLru(m, trace, vs)
    ensures MissesAt(m, trace, vs, t + 1)
         == MissesAt(m, trace, vs, t) + if Has(Take(Stack(trace, t), m), trace[t]) then 0 else 1
  {
    LruKeepsTopOfStack(m, trace, vs, t, trace[t]);
    Unfold(m, trace, vs, t, CoreAt(m, trace, vs, t));
  }

  /** The buffer before reference `t`, and the references that were not dropped, without the phases. */
  function BufferUp(trace: seq<Page>, b: int, t: nat): List
    requires t <= |trace|
  {
    if t == 0 then Nil
    else
      var l := BufferUp(trace, b, t - 1);
      if Has(l, trace[t - 1]) then l else if Length(l) == b then Cons(trace[t - 1], Nil) else Cons(trace[t - 1], l)
  }

  function KeptUp(trace: seq<Page>, b: int, t: nat): seq<nat>
    requires t <= |trace|
  {
    if t == 0 then []
    else if Has(BufferUp(trace, b, t - 1), trace[t - 1]) then KeptUp(trace, b, t - 1)
    else KeptUp(trace, b, t - 1) + [t - 1]
  }

  /** What is kept are exactly the references that are not dropped, in order. */
  lemma {:induction false} KeptAreNotDropped(trace: seq<Page>, b: int, t: nat)
    requires t <= |trace|
    ensures BufferUp(trace, b, t) == SlimAt(trace, b, t).buffer && KeptUp(trace, b, t) == Kept(SlimAt(trace, b, t))
  {
    if t > 0 {
      KeptAreNotDropped(trace, b, t - 1);
      KeepStep(SlimAt(trace, b, t - 1), trace[t - 1], t - 1, b);
    }
  }

  lemma KeptNext(trace: seq<Page>, b: int, t: nat, l: List, ks: seq<nat>) returns (l': List, ks': seq<nat>)
    requires t < |trace| && l == BufferUp(trace, b, t) && ks == KeptUp(trace, b, t)
    ensures l' == BufferUp(trace, b, t + 1) && ks' == KeptUp(trace, b, t + 1)
    ensures l' == if Has(l, trace[t]) then l
                  else if Length(l) == b then Cons(trace[t], Nil) else Cons(trace[t], l)
    ensures ks' == if Has(l, trace[t]) then ks else ks + [t]
  {
    l', ks' := BufferUp(trace, b, t + 1), KeptUp(trace, b, t + 1);
  }

  /** The references to A B A C D A that are kept with room for two, waiting ones and all. */
  lemma KeptOfSix(trace: seq<Page>, b: int, t: nat) returns (ks: seq<nat>)
    requires trace == [0, 1, 0, 2, 3, 0] && b == 2 && t == 0
    ensures ks == KeptUp(trace, b, |trace|) && ks == [0, 1, 3, 4, 5]
  {
    var l := Nil;
    ks := [];
    l, ks := KeptNext(trace, b, t, l, ks);
    l, ks := KeptNext(trace, b, t + 1, l, ks);
    l, ks := KeptNext(trace, b, t + 2, l, ks);
    l, ks := KeptNext(trace, b, t + 3, l, ks);
    l, ks := KeptNext(trace, b, t + 4, l, ks);
    l, ks := KeptNext(trace, b, t + 5, l, ks);
  }

  /** The pages at these positions. */
  predicate PagesAre(trace: seq<Page>, ts: seq<nat>, pages: seq<Page>) {
    |pages| == |ts| && forall i | 0 <= i < |ts| :: ts[i] < |trace| && pages[i] == trace[ts[i]]
  }

  lemma SixPages(trace: seq<Page>, ks: seq<nat>, kept: seq<Page>)
    requires trace == [0, 1, 0, 2, 3, 0] && ks == [0, 1, 3, 4, 5] && kept == [0, 1, 2, 3, 0]
    ensures PagesAre(trace, ks, kept)
  {
  }

  /** Even with the last buffer printed the reduced trace would not miss as often as the full one: in A B A C D A the
      dropped reference is what keeps A in three frames. */
  lemma ReductionChangesMisses(trace: seq<Page>, b: int, m: nat, kept: seq<Page>, vs: seq<nat>, ws: seq<nat>)
    returns (ks: seq<nat>)
    requires trace == [0, 1, 0, 2, 3, 0] && b == 2 && m == 3 && kept == [0, 1, 2, 3, 0]
    requires |vs| == |trace| && InRange(vs, m) && FollowsLru(m, trace, vs)
    requires |ws| == |kept| && InRange(ws, m) && FollowsLru(m, kept, ws)
    ensures ks == Kept(SlimAt(trace, b, |trace|)) && PagesAre(trace, ks, kept)
    ensures MissesAt(m, trace, vs, |trace|) == 4
    ensures MissesAt(m, kept, ws, |kept|) == 5
  {
    ks := KeptOfSix(trace, b, 0);
    KeptAreNotDropped(trace, b, |trace|);
    SixPages(trace, ks, kept);
    SixMissFour(trace, m, vs);
    FiveMissFive(kept, m, ws);
  }

  lemma SixMissFour(trace: seq<Page>, m: nat, vs: seq<nat>)
    requires trace == [0, 1, 0, 2, 3, 0] && m == 3 && |vs| == |trace| && InRange(vs, m) && FollowsLru(m, trace, vs)
    ensures MissesAt(m, trace, vs, |trace|) == 4
  {
    assert Stack(trace, 1) == Cons(0, Nil);
    assert Stack(trace, 2) == Cons(1, Cons(0, Nil));
    assert Stack(trace, 3) == Cons(0, Cons(1, Nil));
    assert Stack(trace, 4) == Cons(2, Cons(0, Cons(1, Nil)));
    assert Stack(trace, 5) == Cons(3, Cons(2, Cons(0, Cons(1, Nil))));
    var t := 0;
    while t < 6
      invariant 0 <= t <= 6
      invariant MissesAt(m, trace, vs, t) == [0, 1, 2, 2, 3, 4, 4][t]
    {
      LruMissAt(m, trace, vs, t);
      t := t + 1;
    }
  }

  lemma FiveMissFive(trace: seq<Page>, m: nat, vs: seq<nat>)
    requires trace == [0, 1, 2, 3, 0] && m == 3 && |vs| == |trace| && InRange(vs, m) && FollowsLru(m, trace, vs)
    ensures MissesAt(m, trace, vs, |trace|) == 5
  {
    assert Stack(trace, 1) == Cons(0, Nil);
    assert Stack(trace, 2) == Cons(1, Cons(0, Nil));
    assert Stack(trace, 3) == Cons(2, Cons(1, Cons(0, Nil)));
    assert Stack(trace, 4) == Cons(3, Cons(2, Cons(1, Cons(0, Nil))));
    var t := 0;
    while t < 5
      invariant 0 <= t <= 5 && MissesAt(m, trace, vs, t) == t
    {
      LruMissAt(m, trace, vs, t);
      t := t + 1;
    }
  }

  function PagesOf(trace: seq<Page>, ts: seq<nat>): seq<Page>
    requires forall i | 0 <= i < |ts| :: ts[i] < |trace|
  {
    seq(|ts|, i requires 0 <= i < |ts| => trace[ts[i]])
  }

  /** `lru.c` survives every printed trace, given two frames. */
  lemma PrintedTraceIsSafe(trace: seq<Page>, b: int, m: nat, out: seq<nat>, pages: seq<Page>, vs: seq<nat>)
    requires m > 1 && out == Flatten(SlimAt(trace, b, |trace|).phases)
    requires (forall i | 0 <= i < |out| :: out[i] < |trace|) && pages == PagesOf(trace, out)
    requires |vs| == |out| && InRange(vs, m) && FollowsLru(m, pages, vs)
    ensures CodeListAt(m, pages, vs, |out|) == Sound(OrderAt(m, pages, vs, |out|))
  {
    var s, ks := OutputChain(trace, b, |trace|);
    forall i, j | 0 <= i && j == i + 1 < |out| ensures pages[i] != pages[j] {
      assert ks[i] == out[i] && ks[j] == out[j];
    }
    CodeListSoundIff(m, pages, vs, |out|);
  }

  // ----- The main loop --------------------------------------------------------------------------

  function InsertByTs(s: seq<Item>, x: Item): seq<Item> {
    if s == [] || s[|s| - 1].tstamp <= x.tstamp then s + [x] else InsertByTs(s[..|s| - 1], x) + [s[|s| - 1]]
  }

  /** Stable sorting by time stamp. */
  function SortByTs(s: seq<Item>): seq<Item> {
    if s == [] then [] else InsertByTs(SortByTs(s[..|s| - 1]), s[|s| - 1])
  }

  ghost predicate Sorted(s: seq<Item>) {
    forall i, j | 0 <= i < j < |s| :: s[i].tstamp <= s[j].tstamp
  }

  lemma {:induction false} InsertKeeps(s: seq<Item>, x: Item)
    ensures multiset(InsertByTs(s, x)) == multiset(s) + multiset{x}
  {
    if s != [] && s[|s| - 1].tstamp > x.tstamp {
      assert s == s[..|s| - 1] + [s[|s| - 1]];
      InsertKeeps(s[..|s| - 1], x);
    }
  }

  lemma BehindAll(front: seq<Item>, front': seq<Item>, x: Item, last: Item)
    requires Sorted(front + [last]) && Sorted(front') && x.tstamp < last.tstamp
    requires multiset(front') == multiset(front) + multiset{x}
    ensures Sorted(front' + [last])
  {
    forall i | 0 <= i < |front'| ensures front'[i].tstamp <= last.tstamp {
      assert front'[i] in multiset(front');
      if front'[i] != x {
        assert front'[i] in front;
        var k :| 0 <= k < |front| && front[k] == front'[i];
        assert (front + [last])[k] == front'[i] && (front + [last])[|front|] == last;
      }
    }
  }

  lemma {:induction false} InsertSorts(s: seq<Item>, x: Item)
    requires Sorted(s)
    ensures Sorted(InsertByTs(s, x))
  {
    if s != [] && s[|s| - 1].tstamp > x.tstamp {
      var front, last := s[..|s| - 1], s[|s| - 1];
      var front' := InsertByTs(front, x);
      assert s == front + [last];
      InsertSorts(front, x);
      InsertKeeps(front, x);
      BehindAll(front, front', x, last);
    }
  }

  /** It sorts. */
  lemma {:induction false} SortSorts(s: seq<Item>)
    ensures Sorted(SortByTs(s)) && multiset(SortByTs(s)) == multiset(s)
  {
    if s != [] {
      assert s == s[..|s| - 1] + [s[|s| - 1]];
      SortSorts(s[..|s| - 1]);
      InsertSorts(SortByTs(s[..|s| - 1]), s[|s| - 1]);
      InsertKeeps(SortByTs(s[..|s| - 1]), s[|s| - 1]);
    }
  }

  /** And leaves a list that is in order as it is. */
  lemma {:induction false} SortedStays(s: seq<Item>)
    requires forall i, j | 0 <= i < j < |s| :: s[i].tstamp <= s[j].tstamp
    ensures SortByTs(s) == s
  {
    if s != [] {
      SortedStays(s[..|s| - 1]);
      assert s == s[..|s| - 1] + [s[|s| - 1]];
    }
  }

  function Items(trace: seq<Page>, ts: seq<nat>): seq<Item>
    requires Below(ts, |trace|)
  {
    seq(|ts|, i requires 0 <= i < |ts| => Item(trace[ts[i]], ts[i], false))
  }

  predicate Below(ts: seq<nat>, n: nat) {
    forall i | 0 <= i < |ts| :: ts[i] < n
  }

  lemma ItemsAppend(trace: seq<Page>, a: seq<nat>, b: seq<nat>)
    requires Below(a, |trace|) && Below(b, |trace|)
    ensures Below(a + b, |trace|) && Items(trace, a + b) == Items(trace, a) + Items(trace, b)
  {
  }

  /** The buffered items of these pages. */
  function ItemsOf(tracebuffer: map<Page, Item>, pages: seq<Page>): seq<Item>
    requires forall p | p in pages :: p in tracebuffer
  {
    seq(|pages|, i requires 0 <= i < |pages| => tracebuffer[pages[i]])
  }

  /** All marked pages of the buffer but for those in `rest`, each once. */
  ghost predicate MarkedPages(tracebuffer: map<Page, Item>, pages: seq<Page>, rest: set<Page>) {
    (forall p :: p in pages <==> p in tracebuffer && p !in rest && tracebuffer[p].marked)
    && forall i, j | 0 <= i < j < |pages| :: pages[i] != pages[j]
  }

  /** The globals of the program and what has been printed. */
  class Reducer {
    const buffersize: int
    var tracebuffer: map<Page, Item>
    var toprint: seq<Item>
    var out: seq<Item>

    /** The globals stand for `s`; no buffered item is marked and the waiting items are in order. */
    ghost predicate Represents(trace: seq<Page>, s: Slim, t: nat)
      reads this
    {
      t <= |trace| && (forall p :: p in tracebuffer <==> Has(s.buffer, p)) && |tracebuffer| == Length(s.buffer)
      && (forall p | p in tracebuffer :: !tracebuffer[p].marked)
      && Below(s.pending, t) && (forall i, j | 0 <= i < j < |s.pending| :: s.pending[i] < s.pending[j])
      && toprint == Items(trace, s.pending)
      && Below(Flatten(s.phases), t) && out == Items(trace, Flatten(s.phases))
    }

    constructor (buffersize: int)
      ensures this.buffersize == buffersize && forall trace :: Represents(trace, Slim([], [], Nil), 0)
    {
      this.buffersize := buffersize;
      tracebuffer, toprint, out := map[], [], [];
    }

    /** `emit_marked_in_ts_order`, for any order in which the set may be walked. */
    method EmitMarked() returns (ghost pages: seq<Page>)
      modifies this
      ensures tracebuffer == map[] && toprint == []
      ensures MarkedPages(old(tracebuffer), pages, {})
           && out == old(out) + SortByTs(old(toprint) + ItemsOf(old(tracebuffer), pages))
      ensures (forall p | p in old(tracebuffer) :: !old(tracebuffer)[p].marked) ==>
               out == old(out) + SortByTs(old(toprint))
    {
      var rest := tracebuffer.Keys;
      pages := [];
      while rest != {}
        invariant rest <= tracebuffer.Keys && tracebuffer == old(tracebuffer) && out == old(out)
        invariant MarkedPages(tracebuffer, pages, rest) && toprint == old(toprint) + ItemsOf(tracebuffer, pages)
      {
        var p :| p in rest;
        if tracebuffer[p].marked {
          toprint := toprint + [tracebuffer[p]];
          pages := pages + [p];
        }
        rest := rest - {p};
      }
      assert pages != [] ==> pages[0] in pages;
      assert pages == [] ==> toprint == old(toprint);
      toprint := SortByTs(toprint);
      out := out + toprint;
      tracebuffer := map[];
      toprint := [];
    }

    /** A full buffer is printed as it waits: the sort moves nothing, for nothing was marked. */
    method Flush(ghost trace: seq<Page>, ghost s: Slim, ghost t: nat)
      requires Represents(trace, s, t)
      modifies this
      ensures Represents(trace, Slim(s.phases + [s.pending], [], Nil), t)
    {
      SortedStays(toprint);
      ItemsAppend(trace, Flatten(s.phases), s.pending);
      assert (s.phases + [s.pending])[..|s.phases|] == s.phases;
      ghost var _ := EmitMarked();
    }

    /** A new page joins the buffer, its item the list. */
    method Append(trace: seq<Page>, ti: Item, ghost s: Slim)
      requires ti.tstamp < |trace| && ti == Item(trace[ti.tstamp], ti.tstamp, false)
      requires Represents(trace, s, ti.tstamp) && !Has(s.buffer, ti.page)
      modifies this
      ensures Represents(trace, Slim(s.phases, s.pending + [ti.tstamp], Cons(ti.page, s.buffer)), ti.tstamp + 1)
    {
      ItemsAppend(trace, s.pending, [ti.tstamp]);
      toprint := toprint + [ti];
      tracebuffer := tracebuffer[ti.page := ti];
    }

    /** One reference. The mark and the new time stamp go to an item that is not in the buffer. */
    method See(trace: seq<Page>, ts: nat, ghost s: Slim)
      requires ts < |trace| && Represents(trace, s, ts)
      modifies this
      ensures Represents(trace, SlimStep(s, trace[ts], ts, buffersize), ts + 1)
    {
      var ti := Item(trace[ts], ts, false);
      if ti.page in tracebuffer {
        ti := ti.(marked := true, tstamp := ts);
      } else {
        ghost var now := s;
        if |tracebuffer| == buffersize {
          Flush(trace, s, ts);
          now := Slim(s.phases + [s.pending], [], Nil);
          assert now.pending + [ts] == [ts];
        }
        Append(trace, ti, now);
      }
    }
  }

  /** The main loop: what is printed are the first references of each full phase, in order. */
  method Reduce(trace: seq<Page>, b: int) returns (out: seq<Item>)
    ensures var ts := Flatten(SlimAt(trace, b, |trace|).phases);
            Below(ts, |trace|) && out == Items(trace, ts)
  {
    var r := new Reducer(b);
    var ts := 0;
    while ts < |trace|
      invariant 0 <= ts <= |trace| && r.Represents(trace, SlimAt(trace, b, ts), ts)
    {
      r.See(trace, ts, SlimAt(trace, b, ts));
      ts := ts + 1;
    }
    out := r.out;
  }
}
