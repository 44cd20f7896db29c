/** The policies at work: what their rules mean for runs of the simulator, and the runs their code makes. */
module Policies {
  import opened Options
  import opened Demand
  import opened Lists
  import opened Paging
  import opened Runs
  import Belady
  import Fifo
  import Opt
  import opened Lru
  import opened LruList

  // ----- Runs of the simulator ------------------------------------------------------------------

  /** No policy, in the simulator as it is, misses less often than one that evicts by OPT's rule. */
  lemma OptimalInSimulator(mc: Machine, evs: seq<Event>, other: seq<Event>, t: nat)
    requires Fits(mc, evs) && Fits(mc, other) && Pages(evs) == Pages(other) && t <= |evs|
    requires InRange(Victims(evs), |mc.phys0|) && Belady.FollowsRule(|mc.phys0|, Pages(evs), Victims(evs))
    ensures |other| == |evs| && StateAt(mc, evs, t).misses <= StateAt(mc, other, t).misses
  {
    assert |Pages(evs)| == |Pages(other)|;
    RunIsDemandPaging(mc, evs, t);
    RunIsDemandPaging(mc, other, t);
    Belady.RuleIsOptimal(|mc.phys0|, Pages(evs), Victims(evs), Victims(other), t);
  }

  /** More memory never makes an LRU run of the simulator miss more often, and keeps every page resident that was. */
  lemma LruMonotoneInSimulator(small: Machine, large: Machine, evs: seq<Event>, other: seq<Event>, t: nat, p: Page)
    requires Fits(small, evs) && Fits(large, other) && Pages(evs) == Pages(other) && t <= |evs|
    requires |small.phys0| <= |large.phys0|
    requires InRange(Victims(evs), |small.phys0|) && FollowsLru(|small.phys0|, Pages(evs), Victims(evs))
    requires InRange(Victims(other), |large.phys0|) && FollowsLru(|large.phys0|, Pages(other), Victims(other))
    ensures |other| == |evs| && StateAt(large, other, t).misses <= StateAt(small, evs, t).misses
    ensures Resident(StateAt(small, evs, t).core, p) ==> Resident(StateAt(large, other, t).core, p)
  {
    assert |Pages(evs)| == |Pages(other)|;
    RunIsDemandPaging(small, evs, t);
    RunIsDemandPaging(large, other, t);
    LruMissesMonotone(|small.phys0|, |large.phys0|, Pages(evs), Victims(evs), Victims(other), t);
    LruInclusion(|small.phys0|, |large.phys0|, Pages(evs), Victims(evs), Victims(other), t, p);
  }

  // ----- The run of the LRU list ----------------------------------------------------------------

  lemma EvictsPrefix(m: nat, trace: seq<Page>, vs: seq<nat>, ws: seq<nat>, t: nat)
    requires t < |trace| && t < |vs| && t < |ws| && InRange(vs, m) && InRange(ws, m) && vs[..t] == ws[..t]
    ensures Evicts(m, trace, vs, t) <==> Evicts(m, trace, ws, t)
  {
    CoreAtPrefix(m, trace, vs, ws, t);
  }

  lemma ExtendLru(m: nat, trace: seq<Page>, vs: seq<nat>, v: nat, ws: seq<nat>, t: nat, core: Core, order: List)
    requires t == |vs| < |trace| && v < m && ws == vs + [v] && InRange(vs, m) && FollowsLru(m, trace, vs)
    requires core == CoreAt(m, trace, vs, t) && order == OrderAt(m, trace, vs, t)
    requires Full(core) && Some(trace[t]) !in core ==> order.Cons? && v == Last(order)
    ensures InRange(ws, m) && FollowsLru(m, trace, ws)
    ensures core == CoreAt(m, trace, ws, t) && order == OrderAt(m, trace, ws, t)
  {
    assert InRange(ws, m);
    assert vs[..t] == ws[..t];
    CoreAtPrefix(m, trace, vs, ws, t);
    OrderAtPrefix(m, trace, vs, ws, t);
    forall i | 0 <= i < |ws| && Evicts(m, trace, ws, i)
      ensures OrderAt(m, trace, ws, i).Cons? && ws[i] == Last(OrderAt(m, trace, ws, i))
    {
      if i < t {
        assert vs[..i] == ws[..i] && ws[i] == vs[i];
        EvictsPrefix(m, trace, vs, ws, i);
        OrderAtPrefix(m, trace, vs, ws, i);
      }
    }
  }

  /** In a run that the list has survived so far, the list is sound. */
  lemma ListSoFar(m: nat, trace: seq<Page>, vs: seq<nat>, t: nat, order: List)
    requires m > 0 && t <= |vs| <= |trace| && InRange(vs, m) && FollowsLru(m, trace, vs)
    requires t <= 1 || (m > 1 && NoRepeat(trace, t))
    requires order == OrderAt(m, trace, vs, t)
    ensures CodeListAt(m, trace, vs, t) == Sound(order)
  {
    CodeListSoundIff(m, trace, vs, t);
  }

  lemma ListStep(m: nat, trace: seq<Page>, ws: seq<nat>, t: nat, core: Core, l: CodeList)
    requires m > 0 && t < |ws| <= |trace| && InRange(ws, m)
    requires core == CoreAt(m, trace, ws, t) && l == CodeListAt(m, trace, ws, t)
    ensures Touch(core, trace[t], ws[t]) == CoreAt(m, trace, ws, t + 1)
    ensures CodeListAt(m, trace, ws, t + 1)
         == RefCode(if Full(core) && Some(trace[t]) !in core then EvictCode(l) else l,
                    FrameOf(Touch(core, trace[t], ws[t]), trace[t]))
  {
    Unfold(m, trace, ws, t, core);
  }

  lemma LruVictim(m: nat, trace: seq<Page>, vs: seq<nat>, t: nat, core: Core, order: List)
    requires m > 0 && t <= |vs| <= |trace| && InRange(vs, m) && FollowsLru(m, trace, vs)
    requires core == CoreAt(m, trace, vs, t) && order == OrderAt(m, trace, vs, t)
    ensures Full(core) ==> order.Cons? && Last(order) < m
  {
    var c, o, stack := LruShowsStack(m, trace, vs, t);
    if Full(core) {
      assert core[0].Some?;
      HoldsPage(core, order, stack, Last(order));
    }
  }

  /** What the list is once it has given a victim, if one was asked for. */
  function AfterEviction(core: Core, p: Page, order: List): CodeList {
    if Full(core) && Some(p) !in core then EvictCode(Sound(order)) else Sound(order)
  }

  /** The traces the list of `lru.c` gets through. */
  ghost predicate Harmless(m: nat, trace: seq<Page>, t: nat)
    requires t <= |trace|
  {
    t <= 1 || (m > 1 && NoRepeat(trace, t))
  }

  /** An LRU run so far, its coremap, and its list, which is sound. */
  ghost predicate LruSoFar(m: nat, trace: seq<Page>, vs: seq<nat>, core: Core, order: List) {
    |vs| <= |trace| && InRange(vs, m) && FollowsLru(m, trace, vs) && Harmless(m, trace, |vs|)
    && core == CoreAt(m, trace, vs, |vs|) && order == OrderAt(m, trace, vs, |vs|)
  }

  lemma ListNext(m: nat, trace: seq<Page>, vs: seq<nat>, v: nat, ws: seq<nat>, t: nat, core: Core, order: List)
    requires m > 0 && t == |vs| < |trace| && v < m && ws == vs + [v] && InRange(vs, m) && FollowsLru(m, trace, vs)
    requires Harmless(m, trace, t) && core == CoreAt(m, trace, vs, t) && order == OrderAt(m, trace, vs, t)
    requires Full(core) && Some(trace[t]) !in core ==> order.Cons? && v == Last(order)
    ensures InRange(ws, m) && FollowsLru(m, trace, ws)
    ensures CoreAt(m, trace, ws, t + 1) == Touch(core, trace[t], v)
    ensures CodeListAt(m, trace, ws, t + 1)
         == RefCode(AfterEviction(core, trace[t], order), FrameOf(Touch(core, trace[t], v), trace[t]))
    ensures CodeListAt(m, trace, ws, t + 1)
         == if Harmless(m, trace, t + 1) then Sound(OrderAt(m, trace, ws, t + 1)) else Crashed
  {
    ExtendLru(m, trace, vs, v, ws, t, core, order);
    ListSoFar(m, trace, ws, t, order);
    ListStep(m, trace, ws, t, core, Sound(order));
    CodeListSoundIff(m, trace, ws, t + 1);
  }

  lemma HarmfulStays(m: nat, trace: seq<Page>, t: nat)
    requires t <= |trace| && !Harmless(m, trace, t)
    ensures !Harmless(m, trace, |trace|)
  {
  }

  /** One more reference. */
  lemma LruNext(m: nat, trace: seq<Page>, vs: seq<nat>, v: nat, core: Core, order: List, core': Core, l: CodeList)
    returns (ws: seq<nat>)
    requires m > 0 && |vs| < |trace| && v < m && LruSoFar(m, trace, vs, core, order)
          && core' == Touch(core, trace[|vs|], v)
    requires Full(core) && Some(trace[|vs|]) !in core ==> order.Cons? && v == Last(order)
    requires l == RefCode(AfterEviction(core, trace[|vs|], order), FrameOf(core', trace[|vs|]))
    ensures ws == vs + [v] && InRange(ws, m) && FollowsLru(m, trace, ws) && l == CodeListAt(m, trace, ws, |ws|)
    ensures (l.Crashed? && !Harmless(m, trace, |trace|)) || (l.Sound? && LruSoFar(m, trace, ws, core', l.order))
  {
    ws := vs + [v];
    ListNext(m, trace, vs, v, ws, |vs|, core, order);
    if !Harmless(m, trace, |ws|) { HarmfulStays(m, trace, |ws|); }
  }

  /** One reference with the list: `evict_fcn` for a missing page when no frame is free, and `ref_fcn`. */
  method ReferLru(list: FrameList, core: Core, p: Page, ghost order: List) returns (v: nat, core': Core)
    requires list.Represents(Sound(order)) && |core| > 0
    requires Full(core) && Some(p) !in core ==> order.Cons? && Last(order) < |core|
    modifies list, list.nodes
    ensures v == (if Full(core) && Some(p) !in core then Last(order) else 0) < |core| && core' == Touch(core, p, v)
    ensures list.Represents(RefCode(AfterEviction(core, p, order), FrameOf(core', p)))
    ensures forall i | 0 <= i < |list.nodes| :: list.nodes[i] in old(list.nodes) || fresh(list.nodes[i])
  {
    v := 0;
    if Full(core) && Some(p) !in core {
      v := list.Evict(Sound(order));
    }
    core' := Touch(core, p, v);
    list.Ref(FrameOf(core', p), AfterEviction(core, p, order));
  }

  /** The list of `lru.c` on a whole trace, node by node: it gives the victims of LRU, and it gets through the trace
      without touching freed memory exactly if the trace has at most one reference, or there are two frames or more and
      no page is referenced twice in a row. */
  method ReplayLru(m: nat, trace: seq<Page>) returns (list: FrameList, vs: seq<nat>)
    requires m > 0
    ensures |vs| <= |trace| && InRange(vs, m) && FollowsLru(m, trace, vs)
    ensures list.Represents(CodeListAt(m, trace, vs, |vs|))
    ensures list.crashed <==> !Harmless(m, trace, |trace|)
    ensures !list.crashed ==> |vs| == |trace|
  {
    list := new FrameList();
    vs := [];
    var core := Empty(m);
    ghost var order := Nil;
    while |vs| < |trace|
      invariant LruSoFar(m, trace, vs, core, order)
      invariant fresh(list) && fresh(list.nodes) && list.Represents(Sound(order))
    {
      LruVictim(m, trace, vs, |vs|, core, order);
      var v, core' := ReferLru(list, core, trace[|vs|], order);
      ghost var l := RefCode(AfterEviction(core, trace[|vs|], order), FrameOf(core', trace[|vs|]));
      ghost var ws := LruNext(m, trace, vs, v, core, order, core', l);
      vs, core := vs + [v], core';
      if list.crashed { return; }
      order := l.order;
    }
    ListSoFar(m, trace, vs, |vs|, order);
  }

  // ----- The run of the FIFO hand ---------------------------------------------------------------

  lemma {:induction false} HandAtPrefix(m: nat, trace: seq<Page>, vs: seq<nat>, ws: seq<nat>, t: nat)
    requires t <= |trace| && t <= |vs| && t <= |ws| && InRange(vs, m) && InRange(ws, m) && vs[..t] == ws[..t]
    ensures Fifo.HandAt(m, trace, vs, t) == Fifo.HandAt(m, trace, ws, t)
  {
    if t > 0 {
      assert vs[..t - 1] == vs[..t][..t - 1] == ws[..t - 1];
      HandAtPrefix(m, trace, vs, ws, t - 1);
      EvictsPrefix(m, trace, vs, ws, t - 1);
    }
  }

  lemma ExtendFifo(m: nat, trace: seq<Page>, vs: seq<nat>, v: nat, ws: seq<nat>, t: nat, core: Core, h: nat)
    requires t == |vs| < |trace| && v < m && ws == vs + [v] && InRange(vs, m) && Fifo.FollowsFifo(m, trace, vs)
    requires core == CoreAt(m, trace, vs, t) && h == Fifo.HandAt(m, trace, vs, t)
    requires Full(core) && Some(trace[t]) !in core ==> v == h
    ensures InRange(ws, m) && Fifo.FollowsFifo(m, trace, ws)
    ensures CoreAt(m, trace, ws, t + 1) == Touch(core, trace[t], v)
    ensures Fifo.HandAt(m, trace, ws, t + 1) == if Full(core) && Some(trace[t]) !in core then Fifo.Next(h, m) else h
  {
    assert InRange(ws, m) && vs[..t] == ws[..t];
    CoreAtPrefix(m, trace, vs, ws, t);
    HandAtPrefix(m, trace, vs, ws, t);
    forall i | 0 <= i < |ws| && Evicts(m, trace, ws, i) ensures ws[i] == Fifo.HandAt(m, trace, ws, i) {
      if i < t {
        assert vs[..i] == ws[..i] && ws[i] == vs[i];
        EvictsPrefix(m, trace, vs, ws, i);
        HandAtPrefix(m, trace, vs, ws, i);
      }
    }
  }

  /** A FIFO run so far, with its coremap and its hand. */
  ghost predicate FifoSoFar(m: nat, trace: seq<Page>, vs: seq<nat>, core: Core, h: nat) {
    |vs| <= |trace| && InRange(vs, m) && Fifo.FollowsFifo(m, trace, vs)
    && core == CoreAt(m, trace, vs, |vs|) && h == Fifo.HandAt(m, trace, vs, |vs|) < m
  }

  lemma FifoNext(m: nat, trace: seq<Page>, vs: seq<nat>, v: nat, core: Core, h: nat, core': Core, h': nat)
    requires |vs| < |trace| && v < m && FifoSoFar(m, trace, vs, core, h) && core' == Touch(core, trace[|vs|], v)
    requires Full(core) && Some(trace[|vs|]) !in core ==> v == h
    requires h' == if Full(core) && Some(trace[|vs|]) !in core then Fifo.Next(h, m) else h
    ensures FifoSoFar(m, trace, vs + [v], core', h')
  {
    ExtendFifo(m, trace, vs, v, vs + [v], |vs|, core, h);
  }

  /** The hand of `fifo.c` on a whole trace. */
  method ReplayFifo(m: nat, trace: seq<Page>) returns (hand: Fifo.Hand, vs: seq<nat>)
    requires m > 0
    ensures |vs| == |trace| && InRange(vs, m) && Fifo.FollowsFifo(m, trace, vs)
    ensures hand.index == Fifo.HandAt(m, trace, vs, |vs|) < m
  {
    hand := new Fifo.Hand();
    vs := [];
    var core := Empty(m);
    while |vs| < |trace|
      invariant fresh(hand) && FifoSoFar(m, trace, vs, core, hand.index)
    {
      var v, p := 0, trace[|vs|];
      ghost var h := hand.index;
      if Full(core) && Some(p) !in core {
        v := hand.Evict(m);
      }
      FifoNext(m, trace, vs, v, core, h, Touch(core, p, v), hand.index);
      core, vs := Touch(core, p, v), vs + [v];
    }
  }

  // ----- The run of the OPT table ---------------------------------------------------------------

  ghost predicate AsksTable(m: nat, trace: seq<Page>, vs: seq<nat>, t: nat)
    requires t < |trace| && t < |vs| && InRange(vs, m) && m > 0
  {
    Evicts(m, trace, vs, t) ==> vs[t] == Opt.Choice(CoreAt(m, trace, vs, t), Opt.TableAt(m, trace, vs, t))
  }

  lemma {:induction false} TableAtPrefix(m: nat, trace: seq<Page>, vs: seq<nat>, ws: seq<nat>, t: nat)
    requires t <= |trace| && t <= |vs| && t <= |ws| && InRange(vs, m) && InRange(ws, m) && vs[..t] == ws[..t]
    ensures Opt.TableAt(m, trace, vs, t) == Opt.TableAt(m, trace, ws, t)
  {
    if t > 1 {
      assert vs[..t - 1] == vs[..t][..t - 1] == ws[..t - 1];
      TableAtPrefix(m, trace, vs, ws, t - 1);
      CoreAtPrefix(m, trace, vs, ws, t - 1);
    }
  }

  lemma ExtendOpt(m: nat, trace: seq<Page>, vs: seq<nat>, v: nat, ws: seq<nat>, t: nat, core: Core, table: seq<int>)
    requires t == |vs| < |trace| && v < m && ws == vs + [v] && InRange(vs, m)
    requires core == CoreAt(m, trace, vs, t) && table == Opt.TableAt(m, trace, vs, t)
    requires Full(core) && Some(trace[t]) !in core ==> v == Opt.Choice(core, table)
    requires forall i | 0 <= i < t :: AsksTable(m, trace, vs, i)
    ensures InRange(ws, m) && forall i | 0 <= i < t + 1 :: AsksTable(m, trace, ws, i)
    ensures core == CoreAt(m, trace, ws, t) && table == Opt.TableAt(m, trace, ws, t)
    ensures CoreAt(m, trace, ws, t + 1) == Touch(core, trace[t], v)
  {
    assert InRange(ws, m) && vs[..t] == ws[..t];
    CoreAtPrefix(m, trace, vs, ws, t);
    TableAtPrefix(m, trace, vs, ws, t);
    forall i | 0 <= i < t ensures AsksTable(m, trace, ws, i) {
      assert AsksTable(m, trace, vs, i) && vs[..i] == ws[..i] && ws[i] == vs[i];
      CoreAtPrefix(m, trace, vs, ws, i);
      TableAtPrefix(m, trace, vs, ws, i);
    }
  }

  /** The frames recorded in the trace items so far. */
  ghost predicate Recorded(m: nat, trace: seq<Page>, vs: seq<nat>, frames: seq<nat>) {
    |vs| <= |trace| == |frames| && InRange(vs, m) && forall i | 0 <= i < |vs| :: frames[i] == FrameAt(m, trace, vs, i)
  }

  lemma RecordedNext(m: nat, trace: seq<Page>, vs: seq<nat>, ws: seq<nat>, t: nat, frames: seq<nat>, frames': seq<nat>)
    requires t == |vs| < |trace| && |ws| == t + 1 && InRange(ws, m) && vs == ws[..t] && Recorded(m, trace, vs, frames)
    requires frames' == frames[t := FrameAt(m, trace, ws, t)]
    ensures Recorded(m, trace, ws, frames')
    ensures t > 0 ==> frames[t - 1] == FrameAt(m, trace, ws, t - 1)
  {
    forall i | 0 <= i < t ensures frames[i] == FrameAt(m, trace, ws, i) {
      assert vs[..i + 1] == ws[..i + 1];
      CoreAtPrefix(m, trace, vs, ws, i + 1);
    }
  }

  /** An OPT run so far, with its coremap, its table and the recorded frames. */
  ghost predicate OptSoFar(m: nat, trace: seq<Page>, vs: seq<nat>, core: Core, table: seq<int>, frames: seq<nat>) {
    m > 0 && Recorded(m, trace, vs, frames) && core == CoreAt(m, trace, vs, |vs|)
    && table == Opt.TableAt(m, trace, vs, |vs|) && forall i | 0 <= i < |vs| :: AsksTable(m, trace, vs, i)
  }

  /** One reference of an OPT run. */
  lemma OptNext(m: nat, trace: seq<Page>, vs: seq<nat>, v: nat, core: Core, core': Core, table: seq<int>,
                table': seq<int>, frames: seq<nat>, frames': seq<nat>)
    requires |vs| < |trace| && v < m && OptSoFar(m, trace, vs, core, table, frames)
    requires Full(core) && Some(trace[|vs|]) !in core ==> v == Opt.Choice(core, table)
    requires core' == Touch(core, trace[|vs|], v) && frames' == frames[|vs| := FrameOf(core', trace[|vs|])]
    requires |vs| > 0 ==> frames[|vs| - 1] < |table|
    requires table' == if |vs| > 0 then Opt.Refreshed(table, trace, |vs|, frames[|vs| - 1]) else table
    ensures OptSoFar(m, trace, vs + [v], core', table', frames')
  {
    var ws := vs + [v];
    ExtendOpt(m, trace, vs, v, ws, |vs|, core, table);
    RecordedNext(m, trace, vs, ws, |vs|, frames, frames');
  }

  lemma OptFollows(m: nat, trace: seq<Page>, vs: seq<nat>, core: Core, table: seq<int>, frames: seq<nat>)
    requires OptSoFar(m, trace, vs, core, table, frames)
    ensures Opt.FollowsCode(m, trace, vs)
  {
    assert forall t | 0 < t < |vs| && Evicts(m, trace, vs, t) :: AsksTable(m, trace, vs, t);
  }

  /** One reference with the table: `evict_fcn` for a missing page when no frame is free, and `ref_fcn`. */
  method ReferOpt(opt: Opt.OptTable, core: Core, p: Page) returns (v: nat, core': Core)
    requires opt.Valid() && |core| == opt.memory.Length > 0 && opt.time < |opt.addrs|
    modifies opt`time, opt.index, opt.memory
    ensures opt.Valid() && opt.time == old(opt.time) + 1
    ensures v == (if Full(core) && Some(p) !in core then Opt.Choice(core, old(opt.memory[..])) else 0)
    ensures v < |core| && core' == Touch(core, p, v)
    ensures opt.index[..] == old(opt.index[..])[old(opt.time) := FrameOf(core', p)]
    ensures opt.memory[..] == if old(opt.time) > 0
                              then Opt.Refreshed(old(opt.memory[..]), opt.addrs, old(opt.time),
                                                 old(opt.index[opt.time - 1]))
                              else old(opt.memory[..])
  {
    v := 0;
    if Full(core) && Some(p) !in core {
      v := opt.Evict(core);
    }
    core' := Touch(core, p, v);
    opt.Ref(core', FrameOf(core', p));
  }

  /** `opt_evict` and `opt_ref` on a whole trace: the victims, the table and the frames recorded along the trace are
      those of the lagging run. The addresses that `opt_init` has stored go on after the `n` references that are made:
      it leaves one that it has not read. */
  method ReplayOpt(m: nat, addrs: seq<Page>, n: nat) returns (opt: Opt.OptTable, vs: seq<nat>)
    requires m > 0 && n <= |addrs|
    ensures |vs| == n && InRange(vs, m) && Opt.FollowsCode(m, addrs, vs)
    ensures opt.memory[..] == Opt.TableAt(m, addrs, vs, n)
    ensures Recorded(m, addrs, vs, opt.index[..])
  {
    opt := new Opt.OptTable(m, addrs);
    vs := [];
    var core := Empty(m);
    assert opt.memory[..] == Opt.TableAt(m, addrs, vs, 0);
    while |vs| < n
      invariant opt.Valid() && opt.addrs == addrs && opt.time == |vs| <= n && opt.memory.Length == m
      invariant fresh(opt) && fresh(opt.index) && fresh(opt.memory)
      invariant OptSoFar(m, addrs, vs, core, opt.memory[..], opt.index[..])
    {
      ghost var table, frames := opt.memory[..], opt.index[..];
      var v, core' := ReferOpt(opt, core, addrs[|vs|]);
      OptNext(m, addrs, vs, v, core, core', table, opt.memory[..], frames, opt.index[..]);
      core, vs := core', vs + [v];
    }
    OptFollows(m, addrs, vs, core, opt.memory[..], opt.index[..]);
  }
}
