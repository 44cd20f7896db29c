/** The FIFO policy: a hand that cycles over the frames refines a queue of load times. */
module Fifo {
  import opened Options
  import opened Demand

  /** `coremap->index` of FIFO. */
  class Hand {
    var index: nat

    constructor ()
      ensures index == 0
    {
      index := 0;
    }

    method Evict(memsize: nat) returns (evict: nat)
      requires index < memsize
      modifies this
      ensures evict == old(index) && index == Next(old(index), memsize) < memsize
    {
      evict := index;
      index := index + 1;
      if index >= memsize {
        index := 0;
      }
    }
  }

  /** The hand after one step. */
  function Next(h: nat, m: nat): nat {
    if h + 1 >= m then 0 else h + 1
  }

  /** The hand before reference `t`. */
  ghost function HandAt(m: nat, trace: seq<Page>, vs: seq<nat>, t: nat): nat
    requires t <= |trace| && t <= |vs| && InRange(vs, m)
  {
    if t == 0 then 0
    else if Evicts(m, trace, vs, t - 1) then Next(HandAt(m, trace, vs, t - 1), m) else HandAt(m, trace, vs, t - 1)
  }

  /** Every eviction takes the frame under the hand. */
  ghost predicate FollowsFifo(m: nat, trace: seq<Page>, vs: seq<nat>)
    requires |vs| <= |trace| && InRange(vs, m)
  {
    forall t | 0 <= t < |vs| :: Evicts(m, trace, vs, t) ==> vs[t] == HandAt(m, trace, vs, t)
  }

  function NeverLoaded(m: nat): seq<int> {
    seq(m, _ => -1)
  }

  /** When each frame was last loaded, or -1. */
  ghost function LoadedAt(m: nat, trace: seq<Page>, vs: seq<nat>, t: nat): (times: seq<int>)
    requires t <= |trace| && t <= |vs| && InRange(vs, m)
    ensures |times| == m
  {
    if t == 0 then NeverLoaded(m)
    else
      var core, times := CoreAt(m, trace, vs, t - 1), LoadedAt(m, trace, vs, t - 1);
      if Some(trace[t - 1]) in core then times else times[Slot(core, vs[t - 1]) := t - 1]
  }

  /** Reading the frames cyclically from `h`, frame `i` comes before frame `j`. */
  predicate CyclicBefore(h: nat, i: nat, j: nat) {
    if (h <= i) == (h <= j) then i < j else h <= i
  }

  /** The frames in use, read cyclically from the hand, have strictly increasing load times, all before `t`. */
  ghost predicate Queued(core: Core, times: seq<int>, h: nat, t: nat) {
    var n := FirstFree(core);
    |times| == |core| && (h < |core| || h == 0) && (n < |core| ==> h == 0)
    && (forall f | n <= f < |core| :: core[f].None?)
    && (forall f | 0 <= f < n :: 0 <= times[f] < t)
    && forall i: nat, j: nat | i < n && j < n && CyclicBefore(h, i, j) :: times[i] < times[j]
  }

  lemma QueuedStep(core: Core, times: seq<int>, h: nat, t: nat, p: Page, v: nat)
    requires Queued(core, times, h, t) && v < |core| && Some(p) !in core
    requires Full(core) ==> v == h
    ensures Queued(core[Slot(core, v) := Some(p)], times[Slot(core, v) := t],
                   if Full(core) then Next(h, |core|) else h, t + 1)
  {
    var g, n := Slot(core, v), FirstFree(core);
    FirstFreeIs(core[g := Some(p)], if n < |core| then n + 1 else n);
    var h' := if Full(core) then Next(h, |core|) else h;
    forall i: nat, j: nat | i < |core| && j < |core| && CyclicBefore(h', i, j) && i != g && j != g && i < n && j < n
      ensures times[i] < times[j]
    {
      assert CyclicBefore(h, i, j);
    }
  }

  lemma QueueNext(m: nat, trace: seq<Page>, vs: seq<nat>, t: nat, core: Core, times: seq<int>, h: nat)
    returns (core': Core, times': seq<int>, h': nat)
    requires t < |vs| <= |trace| && InRange(vs, m) && FollowsFifo(m, trace, vs)
    requires core == CoreAt(m, trace, vs, t) && times == LoadedAt(m, trace, vs, t) && h == HandAt(m, trace, vs, t)
    requires Queued(core, times, h, t)
    ensures core' == CoreAt(m, trace, vs, t + 1) && times' == LoadedAt(m, trace, vs, t + 1)
         && h' == HandAt(m, trace, vs, t + 1)
    ensures Queued(core', times', h', t + 1)
  {
    var p, v := trace[t], vs[t];
    Unfold(m, trace, vs, t, core);
    core', times', h' := core, times, h;
    if Some(p) in core {
      assert !Evicts(m, trace, vs, t);
    } else {
      assert Evicts(m, trace, vs, t) <==> Full(core);
      QueuedStep(core, times, h, t, p, v);
      core', times' := core[Slot(core, v) := Some(p)], times[Slot(core, v) := t];
      h' := if Full(core) then Next(h, m) else h;
    }
  }

  /** After every access of a FIFO run the load times increase cyclically from the hand. */
  lemma {:induction false} FifoKeepsQueue(m: nat, trace: seq<Page>, vs: seq<nat>, t: nat)
    returns (core: Core, times: seq<int>, h: nat)
    requires t <= |vs| <= |trace| && InRange(vs, m) && FollowsFifo(m, trace, vs)
    ensures core == CoreAt(m, trace, vs, t) && times == LoadedAt(m, trace, vs, t) && h == HandAt(m, trace, vs, t)
    ensures Queued(core, times, h, t)
  {
    if t == 0 {
      core, times, h := Empty(m), NeverLoaded(m), 0;
      FirstFreeIs(core, 0);
    } else {
      var n := t - 1;
      var core0, times0, h0 := FifoKeepsQueue(m, trace, vs, n);
      core, times, h := QueueNext(m, trace, vs, n, core0, times0, h0);
    }
  }

  /** The frame FIFO evicts was loaded before every other. */
  lemma FifoVictimIsOldest(m: nat, trace: seq<Page>, vs: seq<nat>, t: nat, f: nat)
    requires t < |vs| <= |trace| && InRange(vs, m) && FollowsFifo(m, trace, vs) && Evicts(m, trace, vs, t)
    requires f < m && f != vs[t]
    ensures LoadedAt(m, trace, vs, t)[vs[t]] < LoadedAt(m, trace, vs, t)[f]
  {
    var core, times, h := FifoKeepsQueue(m, trace, vs, t);
    assert CyclicBefore(h, h, f);
  }
}
