/** CLOCK over a whole trace. */
module ClockRuns {
  import opened Options
  import opened Demand
  import opened Paging
  import opened Runs
  import opened Clock

  function AllClear(m: nat): seq<bool> {
    seq(m, _ => false)
  }

  /** Coremap, bits and hand before reference `t`. */
  ghost function TurnAt(m: nat, trace: seq<Page>, t: nat): (turn: Turn)
    requires m > 0 && t <= |trace|
    ensures TurnOk(turn) && |turn.core| == m
  {
    if t == 0 then Turn(Empty(m), AllClear(m), 0) else NextTurn(TurnAt(m, trace, t - 1), trace[t - 1])
  }

  ghost function VictimAt(m: nat, trace: seq<Page>, t: nat): nat
    requires m > 0 && t < |trace|
  {
    VictimOf(TurnAt(m, trace, t), trace[t])
  }

  /** The page referenced just before is given up only when every bit is set. */
  lemma LastPageSpared(m: nat, trace: seq<Page>, t: nat, f: nat)
    requires m > 0 && 0 < t < |trace| && Needs(TurnAt(m, trace, t).core, trace[t])
    requires f < m && !TurnAt(m, trace, t).refs[f]
    ensures TurnAt(m, trace, t).core[VictimAt(m, trace, t)] != Some(trace[t - 1])
    ensures !TurnAt(m, trace, t).refs[VictimAt(m, trace, t)]
  {
    var turn := TurnAt(m, trace, t);
    var d := Skipped(turn.refs, turn.hand, 0);
    assert Distance(turn.hand, f, m) < m;
    OnIsModular(turn.hand, d, m);
    TurnDistinct(m, trace, t);
    var g := FrameOf(turn.core, trace[t - 1]);
    assert turn.refs[g];
  }

  lemma {:induction false} TurnDistinct(m: nat, trace: seq<Page>, t: nat)
    requires m > 0 && t <= |trace|
    ensures Distinct(TurnAt(m, trace, t).core)
  {
    if t > 0 {
      TurnDistinct(m, trace, t - 1);
      var _ := TouchOneFrame(TurnAt(m, trace, t - 1).core, trace[t - 1], VictimAt(m, trace, t - 1));
    }
  }

  /** Every reference of a run by the bits before it: where the hand goes, which frame is given up, and what each bit is
      afterwards. Frame `f` is `k` frames on from the hand, and `d` frames from there on have their bit set. */
  lemma RunBits(m: nat, trace: seq<Page>, t: nat, turn: Turn, turn': Turn, d: nat, k: nat, f: nat, evicts: bool)
    requires m > 0 && t < |trace| && turn == TurnAt(m, trace, t) && turn' == TurnAt(m, trace, t + 1)
    requires FirstClear(turn.refs, turn.hand, d) && k < m && f == (turn.hand + k) % m
    requires evicts <==> Full(turn.core) && Some(trace[t]) !in turn.core
    ensures turn'.hand == if evicts then (turn.hand + 2 * d + 1) % m else turn.hand
    ensures turn'.core == Touch(turn.core, trace[t], if evicts then (turn.hand + d) % m else 0)
    ensures f < m && (turn'.refs[f] <==>
              f == turn'.hand || turn'.core[f] == Some(trace[t]) || (turn.refs[f] && (evicts ==> k >= d)))
  {
    TurnDistinct(m, trace, t);
    HandAndCoreAfter(turn, trace[t], d);
    BitsAfter(turn, trace[t], d, k, f);
  }

  // ----- The program ----------------------------------------------------------------------------

  function PagesOf(accesses: seq<(char, nat)>): seq<Page> {
    seq(|accesses|, i requires 0 <= i < |accesses| => PageOf(accesses[i].1))
  }

  /** The accesses with the victims CLOCK names. */
  ghost function Events(m: nat, accesses: seq<(char, nat)>): (evs: seq<Event>)
    requires m > 0
    ensures |evs| == |accesses|
    ensures forall i | 0 <= i < |evs| ::
              evs[i] == Event(accesses[i].0, accesses[i].1, VictimAt(m, PagesOf(accesses), i)) && evs[i].victim < m
  {
    seq(|accesses|, i requires 0 <= i < |accesses| =>
          Event(accesses[i].0, accesses[i].1, VictimAt(m, PagesOf(accesses), i)))
  }

  lemma BeginsClear(hand: ClockHand, mc: Machine)
    requires hand.Valid() && hand.sim.Abs() == Start(mc) && hand.index == 0
    ensures hand.At() == Turn(Empty(|mc.phys0|), AllClear(|mc.phys0|), 0) && hand.Started()
  {
    FirstFreeIs(Empty(|mc.phys0|), 0);
    assert hand.Refs() == AllClear(|mc.phys0|);
  }

  /** The state, and what CLOCK goes by, before access `t` of the run with the victims that CLOCK names. */
  ghost predicate SoFar(mc: Machine, accesses: seq<(char, nat)>, t: nat, s: State, turn: Turn) {
    t <= |accesses| && |mc.phys0| > 0 && Fits(mc, Events(|mc.phys0|, accesses))
    && turn == TurnAt(|mc.phys0|, PagesOf(accesses), t) && s == StateAt(mc, Events(|mc.phys0|, accesses), t)
  }

  lemma OneFurther(mc: Machine, accesses: seq<(char, nat)>, t: nat, s: State, turn: Turn, ev: Event)
    requires SoFar(mc, accesses, t, s, turn) && t < |accesses| && !mc.doc
    requires ev == Event(accesses[t].0, accesses[t].1, VictimOf(turn, PageOf(accesses[t].1)))
    ensures ev.victim < |s.core|
         && SoFar(mc, accesses, t + 1, Access(s, ev, false).0, NextTurn(turn, PageOf(accesses[t].1)))
  {
    NextState(mc, Events(|mc.phys0|, accesses), t, s);
  }

  /** The simulator and the hand stand where the run has got. */
  ghost predicate Stands(hand: ClockHand, s: State, turn: Turn)
    reads hand, hand.sim, hand.sim.coremap, hand.sim.physmem, hand.sim.swap, hand.sim.swap.slots, hand.sim.swap.slots.v
  {
    hand.Valid() && hand.Started() && hand.At() == turn && hand.sim.Abs() == s
  }

  lemma Begins(hand: ClockHand, mc: Machine, accesses: seq<(char, nat)>, t: nat, s: State, turn: Turn)
    requires hand.Valid() && s == hand.sim.Abs() == Start(mc) && turn == hand.At() && hand.index == 0 && t == 0
    ensures SoFar(mc, accesses, t, s, turn) && Stands(hand, s, turn)
  {
    BeginsClear(hand, mc);
  }

  method OneAccess(hand: ClockHand, kind: char, vaddr: nat, ghost s: State, ghost turn: Turn)
      returns (ghost victim: nat)
    requires Stands(hand, s, turn)
    modifies hand, hand.sim, hand.sim.coremap, hand.sim.physmem, hand.sim.swap, hand.sim.swap.slots.v
    ensures TurnOk(turn) && victim == VictimOf(turn, PageOf(vaddr)) && victim < |s.core| == |s.phys| && Frames(s)
    ensures Stands(hand, Access(s, Event(kind, vaddr, victim), false).0, NextTurn(turn, PageOf(vaddr)))
  {
    var matches;
    matches, victim := hand.AccessMem(kind, vaddr, s);
  }

  /** `replay_trace` with CLOCK: coremap, REF bits and hand are those of the model, and the simulator is in the state of
      the run with its victims, to which all theorems about runs apply. */
  method ReplayClock(hand: ClockHand, accesses: seq<(char, nat)>, ghost mc: Machine)
    requires hand.Valid() && hand.sim.Abs() == Start(mc) && hand.index == 0
    requires !mc.doc
    modifies hand, hand.sim, hand.sim.coremap, hand.sim.physmem, hand.sim.swap, hand.sim.swap.slots.v
    ensures hand.Valid() && SoFar(mc, accesses, |accesses|, hand.sim.Abs(), hand.At())
  {
    var t := 0;
    ghost var s, turn := hand.sim.Abs(), hand.At();
    Begins(hand, mc, accesses, t, s, turn);
    while t < |accesses|
      invariant SoFar(mc, accesses, t, s, turn) && Stands(hand, s, turn)
    {
      ghost var victim := OneAccess(hand, accesses[t].0, accesses[t].1, s, turn);
      ghost var ev := Event(accesses[t].0, accesses[t].1, victim);
      OneFurther(mc, accesses, t, s, turn, ev);
      s, turn := Access(s, ev, false).0, NextTurn(turn, PageOf(accesses[t].1));
      t := t + 1;
    }
  }
}
