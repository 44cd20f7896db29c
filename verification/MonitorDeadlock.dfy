/** When the interceptor's two locks can be had again: the deadlock of its commands, exactly. */
module MonitorDeadlock {
  import opened Options
  import opened Monitor

  /** Has the table and is bound to ask for the lists again. */
  predicate WantsPids(pc: Pc) {
    pc.StartFlag? || pc.StartRelockPids? || pc.StopFlag? || pc.StopRelockPids?
  }

  /** Has the lists and asks for the table. */
  predicate WantsCalls(pc: Pc) {
    pc.StartLockCalls? || pc.StopLockCalls?
  }

  /** One thread has the table and will want the lists, another has the lists and wants the table. */
  predicate Doomed(st: State) {
    st.calls.Some? && st.calls.value < |st.threads| && WantsPids(st.threads[st.calls.value].pc)
    && st.pids.Some? && st.pids.value < |st.threads| && WantsCalls(st.threads[st.pids.value].pc)
  }

  // ----- Such a pair stays ----------------------------------------------------------------------

  lemma DoomedPc(th: Thread, e: Entry, c: Choice, last: nat)
    requires WantsPids(th.pc) && Locking(th).Works?
    ensures WantsPids(Work(th, e, c, last).0.pc)
  {
  }

  /** No step of any thread, with any number of threads, brings them apart. */
  lemma DoomedStays(st: State, e: Event)
    requires Inv(st) && Doomed(st) && e.thread < |st.threads|
    ensures Doomed(Step(st, e)) && Step(st, e).calls == st.calls && Step(st, e).pids == st.pids
  {
    var th := st.threads[e.thread];
    assert Holds(Calls, th.pc) <==> Owner(st, Calls) == Some(e.thread);
    assert Holds(Pids, th.pc) <==> Owner(st, Pids) == Some(e.thread);
    LockingIs(th, Calls);
    LockingIs(th, Pids);
    if WantsPids(th.pc) && Locking(th).Works? { DoomedPc(th, st.table[th.sysc], e.choice, |st.table| - 1); }
  }

  // ----- Without one, the locks come free -------------------------------------------------------

  /** How many steps a thread has left, if it never waits. */
  function StepsLeft(th: Thread, last: nat): nat {
    match th.pc
    case Idle => 0
    case InterceptCheck => 4 case InterceptLock => 3 case InterceptSet => 2 case InterceptUnlock => 1
    case ReleaseCheck => 4 case ReleaseLock => 3 case ReleaseSet => 2 case ReleaseUnlock => 1
    case StartLockPids => 11 case StartLockCalls => 10 case StartCheck => 9 case StartDropPids => 8 case StartFlag => 7
    case StartRelockPids => 6 case StartAdd => 5 case StartUnlockPids => 4 case StartUnlockCalls => 3
    case AllLock => 3 case AllFlag => 2 case AllUnlock => 1
    case StopLook => 14 case StopSeen => 13 case StopUnlook => 12
    case StopLockPids => 11 case StopLockCalls => 10 case StopCheck => 9 case StopDropPids => 8 case StopFlag => 7
    case StopRelockPids => 6 case StopDelete => 5
    case BackUnlockCalls => 2 case BackUnlockPids => 1
    case ClearLock => 3 case ClearList => 2 case ClearUnlock => 1
    case ExitLock => 3 + last
    case ExitSweep => 2 + if th.sysc <= last then last - th.sysc else 0
    case ExitUnlock => 1
  }

  lemma WorkShortens(th: Thread, e: Entry, c: Choice, last: nat)
    requires Locking(th).Works? && !th.pc.Idle? && th.sysc <= last
    ensures StepsLeft(Work(th, e, c, last).0, last) < StepsLeft(th, last)
  {
  }

  lemma LockingShortens(th: Thread, last: nat)
    requires !Locking(th).Works? && (th.pc.ExitLock? ==> th.sysc == 1 <= last)
    ensures StepsLeft(th.(pc := Locking(th).next), last) < StepsLeft(th, last)
  {
  }

  function LeftOf(st: State, owner: Option<nat>): nat {
    if owner.Some? && owner.value < |st.threads| && |st.table| > 0
    then StepsLeft(st.threads[owner.value], |st.table| - 1) else 0
  }

  /** The steps left to the threads that have a lock. */
  function Potential(st: State): nat {
    LeftOf(st, st.pids) + if st.calls != st.pids then LeftOf(st, st.calls) else 0
  }

  /** The thread to run next: one that has a lock and does not wait for the other. */
  function Runner(st: State): nat
    requires st.pids.Some? || st.calls.Some?
  {
    if st.calls.None? then st.pids.value
    else if st.pids.None? then st.calls.value
    else if st.pids.value < |st.threads| && WantsCalls(st.threads[st.pids.value].pc) then st.calls.value
    else st.pids.value
  }

  lemma RunnerIs(st: State)
    requires Inv(st) && !Doomed(st) && (st.pids.Some? || st.calls.Some?)
    ensures Runner(st) < |st.threads|
    ensures var th := st.threads[Runner(st)];
            !th.pc.Idle? && (Locking(th).Takes? ==> Owner(st, Locking(th).lock).None?)
            && (Holds(Pids, th.pc) || Holds(Calls, th.pc))
    ensures var th := st.threads[Runner(st)];
            Holds(Pids, th.pc) && Holds(Calls, th.pc) ==> st.pids == st.calls == Some(Runner(st))
    ensures var th := st.threads[Runner(st)];
            st.pids.Some? && st.calls.Some? && st.pids != st.calls ==>
              Locking(th).Drops? || (Locking(th).Works? && !WantsPids(th.pc) && !WantsCalls(th.pc))
  {
    var k := Runner(st);
    assert forall l | Owner(st, l).Some? :: Owner(st, l).value < |st.threads|;
    assert st.pids.Some? ==> Owner(st, Pids).Some?;
    assert st.calls.Some? ==> Owner(st, Calls).Some?;
    assert Holds(Pids, st.threads[k].pc) <==> Owner(st, Pids) == Some(k);
    assert Holds(Calls, st.threads[k].pc) <==> Owner(st, Calls) == Some(k);
  }

  lemma WorkWants(th: Thread, e: Entry, c: Choice, last: nat)
    requires Locking(th).Works? && !th.pc.Idle?
    ensures !WantsCalls(Work(th, e, c, last).0.pc)
    ensures WantsPids(Work(th, e, c, last).0.pc) ==> WantsPids(th.pc)
  {
  }

  /** A runner that takes a lock has both then. */
  lemma RunnerTakes(st: State, e: Event, th: Thread)
    requires Inv(st) && !Doomed(st) && (st.pids.Some? || st.calls.Some?) && e.thread == Runner(st) < |st.threads|
    requires th == st.threads[e.thread] && Locking(th).Takes?
    ensures !Doomed(Step(st, e)) && Potential(Step(st, e)) < Potential(st)
  {
    RunnerIs(st);
    LockingShortens(th, |st.table| - 1);
    LockingIs(th, Pids);
    LockingIs(th, Calls);
    assert Holds(Pids, th.pc) ==> Owner(st, Pids) == Some(e.thread);
    assert Holds(Calls, th.pc) ==> Owner(st, Calls) == Some(e.thread);
  }

  lemma RunnerDrops(st: State, e: Event, th: Thread)
    requires Inv(st) && !Doomed(st) && (st.pids.Some? || st.calls.Some?) && e.thread == Runner(st) < |st.threads|
    requires th == st.threads[e.thread] && Locking(th).Drops?
    ensures !Doomed(Step(st, e)) && Potential(Step(st, e)) < Potential(st)
  {
    RunnerIs(st);
    LockingShortens(th, |st.table| - 1);
    LockingIs(th, Locking(th).lock);
    assert Holds(Pids, th.pc) ==> Owner(st, Pids) == Some(e.thread);
    assert Holds(Calls, th.pc) ==> Owner(st, Calls) == Some(e.thread);
  }

  lemma ThreadMoved(st: State, st': State, k: nat, th': Thread)
    requires k < |st.threads| && st'.threads == st.threads[k := th'] && |st'.table| == |st.table| > 0
    requires st'.pids == st.pids && st'.calls == st.calls && (st.pids == Some(k) || st.calls == Some(k))
    requires StepsLeft(th', |st.table| - 1) < StepsLeft(st.threads[k], |st.table| - 1)
    ensures Potential(st') < Potential(st)
  {
  }

  lemma MovedNotDoomed(st: State, st': State, k: nat, th': Thread)
    requires k < |st.threads| && st'.threads == st.threads[k := th'] && !Doomed(st)
    requires st'.pids == st.pids && st'.calls == st.calls
    requires !WantsCalls(th'.pc) && (WantsPids(th'.pc) ==> WantsPids(st.threads[k].pc))
    ensures !Doomed(st')
  {
  }

  lemma StepIs(st: State, e: Event, th: Thread, row: Entry, th': Thread) returns (st': State)
    requires Ranged(st) && e.thread < |st.threads| && th == st.threads[e.thread] && row == st.table[th.sysc]
    requires Locking(th).Works? && th' == Work(th, row, e.choice, |st.table| - 1).0
    ensures st' == Step(st, e) && st'.pids == st.pids && st'.calls == st.calls && |st'.table| == |st.table|
    ensures st'.threads == st.threads[e.thread := th']
  {
    st' := Step(st, e);
  }

  /** A step that is no lock operation, by its effect on the thread alone. */
  lemma WorkStep(st: State, e: Event, th: Thread, row: Entry) returns (st': State, th': Thread)
    requires Ranged(st) && e.thread < |st.threads| && th == st.threads[e.thread] && row == st.table[th.sysc]
    requires Locking(th).Works? && !th.pc.Idle?
    ensures st' == Step(st, e) && st'.pids == st.pids && st'.calls == st.calls && |st'.table| == |st.table|
    ensures st'.threads == st.threads[e.thread := th'] && StepsLeft(th', |st.table| - 1) < StepsLeft(th, |st.table| - 1)
    ensures !WantsCalls(th'.pc) && (WantsPids(th'.pc) ==> WantsPids(th.pc))
  {
    th' := Work(th, row, e.choice, |st.table| - 1).0;
    st' := StepIs(st, e, th, row, th');
    WorkShortens(th, row, e.choice, |st.table| - 1);
    WorkWants(th, row, e.choice, |st.table| - 1);
  }

  lemma RunnerWorks(st: State, st': State, k: nat, th: Thread, th': Thread)
    requires Inv(st) && !Doomed(st) && (st.pids.Some? || st.calls.Some?) && k == Runner(st) < |st.threads|
    requires th == st.threads[k] && st'.pids == st.pids && st'.calls == st.calls && |st'.table| == |st.table|
    requires st'.threads == st.threads[k := th'] && StepsLeft(th', |st.table| - 1) < StepsLeft(th, |st.table| - 1)
    requires !WantsCalls(th'.pc) && (WantsPids(th'.pc) ==> WantsPids(th.pc))
    ensures !Doomed(st') && Potential(st') < Potential(st)
  {
    RunnerIs(st);
    assert Holds(Pids, th.pc) ==> Owner(st, Pids) == Some(k);
    assert Holds(Calls, th.pc) ==> Owner(st, Calls) == Some(k);
    ThreadMoved(st, st', k, th');
    MovedNotDoomed(st, st', k, th');
  }

  // ----- Exactly --------------------------------------------------------------------------------

  /** Some `n` further steps, of whatever threads, can set both locks free. */
  ghost predicate CanFree(st: State, n: nat)
    requires Ranged(st)
    decreases n
  {
    (st.pids.None? && st.calls.None?)
    || (n > 0 && exists e: Event :: e.thread < |st.threads| && CanFree(Step(st, e), n - 1))
  }

  lemma {:induction false} DoomedNeverFrees(st: State, n: nat)
    requires Inv(st) && Doomed(st)
    ensures !CanFree(st, n)
    decreases n
  {
    if n > 0 {
      forall e: Event | e.thread < |st.threads| ensures !CanFree(Step(st, e), n - 1) {
        DoomedStays(st, e);
        StepKeeps(st, e);
        DoomedNeverFrees(Step(st, e), n - 1);
      }
    }
  }

  lemma {:induction false} OthersFree(st: State, n: nat)
    requires Inv(st) && !Doomed(st) && Potential(st) <= n
    ensures CanFree(st, n)
    decreases n
  {
    if st.pids.Some? || st.calls.Some? {
      RunnerIs(st);
      var e := Event(Runner(st), Choice(Exit(0), true));
      var th := st.threads[e.thread];
      if Locking(th).Takes? { RunnerTakes(st, e, th); }
      if Locking(th).Drops? { RunnerDrops(st, e, th); }
      if Locking(th).Works? {
        var st', th' := WorkStep(st, e, th, st.table[th.sysc]);
        RunnerWorks(st, st', e.thread, th, th');
      }
      StepKeeps(st, e);
      OthersFree(Step(st, e), n - 1);
    }
  }

  /** In any state that any commands of any number of threads lead to: the locks can still come free if and only if no
      thread has the table and will want the lists while another has the lists and wants the table. */
  lemma DeadlockIff(calls: nat, threads: nat, events: seq<Event>, t: nat, st: State)
    requires calls >= 1 && t <= |events| && EventsOf(events, threads) && st == StateAt(calls, threads, events, t)
    ensures (exists n: nat :: CanFree(st, n)) <==> !Doomed(st)
  {
    RunKeeps(calls, threads, events, t);
    if Doomed(st) {
      forall n: nat | n >= 0 ensures !CanFree(st, n) {
        DoomedNeverFrees(st, n);
      }
    } else {
      var n: nat := Potential(st);
      OthersFree(st, n);
      assert CanFree(st, n);
    }
  }

  // ----- What keeps it away, and what shows it --------------------------------------------------

  /** Within the start or stop of a single process. */
  predicate InSingle(pc: Pc) {
    pc.StartLockPids? || pc.StartLockCalls? || pc.StartCheck? || pc.StartDropPids? || pc.StartFlag?
    || pc.StartRelockPids?
    || pc.StartAdd? || pc.StartUnlockPids? || pc.StartUnlockCalls? || pc.StopLook? || pc.StopSeen? || pc.StopUnlook?
    || pc.StopLockPids? || pc.StopLockCalls? || pc.StopCheck? || pc.StopDropPids? || pc.StopFlag? || pc.StopRelockPids?
    || pc.StopDelete? || pc.BackUnlockCalls? || pc.BackUnlockPids?
  }

  /** Callers who issue one start or stop at a time, whatever else goes on, never meet it. */
  lemma OneAtATime(calls: nat, threads: nat, events: seq<Event>, t: nat, st: State)
    requires calls >= 1 && t <= |events| && EventsOf(events, threads) && st == StateAt(calls, threads, events, t)
    requires forall i, j | 0 <= i < threads && 0 <= j < threads ::
               InSingle(st.threads[i].pc) && InSingle(st.threads[j].pc) ==> i == j
    ensures exists n: nat :: CanFree(st, n)
  {
    DeadlockIff(calls, threads, events, t, st);
    if Doomed(st) {
      assert InSingle(st.threads[st.calls.value].pc) && InSingle(st.threads[st.pids.value].pc);
    }
  }

  predicate Blocked(st: State, i: nat)
    requires i < |st.threads|
  {
    Locking(st.threads[i]).Takes? && Owner(st, Locking(st.threads[i]).lock).Some?
  }

  /** When every thread that is not idle waits for a lock, it is because of such a pair. */
  lemma AllWaitingIsDoomed(st: State, k: nat)
    requires Inv(st) && k < |st.threads| && Blocked(st, k)
    requires forall i | 0 <= i < |st.threads| :: st.threads[i].pc.Idle? || Blocked(st, i)
    ensures Doomed(st)
  {
    if !Doomed(st) { RunnerIs(st); }
  }
}
