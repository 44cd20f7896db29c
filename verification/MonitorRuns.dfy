/** Whole commands of the interceptor by a thread that nobody disturbs, and runs that show where they go wrong. */
module MonitorRuns {
  import opened Options
  import opened Lists
  import opened Monitor
  import opened MonitorDeadlock

  // ----- A thread alone -------------------------------------------------------------------------

  /** One step of a thread that finds every lock free that it does not have. */
  function Solo(th: Thread, e: Entry, c: Choice, last: nat): (Thread, Entry) {
    match Locking(th)
    case Takes(_, next) => (th.(pc := next), e)
    case Drops(_, next) => (th.(pc := next), e)
    case Works => Work(th, e, c, last)
  }

  /** A command but for the sweep of an exit, which goes from row to row. */
  predicate OneRow(pc: Pc) {
    !Exiting(pc)
  }

  lemma SoloStays(th: Thread, e: Entry, c: Choice, last: nat)
    requires OneRow(th.pc) && !th.pc.Idle? && th.sysc <= last
    ensures var th' := Solo(th, e, c, last).0;
            OneRow(th'.pc) && th'.sysc == th.sysc && th'.pid == th.pid && StepsLeft(th', last) < StepsLeft(th, last)
  {
    if Locking(th).Works? { WorkShortens(th, e, c, last); } else { LockingShortens(th, last); }
  }

  /** The thread and its row when it has got to `goal`, or is done. */
  function Until(th: Thread, e: Entry, c: Choice, last: nat, goal: Pc): (Thread, Entry)
    requires OneRow(th.pc) && th.sysc <= last
    decreases StepsLeft(th, last)
  {
    if th.pc.Idle? || th.pc == goal then (th, e)
    else
      SoloStays(th, e, c, last);
      var (th', e') := Solo(th, e, c, last);
      Until(th', e', c, last, goal)
  }

  /** No other thread has a lock. */
  predicate Alone(st: State, i: nat) {
    Ranged(st) && i < |st.threads|
    && st.pids == (if Holds(Pids, st.threads[i].pc) then Some(i) else None)
    && st.calls == (if Holds(Calls, st.threads[i].pc) then Some(i) else None)
  }

  function Placed(st: State, i: nat, s: nat, th: Thread, row: Entry): State
    requires i < |st.threads| && s < |st.table|
  {
    State(st.table[s := row], if Holds(Pids, th.pc) then Some(i) else None,
          if Holds(Calls, th.pc) then Some(i) else None, st.threads[i := th])
  }

  lemma SoloStep(st: State, i: nat, c: Choice, th: Thread, row: Entry)
    requires Alone(st, i) && th == st.threads[i] && row == st.table[th.sysc]
    ensures var (th', row') := Solo(th, row, c, |st.table| - 1);
            Step(st, Event(i, c)) == Placed(st, i, th.sysc, th', row')
  {
    LockingIs(th, Pids);
    LockingIs(th, Calls);
    if Locking(th).Works? {
      WorkHolds(th, row, c, |st.table| - 1, Pids);
      WorkHolds(th, row, c, |st.table| - 1, Calls);
    } else {
      assert st.table[th.sysc := row] == st.table;
    }
  }

  // ----- States that a run leads to -------------------------------------------------------------

  ghost predicate ByRun(calls: nat, threads: nat, es: seq<Event>, st: State) {
    calls >= 1 && EventsOf(es, threads) && st == StateAt(calls, threads, es, |es|)
  }

  ghost predicate Reachable(calls: nat, threads: nat, st: State) {
    exists es: seq<Event> :: ByRun(calls, threads, es, st)
  }

  lemma {:induction false} StateAtPrefix(calls: nat, threads: nat, es: seq<Event>, more: seq<Event>, t: nat)
    returns (st: State)
    requires calls >= 1 && t <= |es| <= |more| && EventsOf(es, threads) && EventsOf(more, threads)
    requires forall k | 0 <= k < |es| :: more[k] == es[k]
    ensures st == StateAt(calls, threads, more, t) == StateAt(calls, threads, es, t)
  {
    if t == 0 {
      st := Boot(calls, threads);
    } else {
      var n := t - 1;
      var st0 := StateAtPrefix(calls, threads, es, more, n);
      st := Step(st0, es[n]);
      StateAtNext(calls, threads, es, n, st0);
      StateAtNext(calls, threads, more, n, st0);
    }
  }

  lemma StateAtNext(calls: nat, threads: nat, es: seq<Event>, t: nat, st: State)
    requires calls >= 1 && t < |es| && EventsOf(es, threads) && st == StateAt(calls, threads, es, t)
    ensures StateAt(calls, threads, es, t + 1) == Step(st, es[t])
  {
  }

  lemma ReachableIs(calls: nat, threads: nat, st: State)
    requires Reachable(calls, threads, st)
    ensures Inv(st) && |st.table| == calls + 1 && |st.threads| == threads
  {
    var es: seq<Event> :| ByRun(calls, threads, es, st);
    RunKeeps(calls, threads, es, |es|);
  }

  lemma OneMore(calls: nat, threads: nat, es: seq<Event>, e: Event, st: State, st': State)
    requires ByRun(calls, threads, es, st) && e.thread < threads && st' == Step(st, e)
    ensures ByRun(calls, threads, es + [e], st')
  {
    var more, t := es + [e], |es|;
    assert EventsOf(more, threads);
    var _ := StateAtPrefix(calls, threads, es, more, t);
    StateAtNext(calls, threads, more, t, st);
  }

  lemma ReachableStep(calls: nat, threads: nat, st: State, e: Event, st': State)
    requires Reachable(calls, threads, st) && Ranged(st) && e.thread < threads == |st.threads| && st' == Step(st, e)
    ensures Reachable(calls, threads, st')
  {
    var es: seq<Event> :| ByRun(calls, threads, es, st);
    OneMore(calls, threads, es, e, st, st');
  }

  lemma BootReachable(calls: nat, threads: nat)
    requires calls >= 1
    ensures Reachable(calls, threads, Boot(calls, threads))
  {
    var es: seq<Event> := [];
    assert ByRun(calls, threads, es, Boot(calls, threads));
  }

  lemma UntilNext(th: Thread, row: Entry, c: Choice, last: nat, goal: Pc) returns (th1: Thread, row1: Entry)
    requires OneRow(th.pc) && th.sysc <= last && !th.pc.Idle? && th.pc != goal
    ensures (th1, row1) == Solo(th, row, c, last) && OneRow(th1.pc) && th1.sysc == th.sysc && th1.pid == th.pid
    ensures StepsLeft(th1, last) < StepsLeft(th, last)
    ensures Until(th1, row1, c, last, goal) == Until(th, row, c, last, goal)
  {
    SoloStays(th, row, c, last);
    th1, row1 := Solo(th, row, c, last).0, Solo(th, row, c, last).1;
  }

  lemma SoloNext(calls: nat, threads: nat, st: State, i: nat, c: Choice, goal: Pc, th: Thread, row: Entry, last: nat)
    returns (st1: State, th1: Thread, row1: Entry)
    requires Reachable(calls, threads, st) && Alone(st, i) && th == st.threads[i] && row == st.table[th.sysc]
    requires OneRow(th.pc) && !th.pc.Idle? && th.pc != goal && last == |st.table| - 1
    ensures th1.sysc == th.sysc && st1 == Placed(st, i, th.sysc, th1, row1)
    ensures Reachable(calls, threads, st1) && Alone(st1, i) && OneRow(th1.pc)
    ensures StepsLeft(th1, last) < StepsLeft(th, last)
    ensures Until(th1, row1, c, last, goal) == Until(th, row, c, last, goal)
  {
    th1, row1 := UntilNext(th, row, c, last, goal);
    SoloStep(st, i, c, th, row);
    ReachableIs(calls, threads, st);
    st1 := Placed(st, i, th.sysc, th1, row1);
    ReachableStep(calls, threads, st, Event(i, c), st1);
  }

  lemma PlacedAgain(st: State, i: nat, s: nat, th: Thread, row: Entry, th1: Thread, row1: Entry)
    requires i < |st.threads| && s < |st.table|
    ensures Placed(Placed(st, i, s, th1, row1), i, s, th, row) == Placed(st, i, s, th, row)
  {
  }

  /** An undisturbed thread gets on with its command. */
  lemma {:induction false} RunsUntil(calls: nat, threads: nat, st: State, i: nat, c: Choice, goal: Pc,
                                     th: Thread, row: Entry, last: nat, th': Thread, row': Entry)
    returns (st': State)
    requires Reachable(calls, threads, st) && Alone(st, i) && th == st.threads[i] && row == st.table[th.sysc]
    requires OneRow(th.pc) && last == |st.table| - 1 && (th', row') == Until(th, row, c, last, goal)
    ensures st' == Placed(st, i, th.sysc, th', row') && Reachable(calls, threads, st')
    decreases StepsLeft(th, last)
  {
    if th.pc.Idle? || th.pc == goal {
      st' := st;
      assert st.table[th.sysc := row] == st.table && st.threads[i := th] == st.threads;
    } else {
      var st1, th1, row1 := SoloNext(calls, threads, st, i, c, goal, th, row, last);
      st' := RunsUntil(calls, threads, st1, i, c, goal, th1, row1, last, th', row');
      PlacedAgain(st, i, th.sysc, th', row', th1, row1);
    }
  }

  /** An idle thread issues a command. */
  lemma Issued(calls: nat, threads: nat, st: State, i: nat, c: Choice, th1: Thread) returns (st1: State)
    requires Reachable(calls, threads, st) && Alone(st, i) && st.threads[i].pc.Idle?
    requires th1 == Begin(st.threads[i], c.command, |st.table| - 1)
    ensures st1 == st.(threads := st.threads[i := th1]) && Reachable(calls, threads, st1) && Alone(st1, i)
    ensures |st1.table| == calls + 1 && |st1.threads| == threads
  {
    ReachableIs(calls, threads, st);
    var th := st.threads[i];
    SoloStep(st, i, c, th, st.table[th.sysc]);
    st1 := st.(threads := st.threads[i := th1]);
    assert st.table[th.sysc := st.table[th.sysc]] == st.table;
    ReachableStep(calls, threads, st, Event(i, c), st1);
  }

  /** And carries it out: both locks are free again, and nothing but its row has changed. */
  lemma Done(calls: nat, threads: nat, st: State, i: nat, c: Choice, th1: Thread, row: Entry, row': Entry, th': Thread)
    returns (st': State)
    requires Reachable(calls, threads, st) && Alone(st, i) && st.threads[i].pc.Idle?
    requires th1 == Begin(st.threads[i], c.command, calls) && OneRow(th1.pc) && th1.sysc <= calls == |st.table| - 1
    requires row == st.table[th1.sysc] && (th', row') == Until(th1, row, c, calls, Idle) && th'.pc.Idle?
    ensures st' == State(st.table[th1.sysc := row'], None, None, st.threads[i := th'])
    ensures Reachable(calls, threads, st') && Alone(st', i)
  {
    var st1 := Issued(calls, threads, st, i, c, th1);
    st' := RunsUntil(calls, threads, st1, i, c, Idle, th1, row, calls, th', row');
    ReachableIs(calls, threads, st');
    assert st.threads[i := th1][i := th'] == st.threads[i := th'];
  }

  // ----- What the commands do, undisturbed ------------------------------------------------------

  lemma ThenLocks(th: Thread, e: Entry, c: Choice, last: nat, goal: Pc, pc: Pc, next: Pc)
    requires OneRow(pc) && th.sysc <= last && !pc.Idle? && pc != goal
    requires !Locking(th.(pc := pc)).Works? && Locking(th.(pc := pc)).next == next
    ensures OneRow(next) && Until(th.(pc := pc), e, c, last, goal) == Until(th.(pc := next), e, c, last, goal)
  {
    SoloStays(th.(pc := pc), e, c, last);
  }

  lemma ThenWorks(th: Thread, e: Entry, c: Choice, last: nat, goal: Pc, pc: Pc, next: Pc, answer: Answer, e': Entry)
    requires OneRow(pc) && th.sysc <= last && !pc.Idle? && pc != goal && Locking(th.(pc := pc)).Works?
    requires Work(th.(pc := pc), e, c, last) == (th.(pc := next, answer := answer), e')
    ensures OneRow(next)
    ensures Until(th.(pc := pc), e, c, last, goal) == Until(th.(pc := next, answer := answer), e', c, last, goal)
  {
    SoloStays(th.(pc := pc), e, c, last);
  }

  lemma StartLocks(th: Thread, e: Entry, c: Choice, last: nat, goal: Pc)
    requires th.pc.StartLockPids? && th.sysc <= last && (goal.Idle? || goal.StartRelockPids?)
    ensures Until(th, e, c, last, goal) == Until(th.(pc := StartCheck), e, c, last, goal)
  {
    ThenLocks(th, e, c, last, goal, StartLockPids, StartLockCalls);
    ThenLocks(th, e, c, last, goal, StartLockCalls, StartCheck);
  }

  lemma StartChecks(th: Thread, e: Entry, c: Choice, last: nat, goal: Pc)
    requires th.pc.StartCheck? && th.sysc <= last && !Has(e.pids, th.pid) && (goal.Idle? || goal.StartRelockPids?)
    ensures Until(th, e, c, last, goal) == Until(th.(pc := StartFlag), e, c, last, goal)
  {
    ThenWorks(th, e, c, last, goal, StartCheck, StartDropPids, th.answer, e);
    ThenLocks(th, e, c, last, goal, StartDropPids, StartFlag);
  }

  /** A start of a process that is not listed, up to the point where it wants the lists back. */
  lemma StartGoes(th: Thread, e: Entry, e': Entry, c: Choice, last: nat, goal: Pc)
    requires th.pc.StartLockPids? && th.sysc <= last && !Has(e.pids, th.pid) && (goal.Idle? || goal.StartRelockPids?)
    requires e' == e.(monitored := if e.monitored == 0 then 1 else e.monitored)
    ensures Until(th, e, c, last, goal) == Until(th.(pc := StartRelockPids), e', c, last, goal)
  {
    StartLocks(th, e, c, last, goal);
    StartChecks(th.(pc := StartCheck), e, c, last, goal);
    ThenWorks(th, e, c, last, goal, StartFlag, StartRelockPids, th.answer, e');
  }

  /** And from there, with memory to be had. */
  lemma StartEnds(th: Thread, e: Entry, c: Choice, last: nat)
    requires th.pc.StartRelockPids? && th.sysc <= last && c.memory
    ensures Until(th, e, c, last, Idle) == (th.(pc := Idle, answer := Success), Added(e, th.pid))
  {
    ThenLocks(th, e, c, last, Idle, StartRelockPids, StartAdd);
    ThenWorks(th, e, c, last, Idle, StartAdd, StartUnlockPids, Success, Added(e, th.pid));
    StartUnlocks(th.(pc := StartUnlockPids, answer := Success), Added(e, th.pid), c, last);
  }

  lemma StartUnlocks(th: Thread, e: Entry, c: Choice, last: nat)
    requires th.pc.StartUnlockPids? && th.sysc <= last
    ensures Until(th, e, c, last, Idle) == (th.(pc := Idle), e)
  {
    ThenLocks(th, e, c, last, Idle, StartUnlockPids, StartUnlockCalls);
    ThenLocks(th, e, c, last, Idle, StartUnlockCalls, Idle);
  }

  /** A stop of an intercepted call, up to the point where it goes on for one process or for all. */
  lemma StopLooks(th: Thread, e: Entry, c: Choice, last: nat, next: Pc)
    requires th.pc.StopLook? && th.sysc <= last && e.intercepted
    requires next == if th.pid != 0 then StopLockPids else ClearLock
    ensures Until(th, e, c, last, Idle) == Until(th.(pc := next), e, c, last, Idle)
  {
    ThenLocks(th, e, c, last, Idle, StopLook, StopSeen);
    ThenWorks(th, e, c, last, Idle, StopSeen, StopUnlook, th.answer, e);
    ThenLocks(th, e, c, last, Idle, StopUnlook, next);
  }

  lemma StopLocks(th: Thread, e: Entry, c: Choice, last: nat)
    requires th.pc.StopLockPids? && th.sysc <= last
    ensures Until(th, e, c, last, Idle) == Until(th.(pc := StopCheck), e, c, last, Idle)
  {
    ThenLocks(th, e, c, last, Idle, StopLockPids, StopLockCalls);
    ThenLocks(th, e, c, last, Idle, StopLockCalls, StopCheck);
  }

  /** Of a listed process, up to the point where it wants the lists back. */
  lemma StopGoes(th: Thread, e: Entry, e': Entry, c: Choice, last: nat)
    requires th.pc.StopCheck? && th.sysc <= last && Has(e.pids, th.pid)
    requires e' == e.(monitored := if e.monitored == 2 then 1 else 0)
    ensures Until(th, e, c, last, Idle) == Until(th.(pc := StopRelockPids), e', c, last, Idle)
  {
    ThenWorks(th, e, c, last, Idle, StopCheck, StopDropPids, th.answer, e);
    ThenLocks(th, e, c, last, Idle, StopDropPids, StopFlag);
    ThenWorks(th, e, c, last, Idle, StopFlag, StopRelockPids, th.answer, e');
  }

  lemma GoesBack(th: Thread, e: Entry, c: Choice, last: nat)
    requires th.pc.BackUnlockCalls? && th.sysc <= last
    ensures Until(th, e, c, last, Idle) == (th.(pc := Idle), e)
  {
    ThenLocks(th, e, c, last, Idle, BackUnlockCalls, BackUnlockPids);
    ThenLocks(th, e, c, last, Idle, BackUnlockPids, Idle);
  }

  lemma StopEnds(th: Thread, e: Entry, c: Choice, last: nat)
    requires th.pc.StopRelockPids? && th.sysc <= last && Has(e.pids, th.pid)
    ensures Until(th, e, c, last, Idle) == (th.(pc := Idle, answer := Success), Dropped(e, th.pid))
  {
    ThenLocks(th, e, c, last, Idle, StopRelockPids, StopDelete);
    ThenWorks(th, e, c, last, Idle, StopDelete, BackUnlockCalls, Success, Dropped(e, th.pid));
    GoesBack(th.(pc := BackUnlockCalls, answer := Success), Dropped(e, th.pid), c, last);
  }

  lemma StopAlone(th: Thread, e: Entry, e': Entry, c: Choice, last: nat)
    requires th.pc.StopLook? && th.sysc <= last && e.intercepted && th.pid != 0 && Has(e.pids, th.pid)
    requires e' == e.(monitored := if e.monitored == 2 then 1 else 0)
    ensures Until(th, e, c, last, Idle) == (th.(pc := Idle, answer := Success), Dropped(e', th.pid))
  {
    StopLooks(th, e, c, last, StopLockPids);
    StopLocks(th.(pc := StopLockPids), e, c, last);
    StopGoes(th.(pc := StopCheck), e, e', c, last);
    StopEnds(th.(pc := StopRelockPids), e', c, last);
  }

  lemma StartAlone(th: Thread, e: Entry, e': Entry, c: Choice, last: nat)
    requires th.pc.StartLockPids? && th.sysc <= last && !Has(e.pids, th.pid) && c.memory
    requires e' == e.(monitored := if e.monitored == 0 then 1 else e.monitored)
    ensures Until(th, e, c, last, Idle) == (th.(pc := Idle, answer := Success), Added(e', th.pid))
  {
    StartGoes(th, e, e', c, last, Idle);
    StartEnds(th.(pc := StartRelockPids), e', c, last);
  }

  lemma StartRefused(th: Thread, e: Entry, c: Choice, last: nat)
    requires th.pc.StartLockPids? && th.sysc <= last && Has(e.pids, th.pid)
    ensures Until(th, e, c, last, Idle) == (th.(pc := Idle, answer := Busy), e)
  {
    StartLocks(th, e, c, last, Idle);
    ThenWorks(th, e, c, last, Idle, StartCheck, BackUnlockCalls, Busy, e);
    GoesBack(th.(pc := BackUnlockCalls, answer := Busy), e, c, last);
  }

  lemma StartWithoutMemory(th: Thread, e: Entry, e': Entry, c: Choice, last: nat)
    requires th.pc.StartLockPids? && th.sysc <= last && !Has(e.pids, th.pid) && !c.memory
    requires e' == e.(monitored := if e.monitored == 0 then 1 else e.monitored)
    ensures Until(th, e, c, last, Idle) == (th.(pc := Idle, answer := NoMemory), e')
  {
    StartGoes(th, e, e', c, last, Idle);
    ThenLocks(th, e', c, last, Idle, StartRelockPids, StartAdd);
    ThenWorks(th, e', c, last, Idle, StartAdd, StartUnlockPids, NoMemory, e');
    StartUnlocks(th.(pc := StartUnlockPids, answer := NoMemory), e', c, last);
  }

  lemma ReleaseGoes(th: Thread, e: Entry, e': Entry, c: Choice, last: nat)
    requires th.pc.ReleaseCheck? && th.sysc <= last && e.intercepted && e' == e.(intercepted := false)
    ensures Until(th, e, c, last, Idle) == (th.(pc := Idle, answer := Success), e')
  {
    ThenWorks(th, e, c, last, Idle, ReleaseCheck, ReleaseLock, th.answer, e);
    ThenLocks(th, e, c, last, Idle, ReleaseLock, ReleaseSet);
    ThenWorks(th, e, c, last, Idle, ReleaseSet, ReleaseUnlock, Success, e');
    ThenLocks(th.(answer := Success), e', c, last, Idle, ReleaseUnlock, Idle);
  }

  lemma ReleaseRefused(th: Thread, e: Entry, c: Choice, last: nat)
    requires th.pc.ReleaseCheck? && th.sysc <= last && !e.intercepted
    ensures Until(th, e, c, last, Idle) == (th.(pc := Idle, answer := Invalid), e)
  {
    ThenWorks(th, e, c, last, Idle, ReleaseCheck, Idle, Invalid, e);
  }

  lemma InterceptRefused(th: Thread, e: Entry, c: Choice, last: nat)
    requires th.pc.InterceptCheck? && th.sysc <= last && e.intercepted
    ensures Until(th, e, c, last, Idle) == (th.(pc := Idle, answer := Busy), e)
  {
    ThenWorks(th, e, c, last, Idle, InterceptCheck, Idle, Busy, e);
  }

  lemma AllRefused(th: Thread, e: Entry, c: Choice, last: nat)
    requires th.pc.AllLock? && th.sysc <= last && (e.monitored == 1 || e.monitored == 2)
    ensures Until(th, e, c, last, Idle) == (th.(pc := Idle, answer := Busy), e)
  {
    ThenLocks(th, e, c, last, Idle, AllLock, AllFlag);
    ThenWorks(th, e, c, last, Idle, AllFlag, AllUnlock, Busy, e);
    ThenLocks(th.(answer := Busy), e, c, last, Idle, AllUnlock, Idle);
  }

  lemma StopUnintercepted(th: Thread, e: Entry, c: Choice, last: nat)
    requires th.pc.StopLook? && th.sysc <= last && !e.intercepted
    ensures Until(th, e, c, last, Idle) == (th.(pc := Idle, answer := Invalid), e)
  {
    ThenLocks(th, e, c, last, Idle, StopLook, StopSeen);
    ThenWorks(th, e, c, last, Idle, StopSeen, ClearUnlock, Invalid, e);
    ThenLocks(th.(answer := Invalid), e, c, last, Idle, ClearUnlock, Idle);
  }

  lemma StopUnlisted(th: Thread, e: Entry, c: Choice, last: nat)
    requires th.pc.StopLook? && th.sysc <= last && e.intercepted && th.pid != 0 && !Has(e.pids, th.pid)
    ensures Until(th, e, c, last, Idle) == (th.(pc := Idle, answer := Invalid), e)
  {
    StopLooks(th, e, c, last, StopLockPids);
    StopLocks(th.(pc := StopLockPids), e, c, last);
    ThenWorks(th, e, c, last, Idle, StopCheck, BackUnlockCalls, Invalid, e);
    GoesBack(th.(pc := BackUnlockCalls, answer := Invalid), e, c, last);
  }

  lemma ClearLooks(th: Thread, e: Entry, c: Choice, last: nat)
    requires th.pc.StopLook? && th.sysc <= last && e.intercepted && th.pid == 0
    ensures Until(th, e, c, last, Idle) == Until(th.(pc := ClearList), e, c, last, Idle)
  {
    StopLooks(th, e, c, last, ClearLock);
    ThenLocks(th, e, c, last, Idle, ClearLock, ClearList);
  }

  lemma ClearGoes(th: Thread, e: Entry, c: Choice, last: nat, answer: Answer, e': Entry)
    requires th.pc.StopLook? && th.sysc <= last && e.intercepted && th.pid == 0
    requires answer == if e.monitored == 2 then Success else Invalid
    requires e' == if e.monitored == 2 then Entry(Nil, 0, 0, true) else e
    ensures Until(th, e, c, last, Idle) == (th.(pc := Idle, answer := answer), e')
  {
    ClearLooks(th, e, c, last);
    ThenWorks(th, e, c, last, Idle, ClearList, ClearUnlock, answer, e');
    ThenLocks(th.(answer := answer), e', c, last, Idle, ClearUnlock, Idle);
  }

  /** The answer to a command on a row that it is alone with. */
  function AnswerTo(command: Command, e: Entry, memory: bool): Answer {
    match command
    case Intercept(_) => if e.intercepted then Busy else Success
    case Release(_) => if e.intercepted then Success else Invalid
    case Start(_, p) =>
      if p == 0 then if e.monitored == 0 then Success else Busy
      else if Has(e.pids, p) then Busy else if memory then Success else NoMemory
    case Stop(_, p) =>
      if !e.intercepted then Invalid
      else if p == 0 then if e.monitored == 2 then Success else Invalid
      else if Has(e.pids, p) then Success else Invalid
    case Exit(_) => Success
  }

  /** And the row after it: refused commands change nothing, but a start without memory sets the flag all the same. */
  function RowAfter(command: Command, e: Entry, memory: bool): Entry {
    match command
    case Intercept(_) => e.(intercepted := true)
    case Release(_) => e.(intercepted := false)
    case Start(_, p) =>
      if AnswerTo(command, e, memory) == Busy then e
      else if p == 0 then e.(monitored := 2)
      else if memory then
        Entry(Cons(p, e.pids), e.listcount + 1, if e.monitored == 0 then 1 else e.monitored, e.intercepted)
      else e.(monitored := if e.monitored == 0 then 1 else e.monitored)
    case Stop(_, p) =>
      if AnswerTo(command, e, memory) != Success then e
      else if p == 0 then Entry(Nil, 0, 0, true)
      else Entry(Without(e.pids, p), e.listcount - 1, if e.monitored == 2 && e.listcount != 1 then 1 else 0, true)
    case Exit(_) => e
  }

  /** What that means: a refusal changes nothing; success comes exactly under the conditions below, and says who is
      logged and listed afterwards. */
  lemma CommandMeans(command: Command, e: Entry, memory: bool, q: nat)
    requires EntryOk(e) && !command.Exit?
    ensures AnswerTo(command, e, memory) == Success <==>
              match command
              case Intercept(_) => !e.intercepted
              case Release(_) => e.intercepted
              case Start(_, p) => if p == 0 then e.monitored == 0 else memory && !Has(e.pids, p)
              case Stop(_, p) => e.intercepted && if p == 0 then e.monitored == 2 else Has(e.pids, p)
    ensures var answer, e' := AnswerTo(command, e, memory), RowAfter(command, e, memory);
            EntryOk(e')
            && (answer == Busy ==> e' == e && (command.Intercept? || command.Start?))
            && (answer == Invalid ==> e' == e && (command.Release? || command.Stop?))
            && (answer == NoMemory ==>
                  command.Start? && !memory && e' == e.(monitored := e'.monitored)
                  && (e'.monitored == if e.monitored == 2 then 2 else 1))
            && (answer == Success ==>
                  match command
                  case Intercept(_) => e' == e.(intercepted := true)
                  case Release(_) => e' == e.(intercepted := false)
                  case Start(_, p) =>
                    (Logged(e', q) <==> p == 0 || q == p || Logged(e, q)) && e'.intercepted == e.intercepted
                    && (e'.monitored == if p == 0 || e.monitored == 2 then 2 else 1)
                    && (Has(e'.pids, q) <==> (p != 0 && q == p) || Has(e.pids, q))
                  case Stop(_, p) =>
                    (Logged(e', q) <==> Has(e'.pids, q)) && (Has(e'.pids, q) <==> Has(e.pids, q) && p != 0 && q != p)
                    && e'.intercepted && (e'.monitored == if e.monitored == 2 && e'.pids.Cons? then 1 else 0))
  {
    if command.Stop? && Has(e.pids, command.pid) { WithoutKeeps(e.pids, command.pid, q); }
  }

  lemma InterceptGoes(th: Thread, e: Entry, e': Entry, c: Choice, last: nat)
    requires th.pc.InterceptCheck? && th.sysc <= last && !e.intercepted && e' == e.(intercepted := true)
    ensures Until(th, e, c, last, Idle) == (th.(pc := Idle, answer := Success), e')
  {
    ThenWorks(th, e, c, last, Idle, InterceptCheck, InterceptLock, th.answer, e);
    ThenLocks(th, e, c, last, Idle, InterceptLock, InterceptSet);
    ThenWorks(th, e, c, last, Idle, InterceptSet, InterceptUnlock, Success, e');
    ThenLocks(th.(answer := Success), e', c, last, Idle, InterceptUnlock, Idle);
  }

  lemma AllGoes(th: Thread, e: Entry, e': Entry, c: Choice, last: nat)
    requires th.pc.AllLock? && th.sysc <= last && e.monitored == 0 && e' == e.(monitored := 2)
    ensures Until(th, e, c, last, Idle) == (th.(pc := Idle, answer := Success), e')
  {
    ThenLocks(th, e, c, last, Idle, AllLock, AllFlag);
    ThenWorks(th, e, c, last, Idle, AllFlag, AllUnlock, Success, e');
    ThenLocks(th.(answer := Success), e', c, last, Idle, AllUnlock, Idle);
  }

  /** What every command but an exit does to its row and answers, undisturbed. */
  lemma CommandAlone(th: Thread, e: Entry, c: Choice, last: nat, th1: Thread)
    requires !c.command.Exit? && 1 <= c.command.sysc <= last && e.monitored <= 2
    requires th1 == Begin(th, c.command, last)
    ensures Until(th1, e, c, last, Idle)
         == (th1.(pc := Idle, answer := AnswerTo(c.command, e, c.memory)), RowAfter(c.command, e, c.memory))
  {
    var e' := RowAfter(c.command, e, c.memory);
    match c.command
    case Intercept(_) =>
      if e.intercepted { InterceptRefused(th1, e, c, last); } else { InterceptGoes(th1, e, e', c, last); }
    case Release(_) =>
      if e.intercepted { ReleaseGoes(th1, e, e', c, last); } else { ReleaseRefused(th1, e, c, last); }
    case Start(_, p) => StartCommand(e, c, last, th1, p);
    case Stop(_, p) => StopCommand(e, c, last, th1, p);
  }

  lemma StartCommand(e: Entry, c: Choice, last: nat, th1: Thread, p: nat)
    requires c.command.Start? && c.command.pid == p && e.monitored <= 2
    requires th1 == Thread(if p != 0 then StartLockPids else AllLock, c.command.sysc, p, Unanswered) && th1.sysc <= last
    ensures Until(th1, e, c, last, Idle)
         == (th1.(pc := Idle, answer := AnswerTo(c.command, e, c.memory)), RowAfter(c.command, e, c.memory))
  {
    var marked := e.(monitored := if e.monitored == 0 then 1 else e.monitored);
    if p == 0 {
      if e.monitored == 0 { AllGoes(th1, e, e.(monitored := 2), c, last); } else { AllRefused(th1, e, c, last); }
    } else if Has(e.pids, p) {
      StartRefused(th1, e, c, last);
    } else if c.memory {
      StartAlone(th1, e, marked, c, last);
    } else {
      StartWithoutMemory(th1, e, marked, c, last);
    }
  }

  lemma StopCommand(e: Entry, c: Choice, last: nat, th1: Thread, p: nat)
    requires c.command.Stop? && c.command.pid == p && e.monitored <= 2
    requires th1 == Thread(StopLook, c.command.sysc, p, Unanswered) && th1.sysc <= last
    ensures Until(th1, e, c, last, Idle)
         == (th1.(pc := Idle, answer := AnswerTo(c.command, e, c.memory)), RowAfter(c.command, e, c.memory))
  {
    if !e.intercepted {
      StopUnintercepted(th1, e, c, last);
    } else if p == 0 {
      ClearGoes(th1, e, c, last, AnswerTo(c.command, e, c.memory), RowAfter(c.command, e, c.memory));
    } else if Has(e.pids, p) {
      StopAlone(th1, e, e.(monitored := if e.monitored == 2 then 1 else 0), c, last);
    } else {
      StopUnlisted(th1, e, c, last);
    }
  }

  // ----- Runs that go wrong ---------------------------------------------------------------------

  /** A reachable state in which thread 0 is idle and both locks are free. */
  ghost predicate Quiet(calls: nat, threads: nat, st: State) {
    Reachable(calls, threads, st) && Alone(st, 0) && st.threads[0].pc.Idle? && |st.table| == calls + 1
  }

  lemma BootIsQuiet(calls: nat, threads: nat) returns (st: State)
    requires calls >= 1 && threads >= 1
    ensures st == Boot(calls, threads) && Quiet(calls, threads, st)
  {
    st := Boot(calls, threads);
    BootReachable(calls, threads);
  }

  /** An undisturbed command by thread 0. */
  lemma Runs(calls: nat, threads: nat, st: State, c: Choice, s: nat, row: Entry) returns (st': State)
    requires Quiet(calls, threads, st) && !c.command.Exit? && c.command.sysc == s && 1 <= s <= calls
    requires row == st.table[s]
    ensures Quiet(calls, threads, st') && st'.table == st.table[s := RowAfter(c.command, row, c.memory)]
    ensures st'.threads[0].answer == AnswerTo(c.command, row, c.memory)
  {
    ReachableIs(calls, threads, st);
    assert EntryOk(row);
    var th, row', answer := Begin(st.threads[0], c.command, calls), RowAfter(c.command, row, c.memory),
                            AnswerTo(c.command, row, c.memory);
    CommandAlone(st.threads[0], row, c, calls, th);
    st' := Done(calls, threads, st, 0, c, th, row, row', th.(pc := Idle, answer := answer));
  }

  /** Monitor everybody, then one process, then stop that one: before the stop everybody is logged, after it nobody. */
  lemma StopSilencesOthers(calls: nat, threads: nat, s: nat, p: nat) returns (before: State, after: State)
    requires 1 <= s <= calls && threads >= 1 && p != 0
    ensures Quiet(calls, threads, before) && Quiet(calls, threads, after)
    ensures Has(before.table[s].pids, p) && forall q: nat :: Logged(before.table[s], q)
    ensures after.table == before.table[s := Dropped(before.table[s].(monitored := 1), p)]
    ensures forall q: nat :: !Logged(after.table[s], q)
  {
    var st := BootIsQuiet(calls, threads);
    st := Runs(calls, threads, st, Choice(Intercept(s), true), s, st.table[s]);
    st := Runs(calls, threads, st, Choice(Start(s, 0), true), s, st.table[s]);
    before := Runs(calls, threads, st, Choice(Start(s, p), true), s, st.table[s]);
    after := Runs(calls, threads, before, Choice(Stop(s, p), true), s, before.table[s]);
  }

  /** Monitor everybody and stop for all: while it lasts everybody is logged, and then the row is as before. */
  lemma StopAllUndoesStartAll(calls: nat, threads: nat, s: nat)
    returns (before: State, during: State, after: State)
    requires 1 <= s <= calls && threads >= 1
    ensures Quiet(calls, threads, before) && Quiet(calls, threads, during) && Quiet(calls, threads, after)
    ensures before.table[s].intercepted && forall q: nat :: !Logged(before.table[s], q)
    ensures forall q: nat :: Logged(during.table[s], q)
    ensures after.table == before.table
  {
    var st := BootIsQuiet(calls, threads);
    before := Runs(calls, threads, st, Choice(Intercept(s), true), s, st.table[s]);
    during := Runs(calls, threads, before, Choice(Start(s, 0), true), s, before.table[s]);
    after := Runs(calls, threads, during, Choice(Stop(s, 0), true), s, during.table[s]);
    assert before.table[s] == Entry(Nil, 0, 0, true);
    assert after.table == before.table[s := Entry(Nil, 0, 0, true)];
  }

  /** Monitor two processes and stop one: the other stays listed, and the flag is clear. */
  lemma StopClearsTheFlag(calls: nat, threads: nat, s: nat, p: nat, q: nat) returns (st: State)
    requires 1 <= s <= calls && threads >= 1 && p != 0 && q != 0 && p != q
    ensures Quiet(calls, threads, st) && st.table[s].pids == Cons(q, Nil) && st.table[s].monitored == 0
  {
    st := BootIsQuiet(calls, threads);
    st := Runs(calls, threads, st, Choice(Intercept(s), true), s, st.table[s]);
    st := Runs(calls, threads, st, Choice(Start(s, p), true), s, st.table[s]);
    assert st.table[s] == Entry(Cons(p, Nil), 1, 1, true) && !Has(Nil, q) && !Has(Cons(p, Nil), q);
    st := Runs(calls, threads, st, Choice(Start(s, q), true), s, st.table[s]);
    assert st.table[s] == Entry(Cons(q, Cons(p, Nil)), 2, 1, true);
    assert Without(Cons(p, Nil), p) == Nil && Has(Cons(p, Nil), p);
    st := Runs(calls, threads, st, Choice(Stop(s, p), true), s, st.table[s]);
  }

  lemma SoloSweep(th: Thread, e: Entry, c: Choice, last: nat) returns (th1: Thread, e1: Entry)
    requires th.pc.ExitSweep?
    ensures (th1, e1) == Solo(th, e, c, last) && Holds(Pids, th1.pc) && !Holds(Calls, th1.pc)
    ensures th1 == if th.sysc < last then th.(sysc := th.sysc + 1) else th.(pc := ExitUnlock, answer := Success)
    ensures e1 == if th.sysc < last then DroppedAll(e, th.pid) else e
  {
    th1, e1 := Solo(th, e, c, last).0, Solo(th, e, c, last).1;
  }

  /** A row after an exit of process `p`: it is listed no longer, and the flag is cleared with the last one listed. */
  function ExitRow(e: Entry, p: nat): Entry {
    if !Has(e.pids, p) then e
    else Entry(Without(e.pids, p), e.listcount - 1,
               if e.listcount == 1 && e.monitored == 1 then 0 else e.monitored, e.intercepted)
  }

  /** The rows from `s` on but for the last are swept, and all others as they were. */
  ghost predicate SweptFrom(table: seq<Entry>, table': seq<Entry>, s: nat, p: nat) {
    |table'| == |table|
    && forall k | 0 <= k < |table| :: table'[k] == if s <= k < |table| - 1 then ExitRow(table[k], p) else table[k]
  }

  lemma SweptRow(calls: nat, threads: nat, st: State, p: nat, s: nat)
    requires Reachable(calls, threads, st) && s < |st.table|
    ensures DroppedAll(st.table[s], p) == ExitRow(st.table[s], p)
  {
    ReachableIs(calls, threads, st);
    assert EntryOk(st.table[s]);
    DroppedAllOk(st.table[s], p, p);
  }

  lemma SweepsOn(calls: nat, threads: nat, st: State, c: Choice, th: Thread) returns (st1: State, th1: Thread)
    requires Reachable(calls, threads, st) && Alone(st, 0) && th == st.threads[0] && th.pc.ExitSweep?
    requires |st.table| == calls + 1
    ensures Reachable(calls, threads, st1) && Alone(st1, 0) && |st1.table| == calls + 1 && th1 == st1.threads[0]
    ensures th1 == if th.sysc < calls then th.(sysc := th.sysc + 1) else th.(pc := ExitUnlock, answer := Success)
    ensures st1.table == if th.sysc < calls then st.table[th.sysc := ExitRow(st.table[th.sysc], th.pid)] else st.table
  {
    ReachableIs(calls, threads, st);
    SweptRow(calls, threads, st, th.pid, th.sysc);
    SoloStep(st, 0, c, th, st.table[th.sysc]);
    var row1;
    th1, row1 := SoloSweep(th, st.table[th.sysc], c, calls);
    st1 := Placed(st, 0, th.sysc, th1, row1);
    ReachableStep(calls, threads, st, Event(0, c), st1);
  }

  /** A sweep removes its process from every row but the last, which it leaves as it is. */
  lemma {:induction false} Sweeps(calls: nat, threads: nat, st: State, c: Choice, th: Thread) returns (st': State)
    requires Reachable(calls, threads, st) && Alone(st, 0) && th == st.threads[0] && th.pc.ExitSweep?
    requires |st.table| == calls + 1
    ensures Reachable(calls, threads, st') && Alone(st', 0) && |st'.table| == calls + 1
    ensures st'.threads[0].pc.ExitUnlock? && st'.threads[0].pid == th.pid
    ensures SweptFrom(st.table, st'.table, th.sysc, th.pid)
    decreases calls - th.sysc
  {
    var th1: Thread;
    st', th1 := SweepsOn(calls, threads, st, c, th);
    if th.sysc < calls { st' := Sweeps(calls, threads, st', c, th1); }
  }

  /** An undisturbed exit, up to where it lets go of the lists. */
  lemma ExitSweeps(calls: nat, threads: nat, st: State, p: nat, c: Choice) returns (st': State)
    requires Quiet(calls, threads, st) && calls >= 1 && c == Choice(Exit(p), true)
    ensures Reachable(calls, threads, st') && Alone(st', 0) && |st'.threads| == threads && |st'.table| == calls + 1
    ensures st'.threads[0].pc.ExitUnlock? && st'.threads[0].pid == p
    ensures SweptFrom(st.table, st'.table, 1, p)
  {
    var th := Thread(ExitLock, 1, p, Unanswered);
    var st1 := Issued(calls, threads, st, 0, c, th);
    SoloStep(st1, 0, c, th, st1.table[1]);
    var swept := Placed(st1, 0, 1, th.(pc := ExitSweep), st1.table[1]);
    ReachableStep(calls, threads, st1, Event(0, c), swept);
    assert swept.table == st.table;
    st' := Sweeps(calls, threads, swept, c, swept.threads[0]);
    ReachableIs(calls, threads, st');
  }

  /** After an undisturbed exit its process is gone from every row but the last, with count and flag put right, and
      nothing else has changed. */
  lemma ExitRuns(calls: nat, threads: nat, st: State, p: nat) returns (st': State)
    requires Quiet(calls, threads, st) && calls >= 1
    ensures Quiet(calls, threads, st') && SweptFrom(st.table, st'.table, 1, p)
  {
    var c := Choice(Exit(p), true);
    var st1 := ExitSweeps(calls, threads, st, p, c);
    var th := st1.threads[0];
    SoloStep(st1, 0, c, th, st1.table[th.sysc]);
    st' := Placed(st1, 0, th.sysc, th.(pc := Idle), st1.table[th.sysc]);
    ReachableStep(calls, threads, st1, Event(0, c), st');
    assert st'.table == st1.table;
  }

  /** A process monitored for the last system call exits, and is listed there when its sweep is over. */
  lemma ExitForgetsLastRow(calls: nat, threads: nat, p: nat) returns (st: State)
    requires calls >= 1 && threads >= 1 && p != 0
    ensures Reachable(calls, threads, st) && |st.threads| == threads && |st.table| == calls + 1
    ensures st.threads[0].pc.ExitUnlock? && st.threads[0].pid == p && Has(st.table[calls].pids, p) && !InNoRow(st, 0)
  {
    st := BootIsQuiet(calls, threads);
    st := Runs(calls, threads, st, Choice(Start(calls, p), true), calls, st.table[calls]);
    st := ExitSweeps(calls, threads, st, p, Choice(Exit(p), true));
  }

  /** A start that goes alone until it wants the lists back. */
  lemma StartHasTable(calls: nat, threads: nat, s: nat, p: nat) returns (st: State)
    requires 1 <= s <= calls && threads >= 2 && p != 0
    ensures Reachable(calls, threads, st) && Ranged(st) && |st.threads| == threads && |st.table| == calls + 1
    ensures st.threads[0].pc.StartRelockPids? && st.threads[1] == Thread(Idle, 0, 0, Unanswered)
    ensures st.calls == Some(0) && st.pids == None
  {
    var c, th := Choice(Start(s, p), true), Thread(StartLockPids, s, p, Unanswered);
    st := BootIsQuiet(calls, threads);
    st := Issued(calls, threads, st, 0, c, th);
    var row := st.table[s];
    StartGoes(th, row, row.(monitored := 1), c, calls, StartRelockPids);
    st := RunsUntil(calls, threads, st, 0, c, StartRelockPids, th, row, calls, th.(pc := StartRelockPids),
                    row.(monitored := 1));
    ReachableIs(calls, threads, st);
  }

  /** Two starts at a time get there: the first has the table and wants the lists back, the second has taken the lists
      and wants the table. From then on the locks are never free again. */
  lemma DeadlockIsReachable(calls: nat, threads: nat, s: nat, p: nat, q: nat) returns (st: State)
    requires 1 <= s <= calls && threads >= 2 && p != 0 && q != 0
    ensures Reachable(calls, threads, st) && Inv(st) && Doomed(st) && forall n: nat :: !CanFree(st, n)
  {
    st := StartHasTable(calls, threads, s, p);
    var e := Event(1, Choice(Start(s, q), true));
    var asked := st.(threads := st.threads[1 := Thread(StartLockPids, s, q, Unanswered)]);
    assert st.table[0 := st.table[0]] == st.table;
    ReachableStep(calls, threads, st, e, asked);
    ReachableIs(calls, threads, asked);
    st := asked.(pids := Some(1), threads := asked.threads[1 := Thread(StartLockCalls, s, q, Unanswered)]);
    ReachableStep(calls, threads, asked, e, st);
    ReachableIs(calls, threads, st);
    forall n: nat | n >= 0 ensures !CanFree(st, n) {
      DoomedNeverFrees(st, n);
    }
  }
}
