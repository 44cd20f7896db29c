/** The monitoring commands of the system call interceptor, as threads that interleave step by step. Each step takes or
    drops one lock, or is one list operation. */
module Monitor {
  import opened Options
  import opened Lists

  /** A row of the table; `listcount` counts the list. */
  datatype Entry = Entry(pids: List, listcount: int, monitored: nat, intercepted: bool)

  datatype Command =
    | Intercept(sysc: nat) | Release(sysc: nat)
    | Start(sysc: nat, pid: nat) | Stop(sysc: nat, pid: nat)
    | Exit(pid: nat)

  datatype Answer = Unanswered | Success | Busy | Invalid | NoMemory

  /** Where a thread stands: named by what it does next. */
  datatype Pc =
    | Idle
    | InterceptCheck | InterceptLock | InterceptSet | InterceptUnlock
    | ReleaseCheck | ReleaseLock | ReleaseSet | ReleaseUnlock
    | StartLockPids | StartLockCalls | StartCheck | StartDropPids | StartFlag | StartRelockPids | StartAdd
    | StartUnlockPids | StartUnlockCalls
    | AllLock | AllFlag | AllUnlock
    | StopLook | StopSeen | StopUnlook | StopLockPids | StopLockCalls | StopCheck | StopDropPids | StopFlag
    | StopRelockPids | StopDelete
    | BackUnlockCalls | BackUnlockPids
    | ClearLock | ClearList | ClearUnlock
    | ExitLock | ExitSweep | ExitUnlock

  datatype Thread = Thread(pc: Pc, sysc: nat, pid: nat, answer: Answer)

  /** What comes from outside: the next command of an idle thread, and whether memory is to be had. */
  datatype Choice = Choice(command: Command, memory: bool)

  // ----- List operations ------------------------------------------------------------------------

  /** `add_pid_sysc`, when there is memory. */
  function Added(e: Entry, pid: nat): Entry {
    e.(pids := Cons(pid, e.pids), listcount := e.listcount + 1)
  }

  /** The removal of the first node with that pid; the last one ends the monitoring of single pids. */
  function Dropped(e: Entry, pid: nat): Entry {
    var count := e.listcount - 1;
    e.(pids := Without(e.pids, pid), listcount := count,
       monitored := if count == 0 && e.monitored == 1 then 0 else e.monitored)
  }

  /** `del_pid` for one row removes every node with that pid. */
  function DroppedAll(e: Entry, pid: nat): Entry
    decreases Length(e.pids)
  {
    if Has(e.pids, pid) then
      WithoutShrinks(e.pids, pid);
      DroppedAll(Dropped(e, pid), pid)
    else e
  }

  lemma {:induction false} WithoutShrinks(l: List, x: nat)
    requires Has(l, x)
    ensures Length(Without(l, x)) == Length(l) - 1
  {
    if l.head != x { WithoutShrinks(l.tail, x); }
  }

  // ----- One step of one thread -----------------------------------------------------------------

  /** The first step of a command: the arguments are checked before anything is locked. */
  function Begin(th: Thread, c: Command, last: nat): Thread {
    match c
    case Intercept(s) => Checked(th, s, last, Thread(InterceptCheck, s, 0, Unanswered))
    case Release(s) => Checked(th, s, last, Thread(ReleaseCheck, s, 0, Unanswered))
    case Start(s, pid) => Checked(th, s, last, Thread(if pid != 0 then StartLockPids else AllLock, s, pid, Unanswered))
    case Stop(s, pid) => Checked(th, s, last, Thread(StopLook, s, pid, Unanswered))
    case Exit(pid) => Thread(ExitLock, 1, pid, Unanswered)
  }

  function Checked(th: Thread, sysc: nat, last: nat, next: Thread): Thread {
    if sysc == 0 || sysc > last then th.(answer := Invalid) else next
  }

  datatype Lock = Pids | Calls

  datatype LockStep = Works | Takes(lock: Lock, next: Pc) | Drops(lock: Lock, next: Pc)

  /** The steps that are a `spin_lock` or a `spin_unlock`. */
  function Locking(th: Thread): LockStep {
    match th.pc
    case InterceptLock => Takes(Calls, InterceptSet)
    case InterceptUnlock => Drops(Calls, Idle)
    case ReleaseLock => Takes(Calls, ReleaseSet)
    case ReleaseUnlock => Drops(Calls, Idle)
    case StartLockPids => Takes(Pids, StartLockCalls)
    case StartLockCalls => Takes(Calls, StartCheck)
    case StartDropPids => Drops(Pids, StartFlag)
    case StartRelockPids => Takes(Pids, StartAdd)
    case StartUnlockPids => Drops(Pids, StartUnlockCalls)
    case StartUnlockCalls => Drops(Calls, Idle)
    case AllLock => Takes(Calls, AllFlag)
    case AllUnlock => Drops(Calls, Idle)
    case StopLook => Takes(Calls, StopSeen)
    case StopUnlook => Drops(Calls, if th.pid != 0 then StopLockPids else ClearLock)
    case StopLockPids => Takes(Pids, StopLockCalls)
    case StopLockCalls => Takes(Calls, StopCheck)
    case StopDropPids => Drops(Pids, StopFlag)
    case StopRelockPids => Takes(Pids, StopDelete)
    case BackUnlockCalls => Drops(Calls, BackUnlockPids)
    case BackUnlockPids => Drops(Pids, Idle)
    case ClearLock => Takes(Calls, ClearList)
    case ClearUnlock => Drops(Calls, Idle)
    case ExitLock => Takes(Pids, ExitSweep)
    case ExitUnlock => Drops(Pids, Idle)
    case _ => Works
  }

  /** The other steps; `e` is the row of the thread's system call. */
  function Work(th: Thread, e: Entry, c: Choice, last: nat): (Thread, Entry) {
    match th.pc
    case InterceptCheck =>
      if e.intercepted then (th.(pc := Idle, answer := Busy), e) else (th.(pc := InterceptLock), e)
    case InterceptSet => (th.(pc := InterceptUnlock, answer := Success), e.(intercepted := true))
    case ReleaseCheck =>
      if e.intercepted then (th.(pc := ReleaseLock), e) else (th.(pc := Idle, answer := Invalid), e)
    case ReleaseSet => (th.(pc := ReleaseUnlock, answer := Success), e.(intercepted := false))
    case StartCheck =>
      if Has(e.pids, th.pid) then (th.(pc := BackUnlockCalls, answer := Busy), e) else (th.(pc := StartDropPids), e)
    case StartFlag => (th.(pc := StartRelockPids), e.(monitored := if e.monitored == 0 then 1 else e.monitored))
    case StartAdd =>
      if c.memory then (th.(pc := StartUnlockPids, answer := Success), Added(e, th.pid))
      else (th.(pc := StartUnlockPids, answer := NoMemory), e)
    case AllFlag =>
      if e.monitored == 2 || e.monitored == 1 then (th.(pc := AllUnlock, answer := Busy), e)
      else (th.(pc := AllUnlock, answer := Success), e.(monitored := 2))
    case StopSeen =>
      if e.intercepted then (th.(pc := StopUnlook), e) else (th.(pc := ClearUnlock, answer := Invalid), e)
    case StopCheck =>
      if Has(e.pids, th.pid) then (th.(pc := StopDropPids), e) else (th.(pc := BackUnlockCalls, answer := Invalid), e)
    case StopFlag => (th.(pc := StopRelockPids), e.(monitored := if e.monitored == 2 then 1 else 0))
    case StopDelete =>
      if Has(e.pids, th.pid) then (th.(pc := BackUnlockCalls, answer := Success), Dropped(e, th.pid))
      else (th.(pc := BackUnlockCalls, answer := Invalid), e)
    case ClearList =>
      if e.monitored == 2 then
        (th.(pc := ClearUnlock, answer := Success), e.(pids := Nil, listcount := 0, monitored := 0))
      else (th.(pc := ClearUnlock, answer := Invalid), e)
    case ExitSweep =>
      if th.sysc < last then (th.(sysc := th.sysc + 1), DroppedAll(e, th.pid))
      else (th.(pc := ExitUnlock, answer := Success), e)
    case _ => (Begin(th, c.command, last), e)
  }

  predicate Holds(lock: Lock, pc: Pc) {
    match lock
    case Pids =>
      pc.StartLockCalls? || pc.StartCheck? || pc.StartDropPids? || pc.StartAdd? || pc.StartUnlockPids?
      || pc.StopLockCalls? || pc.StopCheck? || pc.StopDropPids? || pc.StopDelete? || pc.BackUnlockCalls?
      || pc.BackUnlockPids? || pc.ExitSweep? || pc.ExitUnlock?
    case Calls =>
      pc.InterceptSet? || pc.InterceptUnlock? || pc.ReleaseSet? || pc.ReleaseUnlock? || pc.StartCheck?
      || pc.StartDropPids? || pc.StartFlag? || pc.StartRelockPids? || pc.StartAdd? || pc.StartUnlockPids?
      || pc.StartUnlockCalls? || pc.AllFlag? || pc.AllUnlock? || pc.StopSeen? || pc.StopUnlook? || pc.StopCheck?
      || pc.StopDropPids? || pc.StopFlag? || pc.StopRelockPids? || pc.StopDelete? || pc.BackUnlockCalls?
      || pc.ClearList? || pc.ClearUnlock?
  }

  /** Between the check that a pid is not in the list and its insertion. */
  predicate Between(pc: Pc) {
    pc.StartDropPids? || pc.StartFlag? || pc.StartRelockPids? || pc.StartAdd?
  }

  /** Lists hold a pid once, and the count is right. */
  predicate EntryOk(e: Entry) {
    NoDuplicates(e.pids) && e.listcount == Length(e.pids) && e.monitored <= 2
  }

  // ----- What a step does -----------------------------------------------------------------------

  lemma DroppedOk(e: Entry, pid: nat, q: nat)
    requires EntryOk(e) && Has(e.pids, pid)
    ensures EntryOk(Dropped(e, pid)) && (Has(Dropped(e, pid).pids, q) <==> Has(e.pids, q) && q != pid)
  {
    WithoutKeeps(e.pids, pid, q);
  }

  /** In a list without duplicates `del_pid` removes what `del_pid_sysc` would. */
  lemma DroppedAllOk(e: Entry, pid: nat, q: nat)
    requires EntryOk(e)
    ensures DroppedAll(e, pid) == if Has(e.pids, pid) then Dropped(e, pid) else e
    ensures EntryOk(DroppedAll(e, pid)) && (Has(DroppedAll(e, pid).pids, q) <==> Has(e.pids, q) && q != pid)
  {
    if Has(e.pids, pid) {
      DroppedOk(e, pid, pid);
      DroppedOk(e, pid, q);
    }
  }

  /** A lock is taken by a thread that does not hold it, and dropped by one that does. */
  lemma LockingIs(th: Thread, l: Lock)
    ensures Locking(th).Takes? ==>
              (Holds(l, Locking(th).next) <==> Holds(l, th.pc) || Locking(th).lock == l)
              && (Locking(th).lock == l ==> !Holds(l, th.pc))
    ensures Locking(th).Drops? ==>
              (Holds(l, Locking(th).next) <==> Holds(l, th.pc) && Locking(th).lock != l)
              && (Locking(th).lock == l ==> Holds(l, th.pc))
  {
  }

  lemma WorkHolds(th: Thread, e: Entry, c: Choice, last: nat, l: Lock)
    requires Locking(th).Works?
    ensures Holds(l, Work(th, e, c, last).0.pc) <==> Holds(l, th.pc)
  {
  }

  /** Every list operation keeps a row in order, if an insertion only ever meets an absent pid. */
  lemma WorkEntry(th: Thread, e: Entry, c: Choice, last: nat)
    requires EntryOk(e) && (th.pc.StartAdd? ==> !Has(e.pids, th.pid))
    ensures EntryOk(Work(th, e, c, last).1)
  {
    DroppedAllOk(e, th.pid, 0);
    if Has(e.pids, th.pid) { DroppedOk(e, th.pid, 0); }
  }

  /** Only an insertion adds to a list, and only its own pid. */
  lemma WorkAdds(th: Thread, e: Entry, c: Choice, last: nat, q: nat)
    requires EntryOk(e) && Has(Work(th, e, c, last).1.pids, q)
    ensures Has(e.pids, q) || (th.pc.StartAdd? && q == th.pid)
  {
    DroppedAllOk(e, th.pid, q);
    if Has(e.pids, th.pid) { DroppedOk(e, th.pid, q); }
  }

  /** A thread gets between check and insertion by the check, and stays with its call and pid. */
  lemma WorkBetween(th: Thread, e: Entry, c: Choice, last: nat)
    requires Locking(th).Works? && Between(Work(th, e, c, last).0.pc)
    ensures Work(th, e, c, last).0.sysc == th.sysc && Work(th, e, c, last).0.pid == th.pid
    ensures Work(th, e, c, last).1.pids == e.pids && (Between(th.pc) || !Has(e.pids, th.pid))
  {
  }

  lemma WorkRanged(th: Thread, e: Entry, c: Choice, last: nat)
    requires last >= 1 && th.sysc <= last
    ensures Work(th, e, c, last).0.sysc <= last
  {
  }

  // ----- What the commands mean for the log -----------------------------------------------------

  /** `interceptor` logs the call of a process. */
  predicate Logged(e: Entry, q: nat) {
    Has(e.pids, q) || e.monitored == 2
  }

  /** The two writing steps of a start, whatever comes between them: setting the flag changes nothing for anybody, and
      the insertion adds exactly its process to those logged. */
  lemma StartMeans(th: Thread, e: Entry, c: Choice, last: nat, q: nat)
    ensures th.pc.StartFlag? ==> (Logged(Work(th, e, c, last).1, q) <==> Logged(e, q))
    ensures th.pc.StartAdd? ==>
              (Logged(Work(th, e, c, last).1, q) <==> (c.memory && q == th.pid) || Logged(e, q))
  {
  }

  function Above(l: List): (q: nat)
    ensures forall x: nat | Has(l, x) :: x < q
  {
    match l case Nil => 0 case Cons(h, t) => if h < Above(t) then Above(t) else h + 1
  }

  /** The two writing steps of a stop, whatever comes between them: setting the flag leaves only those listed, and the
      deletion takes away exactly its process, unless everybody is logged. */
  lemma StopMeans(th: Thread, e: Entry, c: Choice, last: nat, q: nat)
    requires EntryOk(e)
    ensures th.pc.StopFlag? ==> (Logged(Work(th, e, c, last).1, q) <==> Has(e.pids, q))
    ensures th.pc.StopDelete? ==>
              (Logged(Work(th, e, c, last).1, q) <==> e.monitored == 2 || (Has(e.pids, q) && q != th.pid))
  {
    if Has(e.pids, th.pid) { DroppedOk(e, th.pid, q); }
  }

  /** So setting the flag leaves the logging of all others alone exactly when not everything was being logged. */
  lemma StopKeepsOthersIff(th: Thread, e: Entry, c: Choice, last: nat)
    requires EntryOk(e) && Has(e.pids, th.pid) && th.pc.StopFlag?
    ensures (forall q: nat | q != th.pid :: Logged(Work(th, e, c, last).1, q) <==> Logged(e, q)) <==> e.monitored != 2
  {
    forall q: nat | q >= 0 ensures Logged(Work(th, e, c, last).1, q) <==> Has(e.pids, q) {
      StopMeans(th, e, c, last, q);
    }
    assert Above(e.pids) != th.pid && !Has(e.pids, Above(e.pids));
    assert e.monitored == 2 ==> Logged(e, Above(e.pids)) && !Logged(Work(th, e, c, last).1, Above(e.pids));
  }

  /** The flag is meant to be one while processes are listed. The deletion leaves it so exactly when it finds it one,
      which the stop has made of a two, or when its process is the only one listed. */
  lemma StopFlagRightIff(th: Thread, e: Entry, c: Choice, last: nat)
    requires EntryOk(e) && Has(e.pids, th.pid) && th.pc.StopDelete? && e.monitored != 2
    ensures var e' := Work(th, e, c, last).1;
            e'.monitored == (if e'.pids.Nil? then 0 else 1) <==> e.monitored == 1 || e.listcount == 1
  {
    DroppedOk(e, th.pid, 0);
  }

  /** The deciding step of a stop for all: with the flag at two nobody is logged and listed afterwards, otherwise it is
      refused and nothing changes. */
  lemma ClearMeans(th: Thread, e: Entry, c: Choice, last: nat, q: nat)
    requires th.pc.ClearList?
    ensures var (th', e') := Work(th, e, c, last);
            if e.monitored == 2 then th'.answer == Success && !Logged(e', q) && EntryOk(e') && e'.listcount == 0
            else th'.answer == Invalid && e' == e
  {
  }

  /** The deciding step of a start for all: with the flag clear everybody is logged afterwards and the list stays,
      otherwise it is refused and nothing changes. */
  lemma AllFlagMeans(th: Thread, e: Entry, c: Choice, last: nat, q: nat)
    requires th.pc.AllFlag? && EntryOk(e)
    ensures var (th', e') := Work(th, e, c, last);
            if e.monitored == 0 then th'.answer == Success && Logged(e', q) && e'.pids == e.pids && EntryOk(e')
            else th'.answer == Busy && e' == e
  {
  }

  /** A command for no row of the table is refused at once, and any other begins. */
  lemma RefusedIff(th: Thread, command: Command, last: nat)
    requires !command.Exit?
    ensures Begin(th, command, last) == th.(answer := Invalid) <==> !(1 <= command.sysc <= last)
    ensures 1 <= command.sysc <= last ==> Begin(th, command, last).sysc == command.sysc
  {
  }

  // ----- The whole system -----------------------------------------------------------------------

  datatype State = State(table: seq<Entry>, pids: Option<nat>, calls: Option<nat>, threads: seq<Thread>)

  datatype Event = Event(thread: nat, choice: Choice)

  function Owner(st: State, l: Lock): Option<nat> {
    match l case Pids => st.pids case Calls => st.calls
  }

  function WithOwner(st: State, l: Lock, owner: Option<nat>): State {
    match l case Pids => st.(pids := owner) case Calls => st.(calls := owner)
  }

  function AtPc(st: State, i: nat, pc: Pc): State
    requires i < |st.threads|
  {
    st.(threads := st.threads[i := st.threads[i].(pc := pc)])
  }

  predicate Ranged(st: State) {
    |st.table| >= 2 && forall i | 0 <= i < |st.threads| :: st.threads[i].sysc < |st.table|
  }

  /** One step of one thread: it spins where it is while a lock is taken. */
  function Step(st: State, e: Event): (r: State)
    requires Ranged(st) && e.thread < |st.threads|
    ensures Ranged(r) && |r.table| == |st.table| && |r.threads| == |st.threads|
  {
    var th := st.threads[e.thread];
    WorkRanged(th, st.table[th.sysc], e.choice, |st.table| - 1);
    match Locking(th)
    case Takes(l, next) =>
      if Owner(st, l).None? then WithOwner(AtPc(st, e.thread, next), l, Some(e.thread)) else st
    case Drops(l, next) => WithOwner(AtPc(st, e.thread, next), l, None)
    case Works =>
      var (th', row) := Work(th, st.table[th.sysc], e.choice, |st.table| - 1);
      st.(table := st.table[th.sysc := row], threads := st.threads[e.thread := th'])
  }

  // ----- What every interleaving keeps ----------------------------------------------------------

  /** A lock is owned by exactly the thread whose position says so. */
  ghost predicate Disciplined(st: State) {
    forall i, l | 0 <= i < |st.threads| :: Holds(l, st.threads[i].pc) <==> Owner(st, l) == Some(i)
  }

  ghost predicate Owned(st: State) {
    forall l | Owner(st, l).Some? :: Owner(st, l).value < |st.threads|
  }

  ghost predicate RowsOk(st: State) {
    forall s | 0 <= s < |st.table| :: EntryOk(st.table[s])
  }

  /** A pid that passed the check is still absent. */
  predicate Fresh(st: State, i: nat)
    requires Ranged(st) && i < |st.threads|
  {
    var th := st.threads[i];
    Between(th.pc) ==> !Has(st.table[th.sysc].pids, th.pid)
  }

  /** An exiting pid is gone from the rows already swept. */
  ghost predicate Swept(st: State, i: nat)
    requires Ranged(st) && i < |st.threads|
  {
    var th := st.threads[i];
    Exiting(th.pc) ==>
      (th.pc.ExitLock? ==> th.sysc == 1) && (th.pc.ExitUnlock? ==> th.sysc == |st.table| - 1)
      && forall s | 1 <= s < th.sysc :: !Has(st.table[s].pids, th.pid)
  }

  ghost predicate Inv(st: State) {
    Ranged(st) && Disciplined(st) && Owned(st) && RowsOk(st)
    && (forall i | 0 <= i < |st.threads| :: Fresh(st, i)) && forall i | 0 <= i < |st.threads| :: Swept(st, i)
  }

  lemma StepDisciplined(st: State, e: Event, i: nat, l: Lock)
    requires Inv(st) && e.thread < |st.threads| && i < |st.threads|
    ensures Holds(l, Step(st, e).threads[i].pc) <==> Owner(Step(st, e), l) == Some(i)
  {
    var th := st.threads[e.thread];
    assert Holds(l, th.pc) <==> Owner(st, l) == Some(e.thread);
    LockingIs(th, l);
    if Locking(th).Works? { WorkHolds(th, st.table[th.sysc], e.choice, |st.table| - 1, l); }
  }

  lemma StepRow(st: State, e: Event, s: nat)
    requires Inv(st) && e.thread < |st.threads| && s < |st.table|
    ensures EntryOk(Step(st, e).table[s])
  {
    var th := st.threads[e.thread];
    assert Fresh(st, e.thread);
    WorkEntry(th, st.table[th.sysc], e.choice, |st.table| - 1);
  }

  /** A list gains a pid only by an insertion of that pid, by a thread that holds both locks. */
  lemma StepAdds(st: State, e: Event, s: nat, q: nat)
    requires Inv(st) && e.thread < |st.threads| && s < |st.table| && Has(Step(st, e).table[s].pids, q)
    ensures Has(st.table[s].pids, q) || (st.threads[e.thread].pc.StartAdd? && q == st.threads[e.thread].pid)
  {
    var th := st.threads[e.thread];
    if s == th.sysc && Locking(th).Works? { WorkAdds(th, st.table[s], e.choice, |st.table| - 1, q); }
  }

  lemma FreshToOther(st: State, e: Event, i: nat)
    requires Inv(st) && e.thread < |st.threads| && i < |st.threads| && i != e.thread && Between(st.threads[i].pc)
    ensures !Has(Step(st, e).table[st.threads[i].sysc].pids, st.threads[i].pid)
  {
    var th := st.threads[i];
    assert Fresh(st, i);
    assert Holds(Calls, th.pc) && Owner(st, Calls) == Some(i);
    assert Holds(Calls, st.threads[e.thread].pc) ==> Owner(st, Calls) == Some(e.thread);
    if Has(Step(st, e).table[th.sysc].pids, th.pid) { StepAdds(st, e, th.sysc, th.pid); }
  }

  lemma StepFresh(st: State, e: Event, i: nat)
    requires Inv(st) && e.thread < |st.threads| && i < |st.threads|
    ensures Fresh(Step(st, e), i)
  {
    var th := st.threads[i];
    assert Fresh(st, i);
    if i != e.thread {
      if Between(th.pc) { FreshToOther(st, e, i); }
    } else if Locking(th).Works? && Between(Step(st, e).threads[i].pc) {
      WorkBetween(th, st.table[th.sysc], e.choice, |st.table| - 1);
    }
  }

  /** Where an exiting thread is in its sweep after one more step. */
  lemma SweepMoves(th: Thread, e: Entry, c: Choice, last: nat)
    requires Locking(th).Works? && last >= 1
    ensures var th' := Work(th, e, c, last).0;
            (th'.pc.ExitLock? ==> th'.sysc == 1)
            && (th'.pc.ExitSweep? ==> th.pc.ExitSweep? && th'.sysc == th.sysc + 1 && th'.pid == th.pid)
            && (th'.pc.ExitUnlock? ==> th.pc.ExitSweep? && th'.sysc == th.sysc >= last && th'.pid == th.pid)
    ensures th.pc.ExitSweep? && th.sysc < last ==> Work(th, e, c, last).1 == DroppedAll(e, th.pid)
  {
  }

  predicate Exiting(pc: Pc) {
    pc.ExitLock? || pc.ExitSweep? || pc.ExitUnlock?
  }

  lemma SweptByOther(st: State, e: Event, i: nat, s: nat)
    requires Inv(st) && e.thread < |st.threads| && i < |st.threads| && i != e.thread && s < |st.table|
    requires Exiting(st.threads[i].pc) && !st.threads[i].pc.ExitLock? && !Has(st.table[s].pids, st.threads[i].pid)
    ensures !Has(Step(st, e).table[s].pids, st.threads[i].pid)
  {
    assert Holds(Pids, st.threads[i].pc) && Owner(st, Pids) == Some(i);
    assert Holds(Pids, st.threads[e.thread].pc) ==> Owner(st, Pids) == Some(e.thread);
    if Has(Step(st, e).table[s].pids, st.threads[i].pid) { StepAdds(st, e, s, st.threads[i].pid); }
  }

  /** The sweep of a thread itself. */
  lemma SweptBySelf(st: State, e: Event, th: Thread, row: Entry, last: nat)
    requires Inv(st) && e.thread < |st.threads| && th == st.threads[e.thread] && th.pc.ExitSweep?
    requires row == st.table[th.sysc] && last == |st.table| - 1
    ensures Swept(Step(st, e), e.thread)
  {
    SweepMoves(th, row, e.choice, last);
    DroppedAllOk(row, th.pid, th.pid);
    assert Swept(st, e.thread);
  }

  lemma StepSwept(st: State, e: Event, i: nat)
    requires Inv(st) && e.thread < |st.threads| && i < |st.threads|
    ensures Swept(Step(st, e), i)
  {
    var th := st.threads[i];
    assert Swept(st, i);
    if i != e.thread {
      if Exiting(th.pc) && !th.pc.ExitLock? {
        forall s | 1 <= s < th.sysc ensures !Has(Step(st, e).table[s].pids, th.pid) {
          SweptByOther(st, e, i, s);
        }
      }
    } else if th.pc.ExitSweep? {
      SweptBySelf(st, e, th, st.table[th.sysc], |st.table| - 1);
    } else if Locking(th).Works? {
      SweepMoves(th, st.table[th.sysc], e.choice, |st.table| - 1);
    }
  }

  lemma StepOwned(st: State, e: Event, l: Lock)
    requires Inv(st) && e.thread < |st.threads| && Owner(Step(st, e), l).Some?
    ensures Owner(Step(st, e), l).value < |st.threads|
  {
    if Owner(st, l).Some? { assert Owner(st, l).value < |st.threads|; }
  }

  lemma StepKeeps(st: State, e: Event)
    requires Inv(st) && e.thread < |st.threads|
    ensures Inv(Step(st, e))
  {
    forall i, l | 0 <= i < |st.threads|
      ensures Holds(l, Step(st, e).threads[i].pc) <==> Owner(Step(st, e), l) == Some(i)
    {
      StepDisciplined(st, e, i, l);
    }
    forall l | Owner(Step(st, e), l).Some? ensures Owner(Step(st, e), l).value < |st.threads| {
      StepOwned(st, e, l);
    }
    forall s | 0 <= s < |st.table| ensures EntryOk(Step(st, e).table[s]) {
      StepRow(st, e, s);
    }
    forall i | 0 <= i < |st.threads| ensures Fresh(Step(st, e), i) && Swept(Step(st, e), i) {
      StepFresh(st, e, i);
      StepSwept(st, e, i);
    }
  }

  // ----- Runs -----------------------------------------------------------------------------------

  /** The table as the module sets it up, for that many system calls, and idle threads. */
  function Boot(calls: nat, threads: nat): State {
    State(seq(calls + 1, _ => Entry(Nil, 0, 0, false)), None, None, seq(threads, _ => Thread(Idle, 0, 0, Unanswered)))
  }

  predicate EventsOf(events: seq<Event>, threads: nat) {
    forall k | 0 <= k < |events| :: events[k].thread < threads
  }

  function StateAt(calls: nat, threads: nat, events: seq<Event>, t: nat): (st: State)
    requires calls >= 1 && t <= |events| && EventsOf(events, threads)
    ensures Ranged(st) && |st.table| == calls + 1 && |st.threads| == threads
  {
    if t == 0 then Boot(calls, threads) else Step(StateAt(calls, threads, events, t - 1), events[t - 1])
  }

  lemma {:induction false} RunKeeps(calls: nat, threads: nat, events: seq<Event>, t: nat)
    requires calls >= 1 && t <= |events| && EventsOf(events, threads)
    ensures Inv(StateAt(calls, threads, events, t))
  {
    if t > 0 {
      RunKeeps(calls, threads, events, t - 1);
      StepKeeps(StateAt(calls, threads, events, t - 1), events[t - 1]);
    }
  }

  /** After any interleaving of any commands, no list holds a pid twice, and `listcount` is its length. */
  lemma ListsStayDuplicateFree(calls: nat, threads: nat, events: seq<Event>, t: nat, st: State, s: nat)
    requires calls >= 1 && t <= |events| && EventsOf(events, threads) && st == StateAt(calls, threads, events, t)
    requires s <= calls
    ensures NoDuplicates(st.table[s].pids) && st.table[s].listcount == Length(st.table[s].pids)
  {
    RunKeeps(calls, threads, events, t);
    assert EntryOk(st.table[s]);
  }

  /** From the check to the insertion a thread is alone, although it lets go of one of its locks, and its pid stays
      absent. */
  lemma InsertionIsExclusive(calls: nat, threads: nat, events: seq<Event>, t: nat, st: State, i: nat, j: nat)
    requires calls >= 1 && t <= |events| && EventsOf(events, threads) && st == StateAt(calls, threads, events, t)
    requires i < threads && j < threads && Between(st.threads[i].pc) && Between(st.threads[j].pc)
    ensures i == j && !Has(st.table[st.threads[i].sysc].pids, st.threads[i].pid)
  {
    RunKeeps(calls, threads, events, t);
    assert Fresh(st, i);
    assert Holds(Calls, st.threads[i].pc) && Holds(Calls, st.threads[j].pc);
    assert Owner(st, Calls) == Some(i) && Owner(st, Calls) == Some(j);
  }

  /** When an exiting process has swept the lists, its pid is in none of them exactly when it is not in the last: the
      sweep ends one row early. */
  lemma ExitForgetsLastRowIff(calls: nat, threads: nat, events: seq<Event>, t: nat, st: State, i: nat)
    requires calls >= 1 && t <= |events| && EventsOf(events, threads) && st == StateAt(calls, threads, events, t)
    requires i < threads && st.threads[i].pc.ExitUnlock?
    ensures InNoRow(st, i) <==> !Has(st.table[calls].pids, st.threads[i].pid)
  {
    RunKeeps(calls, threads, events, t);
    SweepEndsEarly(st, i);
  }

  /** The pid of the thread is in no list. */
  ghost predicate InNoRow(st: State, i: nat)
    requires i < |st.threads|
  {
    forall s | 1 <= s < |st.table| :: !Has(st.table[s].pids, st.threads[i].pid)
  }

  lemma SweepEndsEarly(st: State, i: nat)
    requires Inv(st) && i < |st.threads| && st.threads[i].pc.ExitUnlock?
    ensures InNoRow(st, i) <==> !Has(st.table[|st.table| - 1].pids, st.threads[i].pid)
  {
    assert Swept(st, i);
  }
}
