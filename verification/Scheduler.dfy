/** The round-robin scheduler and the semaphores as a transition system. Code that runs with
    interrupts off is one atomic step, so a state is what another thread or an interrupt handler
    can observe. The model starts after the idle thread has introduced itself. */
module Scheduler {

  import opened Sequences

  type Tid = nat

  const IDLE: Tid := 0
  const INITIAL: Tid := 1
  const TIME_SLICE: nat := 4

  datatype Status = Running | Ready | Blocked | Dying

  /** Semaphores on their own, inside locks, and on the stacks of threads that wait on a condition. */
  datatype SemaId = Plain(n: nat) | OfLock(l: nat) | OfWaiter(t: Tid)

  /** A semaphore; `initial`, `ups` and `downs` record its history. */
  datatype Sema = Sema(value: nat, waiters: seq<Tid>, initial: nat, ups: nat, downs: nat)

  /** `inDown` maps the threads that have blocked inside sema_down and not left it yet to their
      semaphore, `nascent` holds the threads that thread_create has not made ready yet, and
      `scheds` and `clock` count the calls of schedule() and the timer ticks. */
  datatype State = State(
    status: map<Tid, Status>,
    ready: seq<Tid>,
    current: Tid,
    ticks: nat,
    semas: map<SemaId, Sema>,
    inDown: map<Tid, SemaId>,
    nascent: set<Tid>,
    scheds: nat,
    clock: nat)

  // ----- the operations of thread.c -----

  /** schedule with next_thread_to_run and thread_schedule_tail. */
  ghost function Schedule(k: State): State {
    var next := if k.ready == [] then IDLE else k.ready[0];
    var dead := next != k.current && k.current in k.status && k.status[k.current] == Dying && k.current != INITIAL;
    var status := k.status[next := Running];
    k.(status := if dead then status - {k.current} else status,
       ready := if k.ready == [] then [] else k.ready[1..],
       current := next,
       ticks := 0,
       scheds := k.scheds + 1)
  }

  ghost function WithStatus(k: State, t: Tid, s: Status): State {
    k.(status := k.status[t := s])
  }

  /** thread_block. */
  ghost function Block(k: State): State { Schedule(WithStatus(k, k.current, Blocked)) }

  /** thread_unblock. */
  ghost function Unblock(k: State, t: Tid): State {
    WithStatus(k, t, Ready).(ready := k.ready + [t])
  }

  /** thread_yield before it calls schedule. */
  ghost function Yielding(k: State): State {
    WithStatus(k, k.current, Ready).(ready := if k.current != IDLE then k.ready + [k.current] else k.ready)
  }

  /** thread_yield. */
  ghost function Yield(k: State): State { Schedule(Yielding(k)) }

  /** The end of thread_exit. */
  ghost function Exit(k: State): State { Schedule(WithStatus(k, k.current, Dying)) }

  /** thread_tick and the return from the timer interrupt. */
  ghost function Tick(k: State): State {
    var k' := k.(ticks := k.ticks + 1, clock := k.clock + 1);
    if k'.ticks >= TIME_SLICE then Yield(k') else k'
  }

  // ----- the operations of synch.c -----

  ghost function Enqueued(k: State, s: SemaId): State
    requires s in k.semas
  {
    var sema := k.semas[s];
    k.(semas := k.semas[s := sema.(waiters := sema.waiters + [k.current])], inDown := k.inDown[k.current := s])
  }

  ghost function Taken(k: State, s: SemaId): State
    requires s in k.semas && k.semas[s].value > 0
  {
    var sema := k.semas[s];
    k.(semas := k.semas[s := sema.(value := sema.value - 1, downs := sema.downs + 1)], inDown := k.inDown - {k.current})
  }

  /** One test of the loop condition of sema_down and what follows it up to the next one. */
  ghost function TestDown(k: State, s: SemaId): State
    requires s in k.semas
  {
    if k.semas[s].value == 0 then Block(Enqueued(k, s)) else Taken(k, s)
  }

  /** sema_up. */
  ghost function Up(k: State, s: SemaId): State
    requires s in k.semas
  {
    var sema := k.semas[s];
    if sema.waiters == [] then
      k.(semas := k.semas[s := sema.(value := sema.value + 1, ups := sema.ups + 1)])
    else
      Unblock(k, sema.waiters[0])
        .(semas := k.semas[s := sema.(value := sema.value + 1, ups := sema.ups + 1, waiters := sema.waiters[1..])])
  }

  // ----- steps -----

  /** The atomic steps. `TryDown` and `Up` may also come from an interrupt handler. */
  datatype Step =
    | TickStep | YieldStep | ExitStep | IdleStep
    | SpawnStep(t: Tid) | StartStep(t: Tid)
    | InitStep(s: SemaId, value: nat)
    | DownStep(s: SemaId) | RetestStep | TryDownStep(s: SemaId) | UpStep(s: SemaId)

  /** Interrupts are off exactly while the current thread is inside the loop of sema_down. */
  ghost predicate InterruptsOn(k: State) { k.current !in k.inDown }

  ghost predicate Enabled(k: State, step: Step) {
    match step
    case TickStep => InterruptsOn(k)
    case YieldStep => InterruptsOn(k)
    case ExitStep => InterruptsOn(k) && k.current != IDLE
    case IdleStep => k.current == IDLE
    case SpawnStep(t) => InterruptsOn(k) && t !in k.status
    case StartStep(t) => InterruptsOn(k) && t in k.nascent
    case InitStep(s, _) => InterruptsOn(k) && forall t :: t in k.inDown ==> k.inDown[t] != s
    case DownStep(s) => InterruptsOn(k) && k.current != IDLE && s in k.semas
    case RetestStep => k.current in k.inDown && k.inDown[k.current] in k.semas
    case TryDownStep(s) => InterruptsOn(k) && s in k.semas
    case UpStep(s) => InterruptsOn(k) && s in k.semas
  }

  ghost function Do(k: State, step: Step): State
    requires Enabled(k, step)
  {
    match step
    case TickStep => Tick(k)
    case YieldStep => Yield(k)
    case ExitStep => Exit(k)
    case IdleStep => Block(k)
    case SpawnStep(t) => WithStatus(k, t, Blocked).(nascent := k.nascent + {t})
    case StartStep(t) => Unblock(k, t).(nascent := k.nascent - {t})
    case InitStep(s, v) => k.(semas := k.semas[s := Sema(v, [], v, 0, 0)])
    case DownStep(s) => TestDown(k, s)
    case RetestStep => TestDown(k, k.inDown[k.current])
    case TryDownStep(s) => if k.semas[s].value > 0 then Taken(k, s) else k
    case UpStep(s) => Up(k, s)
  }

  // ----- the invariant of thread.h -----

  ghost predicate Has(k: State, t: Tid, s: Status) { t in k.status && k.status[t] == s }

  /** The ready list holds exactly the ready threads other than idle, once each. */
  ghost predicate ReadyLists(k: State) {
    && Distinct(k.ready)
    && (forall t :: t in k.ready <==> Has(k, t, Ready) && t != IDLE)
    && IDLE in k.status && k.status[IDLE] != Dying && IDLE !in k.inDown && IDLE !in k.nascent
  }

  /** A wait list holds only blocked threads that are in sema_down on that semaphore, once each. */
  ghost predicate WaitersBlocked(k: State) {
    && (forall s :: s in k.semas ==> Distinct(k.semas[s].waiters))
    && (forall s, t :: s in k.semas && t in k.semas[s].waiters ==>
          t in k.inDown && k.inDown[t] == s && Has(k, t, Blocked))
  }

  /** Every blocked thread other than idle is on a wait list or has not been started. */
  ghost predicate BlockedWait(k: State) {
    && (forall t :: Has(k, t, Blocked) && t != IDLE && t !in k.nascent ==>
          t in k.inDown && k.inDown[t] in k.semas && t in k.semas[k.inDown[t]].waiters)
    && (forall t :: t in k.inDown ==> t in k.status && k.status[t] != Dying && k.inDown[t] in k.semas)
    && (forall t :: t in k.nascent ==> Has(k, t, Blocked) && t !in k.inDown)
  }

  ghost predicate WaitLists(k: State) { WaitersBlocked(k) && BlockedWait(k) }

  ghost predicate OneRunning(k: State) {
    && Has(k, k.current, Running)
    && (forall t :: Has(k, t, Running) ==> t == k.current)
    && k.ticks < TIME_SLICE
  }

  /** The threads that were woken from `s` and have not got around to testing it again. */
  ghost function Woken(k: State, s: SemaId): set<Tid> {
    set t | t in k.inDown && k.inDown[t] == s && !Has(k, t, Blocked)
  }

  /** No wakeup is lost: while threads wait, enough others are on their way to take the value. */
  ghost predicate NoLostWakeup(k: State) {
    forall s :: s in k.semas && k.semas[s].waiters != [] ==> |Woken(k, s)| >= k.semas[s].value
  }

  ghost predicate Counted(k: State) {
    forall s :: s in k.semas ==> k.semas[s].value == k.semas[s].initial + k.semas[s].ups - k.semas[s].downs
  }

  ghost predicate Inv(k: State) {
    ReadyLists(k) && WaitLists(k) && OneRunning(k) && NoLostWakeup(k) && Counted(k)
  }

  // ----- every step keeps the invariant -----

  /** A state on entry to schedule(): nobody is running. */
  ghost predicate Switching(k: State) {
    ReadyLists(k) && WaitLists(k) && forall t :: !Has(k, t, Running)
  }

  /** schedule() changes the status of the next thread and frees the previous one if it is dying. */
  lemma ScheduleStatus(k: State)
    requires ReadyLists(k)
    ensures var k' := Schedule(k);
            && (forall t :: Has(k', t, Ready) <==> Has(k, t, Ready) && t != k'.current)
            && (forall t :: Has(k', t, Blocked) <==> Has(k, t, Blocked) && t != k'.current)
            && (forall t :: Has(k', t, Running) ==> t == k'.current || Has(k, t, Running))
            && (forall t :: t in k.status && k.status[t] != Dying ==> t in k'.status && k'.status[t] != Dying)
            && Has(k', k'.current, Running) && k'.current in k.status
            && (k'.current != IDLE ==> Has(k, k'.current, Ready))
  {
    if k.ready != [] { assert k.ready[0] in k.ready; }
  }

  lemma ScheduleReady(k: State)
    requires ReadyLists(k)
    ensures ReadyLists(Schedule(k))
  {
    ScheduleStatus(k);
    var k' := Schedule(k);
    if k.ready != [] {
      assert forall t :: t in k.ready <==> t == k.ready[0] || t in k'.ready;
      assert k.ready[0] !in k'.ready;
    }
  }

  lemma ScheduleKeeps(k: State)
    requires Switching(k)
    ensures ReadyLists(Schedule(k)) && WaitLists(Schedule(k)) && OneRunning(Schedule(k))
  {
    ScheduleStatus(k);
    ScheduleReady(k);
  }

  /** Switching threads neither adds nor removes threads on their way out of a wait list. */
  lemma ScheduleWoken(k: State, s: SemaId)
    requires ReadyLists(k) && WaitLists(k)
    ensures Woken(Schedule(k), s) == Woken(k, s)
  {
    ScheduleStatus(k);
  }

  lemma BlockStruct(k: State)
    requires ReadyLists(k) && OneRunning(k)
    requires WaitLists(WithStatus(k, k.current, Blocked))
    ensures ReadyLists(Block(k)) && WaitLists(Block(k)) && OneRunning(Block(k))
  {
    var k1 := WithStatus(k, k.current, Blocked);
    assert forall t :: Has(k1, t, Ready) <==> Has(k, t, Ready);
    assert forall t :: Has(k1, t, Running) ==> Has(k, t, Running) && t != k.current;
    ScheduleKeeps(k1);
  }

  /** The wait lists stay right while the same threads are blocked on the same semaphores. */
  lemma SameWaitLists(k: State, k': State)
    requires WaitLists(k) && k'.nascent == k.nascent && k'.semas.Keys == k.semas.Keys
    requires forall s :: s in k.semas ==> k'.semas[s].waiters == k.semas[s].waiters
    requires forall t :: Has(k', t, Blocked) <==> Has(k, t, Blocked)
    requires forall t :: t in k'.inDown ==> t in k.inDown && k'.inDown[t] == k.inDown[t]
    requires forall t :: t in k.inDown && Has(k, t, Blocked) ==> t in k'.inDown
    requires forall t :: t in k'.inDown ==> t in k'.status && k'.status[t] != Dying
    ensures WaitLists(k')
  {
    assert forall s :: s in k'.semas <==> s in k.semas;
  }

  lemma YieldReadyLists(k: State)
    requires ReadyLists(k) && Has(k, k.current, Running) && k.current !in k.ready
    ensures ReadyLists(Yielding(k))
  {
    var k1 := Yielding(k);
    assert forall t :: Has(k1, t, Ready) <==> Has(k, t, Ready) || t == k.current;
  }

  lemma YieldSwitching(k: State)
    requires ReadyLists(k) && WaitLists(k) && Has(k, k.current, Running)
    requires forall t :: Has(k, t, Running) ==> t == k.current
    ensures Switching(Yielding(k))
  {
    var k1 := Yielding(k);
    YieldReadyLists(k);
    assert forall t :: Has(k1, t, Blocked) <==> Has(k, t, Blocked);
    assert forall t :: Has(k1, t, Running) ==> Has(k, t, Running) && t != k.current;
    SameWaitLists(k, k1);
  }

  lemma YieldStruct(k: State)
    requires ReadyLists(k) && WaitLists(k) && Has(k, k.current, Running)
    requires forall t :: Has(k, t, Running) ==> t == k.current
    ensures ReadyLists(Yield(k)) && WaitLists(Yield(k)) && OneRunning(Yield(k))
  {
    YieldSwitching(k);
    ScheduleKeeps(Yielding(k));
  }

  lemma ExitStruct(k: State)
    requires Inv(k) && Enabled(k, ExitStep)
    ensures ReadyLists(Exit(k)) && WaitLists(Exit(k)) && OneRunning(Exit(k))
  {
    var k1 := WithStatus(k, k.current, Dying);
    assert forall t :: Has(k1, t, Ready) <==> Has(k, t, Ready);
    assert forall t :: Has(k1, t, Blocked) <==> Has(k, t, Blocked);
    assert forall t :: Has(k1, t, Running) ==> Has(k, t, Running) && t != k.current;
    ScheduleKeeps(k1);
  }

  lemma UnblockStruct(k: State, t: Tid)
    requires ReadyLists(k) && OneRunning(k) && Has(k, t, Blocked) && t != IDLE
    ensures ReadyLists(Unblock(k, t)) && OneRunning(Unblock(k, t))
  {
    var k' := Unblock(k, t);
    assert t !in k.ready;
    assert forall u :: Has(k', u, Ready) <==> Has(k, u, Ready) || u == t;
    assert forall u :: Has(k', u, Running) <==> Has(k, u, Running);
  }

  lemma SpawnStruct(k: State, t: Tid)
    requires Inv(k) && Enabled(k, SpawnStep(t))
    ensures var k' := Do(k, SpawnStep(t)); ReadyLists(k') && WaitLists(k') && OneRunning(k')
  {
    var k' := Do(k, SpawnStep(t));
    assert forall u :: Has(k', u, Ready) <==> Has(k, u, Ready);
    assert forall u :: Has(k', u, Running) <==> Has(k, u, Running);
    assert forall u :: Has(k', u, Blocked) <==> Has(k, u, Blocked) || u == t;
  }

  lemma StartStruct(k: State, t: Tid)
    requires Inv(k) && Enabled(k, StartStep(t))
    ensures var k' := Do(k, StartStep(t)); ReadyLists(k') && WaitLists(k') && OneRunning(k')
  {
    var k' := Do(k, StartStep(t));
    UnblockStruct(k, t);
    assert forall u :: Has(k', u, Ready) <==> Has(k, u, Ready) || u == t;
    assert forall u :: Has(k', u, Blocked) <==> Has(k, u, Blocked) && u != t;
    assert forall u :: Has(k', u, Running) <==> Has(k, u, Running);
  }

  lemma EnqueueStatus(k: State, s: SemaId)
    requires s in k.semas && OneRunning(k)
    ensures var k2 := WithStatus(Enqueued(k, s), k.current, Blocked);
            && (forall u :: Has(k2, u, Blocked) <==> Has(k, u, Blocked) || u == k.current)
            && (forall u :: Has(k2, u, Ready) <==> Has(k, u, Ready))
            && (forall u :: !Has(k2, u, Running))
  {
    var k2 := WithStatus(Enqueued(k, s), k.current, Blocked);
    assert forall u :: Has(k2, u, Running) ==> Has(k, u, Running) && u != k.current;
  }

  lemma EnqueueWaiters(k: State, s: SemaId)
    requires WaitersBlocked(k) && OneRunning(k) && s in k.semas
    ensures WaitersBlocked(WithStatus(Enqueued(k, s), k.current, Blocked))
  {
    var k2 := WithStatus(Enqueued(k, s), k.current, Blocked);
    EnqueueStatus(k, s);
    assert !Has(k, k.current, Blocked);
    assert k.current !in k.semas[s].waiters;
    assert k2.semas[s].waiters == k.semas[s].waiters + [k.current];
  }

  lemma EnqueueWaiting(k: State, s: SemaId)
    requires BlockedWait(k) && OneRunning(k) && s in k.semas
    requires k.current in k.inDown ==> k.inDown[k.current] == s
    ensures BlockedWait(WithStatus(Enqueued(k, s), k.current, Blocked))
  {
    var k2 := WithStatus(Enqueued(k, s), k.current, Blocked);
    EnqueueStatus(k, s);
    assert k2.semas[s].waiters == k.semas[s].waiters + [k.current];
  }

  lemma EnqueueSwitching(k: State, s: SemaId)
    requires Inv(k) && s in k.semas && k.current != IDLE && (k.current in k.inDown ==> k.inDown[k.current] == s)
    ensures Switching(WithStatus(Enqueued(k, s), k.current, Blocked))
  {
    EnqueueStatus(k, s);
    EnqueueWaiters(k, s);
    EnqueueWaiting(k, s);
  }

  lemma TakenStruct(k: State, s: SemaId)
    requires Inv(k) && s in k.semas && k.semas[s].value > 0
    ensures var k' := Taken(k, s); ReadyLists(k') && WaitLists(k') && OneRunning(k')
  {
    var k' := Taken(k, s);
    assert forall u, st :: Has(k', u, st) <==> Has(k, u, st);
    assert k'.semas.Keys == k.semas.Keys;
    SameWaitLists(k, k');
  }

  lemma UpStruct(k: State, s: SemaId)
    requires Inv(k) && s in k.semas
    ensures ReadyLists(Up(k, s)) && WaitLists(Up(k, s)) && OneRunning(Up(k, s))
  {
    var sema, k' := k.semas[s], Up(k, s);
    if sema.waiters != [] {
      var w := sema.waiters[0];
      assert w in sema.waiters;
      UnblockStruct(k, w);
      assert forall u :: u in sema.waiters <==> u == w || u in sema.waiters[1..];
      assert w !in sema.waiters[1..];
      assert forall u :: Has(k', u, Ready) <==> Has(k, u, Ready) || u == w;
      assert forall u :: Has(k', u, Blocked) <==> Has(k, u, Blocked) && u != w;
      assert forall u :: Has(k', u, Running) <==> Has(k, u, Running);
    } else {
      assert forall u, st :: Has(k', u, st) <==> Has(k, u, st);
    }
  }

  // ----- wakeups and counts -----

  lemma SameWoken(k: State, k': State, s: SemaId)
    requires k'.inDown == k.inDown
    requires forall t :: t in k.inDown && k.inDown[t] == s ==> (Has(k', t, Blocked) <==> Has(k, t, Blocked))
    ensures Woken(k', s) == Woken(k, s)
  {
  }

  /** A step that leaves the semaphores and the threads inside sema_down alone. */
  lemma KeepsWakeups(k: State, k': State)
    requires NoLostWakeup(k) && Counted(k) && k'.semas == k.semas
    requires forall s :: s in k.semas ==> Woken(k', s) == Woken(k, s)
    ensures NoLostWakeup(k') && Counted(k')
  {
  }

  lemma SwitchWakeups(k: State, k1: State)
    requires Inv(k) && ReadyLists(k1) && WaitLists(k1) && k1.semas == k.semas && k1.inDown == k.inDown
    requires forall t :: t in k.inDown ==> (Has(k1, t, Blocked) <==> Has(k, t, Blocked))
    ensures NoLostWakeup(Schedule(k1)) && Counted(Schedule(k1))
  {
    forall s | s in k.semas ensures Woken(Schedule(k1), s) == Woken(k, s) {
      SameWoken(k, k1, s);
      ScheduleWoken(k1, s);
    }
    KeepsWakeups(k, Schedule(k1));
  }

  lemma EnqueueOthers(k: State, s: SemaId, r: SemaId)
    requires Inv(k) && s in k.semas && k.current != IDLE && r != s
    requires k.current in k.inDown ==> k.inDown[k.current] == s
    ensures Woken(Block(Enqueued(k, s)), r) == Woken(k, r)
  {
    var k2 := WithStatus(Enqueued(k, s), k.current, Blocked);
    EnqueueSwitching(k, s);
    EnqueueStatus(k, s);
    ScheduleWoken(k2, r);
    assert Woken(k2, r) == Woken(k, r);
  }

  lemma EnqueueWakeups(k: State, s: SemaId)
    requires Inv(k) && s in k.semas && k.current != IDLE && k.semas[s].value == 0
    requires k.current in k.inDown ==> k.inDown[k.current] == s
    ensures var k' := Block(Enqueued(k, s)); NoLostWakeup(k') && Counted(k')
  {
    forall r | r in k.semas && r != s ensures Woken(Block(Enqueued(k, s)), r) == Woken(k, r) {
      EnqueueOthers(k, s, r);
    }
  }

  lemma TakenWoken(k: State, s: SemaId, r: SemaId)
    requires s in k.semas && k.semas[s].value > 0
    requires k.current in k.inDown ==> k.inDown[k.current] == s
    ensures Woken(Taken(k, s), r) == if r == s then Woken(k, s) - {k.current} else Woken(k, r)
  {
    assert forall t :: Has(Taken(k, s), t, Blocked) <==> Has(k, t, Blocked);
  }

  lemma TakenWakeups(k: State, s: SemaId)
    requires NoLostWakeup(k) && Counted(k) && s in k.semas && k.semas[s].value > 0
    requires k.current in k.inDown ==> k.inDown[k.current] == s
    ensures NoLostWakeup(Taken(k, s)) && Counted(Taken(k, s))
  {
    var k' := Taken(k, s);
    forall r | r in k'.semas && k'.semas[r].waiters != [] ensures |Woken(k', r)| >= k'.semas[r].value {
      TakenWoken(k, s, r);
      assert k.semas[r].waiters != [];
    }
  }

  lemma UpWakeups(k: State, s: SemaId)
    requires Inv(k) && s in k.semas
    ensures NoLostWakeup(Up(k, s)) && Counted(Up(k, s))
  {
    var sema, k' := k.semas[s], Up(k, s);
    if sema.waiters != [] {
      var w := sema.waiters[0];
      assert w in sema.waiters;
      assert forall u :: Has(k', u, Blocked) <==> Has(k, u, Blocked) && u != w;
      assert Woken(k', s) == Woken(k, s) + {w} && w !in Woken(k, s);
      forall r | r in k.semas && r != s ensures Woken(k', r) == Woken(k, r) {
      }
    } else {
      forall r | r in k.semas ensures Woken(k', r) == Woken(k, r) {
        SameWoken(k, k', r);
      }
    }
  }

  lemma PlainWakeups(k: State, k': State)
    requires Inv(k) && k'.semas == k.semas && k'.inDown == k.inDown
    requires forall t :: t in k.inDown ==> (Has(k', t, Blocked) <==> Has(k, t, Blocked))
    ensures NoLostWakeup(k') && Counted(k')
  {
    forall s | s in k.semas ensures Woken(k', s) == Woken(k, s) { SameWoken(k, k', s); }
    KeepsWakeups(k, k');
  }

  lemma TestDownKeeps(k: State, s: SemaId)
    requires Inv(k) && s in k.semas && k.current != IDLE && (k.current in k.inDown ==> k.inDown[k.current] == s)
    ensures Inv(TestDown(k, s))
  {
    if k.semas[s].value == 0 {
      EnqueueSwitching(k, s);
      ScheduleKeeps(WithStatus(Enqueued(k, s), k.current, Blocked));
      EnqueueWakeups(k, s);
    } else {
      TakenStruct(k, s);
      TakenWakeups(k, s);
    }
  }

  lemma YieldKeeps(k: State, k1: State)
    requires Inv(k) && k1 == k.(ticks := k1.ticks, clock := k1.clock)
    ensures Inv(Yield(k1))
  {
    assert forall t, st :: Has(k1, t, st) <==> Has(k, t, st);
    YieldStruct(k1);
    var k2 := Yielding(k1);
    YieldSwitching(k1);
    assert forall t :: Has(k2, t, Blocked) <==> Has(k, t, Blocked);
    SwitchWakeups(k, k2);
  }

  lemma ExitKeeps(k: State)
    requires Inv(k) && Enabled(k, ExitStep)
    ensures Inv(Exit(k))
  {
    ExitStruct(k);
    var k1 := WithStatus(k, k.current, Dying);
    assert forall t :: Has(k1, t, Ready) <==> Has(k, t, Ready);
    assert forall t :: Has(k1, t, Blocked) <==> Has(k, t, Blocked);
    SwitchWakeups(k, k1);
  }

  lemma IdleKeeps(k: State)
    requires Inv(k) && Enabled(k, IdleStep)
    ensures Inv(Block(k))
  {
    var k1 := WithStatus(k, k.current, Blocked);
    assert forall t :: Has(k1, t, Blocked) <==> Has(k, t, Blocked) || t == IDLE;
    assert forall t :: Has(k1, t, Ready) <==> Has(k, t, Ready);
    BlockStruct(k);
    SwitchWakeups(k, k1);
  }

  lemma InitKeeps(k: State, s: SemaId, v: nat)
    requires Inv(k) && Enabled(k, InitStep(s, v))
    ensures Inv(Do(k, InitStep(s, v)))
  {
    var k' := Do(k, InitStep(s, v));
    assert forall t, st :: Has(k', t, st) <==> Has(k, t, st);
    forall r | r in k.semas ensures Woken(k', r) == Woken(k, r) { SameWoken(k, k', r); }
  }

  lemma SameSlice(k: State, k1: State)
    requires Inv(k) && k1 == k.(ticks := k1.ticks, clock := k1.clock) && k1.ticks < TIME_SLICE
    ensures Inv(k1)
  {
    assert forall t, st :: Has(k1, t, st) <==> Has(k, t, st);
    PlainWakeups(k, k1);
  }

  lemma TickKeeps(k: State)
    requires Inv(k)
    ensures Inv(Tick(k))
  {
    var k1 := k.(ticks := k.ticks + 1, clock := k.clock + 1);
    if k1.ticks >= TIME_SLICE { YieldKeeps(k, k1); } else { SameSlice(k, k1); }
  }

  lemma NewThreadKeeps(k: State, step: Step)
    requires Inv(k) && Enabled(k, step) && (step.SpawnStep? || step.StartStep?)
    ensures Inv(Do(k, step))
  {
    if step.SpawnStep? { SpawnStruct(k, step.t); } else { StartStruct(k, step.t); }
    PlainWakeups(k, Do(k, step));
  }

  lemma SemaKeeps(k: State, step: Step)
    requires Inv(k) && Enabled(k, step) && (step.TryDownStep? || step.UpStep?)
    ensures Inv(Do(k, step))
  {
    if step.UpStep? {
      UpStruct(k, step.s);
      UpWakeups(k, step.s);
    } else if k.semas[step.s].value > 0 {
      TakenStruct(k, step.s);
      TakenWakeups(k, step.s);
    }
  }

  /** Every atomic step keeps the invariant. */
  lemma StepKeeps(k: State, step: Step)
    requires Inv(k) && Enabled(k, step)
    ensures Inv(Do(k, step))
  {
    match step
    case TickStep => TickKeeps(k);
    case YieldStep => YieldKeeps(k, k);
    case ExitStep => ExitKeeps(k);
    case IdleStep => IdleKeeps(k);
    case InitStep(s, v) => InitKeeps(k, s, v);
    case DownStep(s) => TestDownKeeps(k, s);
    case RetestStep => TestDownKeeps(k, k.inDown[k.current]);
    case SpawnStep(_) => NewThreadKeeps(k, step);
    case StartStep(_) => NewThreadKeeps(k, step);
    case TryDownStep(_) => SemaKeeps(k, step);
    case UpStep(_) => SemaKeeps(k, step);
  }

  // ----- whole runs -----

  /** Step `i` leads from state `i` to the next. */
  ghost predicate StepAt(trace: seq<State>, steps: seq<Step>, i: nat) {
    i < |steps| && i + 1 < |trace| && Enabled(trace[i], steps[i]) && trace[i + 1] == Do(trace[i], steps[i])
  }

  ghost predicate IsRun(trace: seq<State>, steps: seq<Step>) {
    |trace| == |steps| + 1 && forall i :: 0 <= i < |steps| ==> StepAt(trace, steps, i)
  }

  /** The state that thread_start leaves: the initial thread runs, idle has blocked. */
  ghost predicate Booted(k: State) {
    && k.status == map[IDLE := Blocked, INITIAL := Running]
    && k.ready == [] && k.current == INITIAL && k.ticks < TIME_SLICE
    && k.inDown == map[] && k.nascent == {}
    && Counted(k)
    && forall s :: s in k.semas ==> k.semas[s].waiters == []
  }

  lemma {:induction false} RunKeeps(trace: seq<State>, steps: seq<Step>, i: nat)
    requires IsRun(trace, steps) && Inv(trace[0]) && i < |trace|
    ensures Inv(trace[i])
  {
    if i > 0 {
      RunKeeps(trace, steps, i - 1);
      assert StepAt(trace, steps, i - 1);
      StepKeeps(trace[i - 1], steps[i - 1]);
    }
  }

  /** A thread's `elem` is on at most one list, and on it at most once. */
  ghost predicate OnOneList(k: State) {
    && Distinct(k.ready)
    && (forall s :: s in k.semas ==> Distinct(k.semas[s].waiters))
    && (forall s, t :: s in k.semas && t in k.semas[s].waiters ==> t !in k.ready)
    && (forall r, s, t :: r in k.semas && s in k.semas && t in k.semas[r].waiters && t in k.semas[s].waiters ==> r == s)
  }

  lemma OneList(k: State)
    requires Inv(k)
    ensures OnOneList(k)
  {
    forall s, t | s in k.semas && t in k.semas[s].waiters ensures t !in k.ready {
      assert Has(k, t, Blocked) && !Has(k, t, Ready);
    }
    forall r, s, t | r in k.semas && s in k.semas && t in k.semas[r].waiters && t in k.semas[s].waiters
      ensures r == s
    {
      assert k.inDown[t] == r && k.inDown[t] == s;
    }
  }

  /** In every reachable state exactly one thread runs, the ready list holds exactly the ready
      threads other than idle, no thread's list element is on two lists, the values of the
      semaphores balance, and no wakeup is lost. */
  lemma Reachable(trace: seq<State>, steps: seq<Step>, i: nat)
    requires IsRun(trace, steps) && Booted(trace[0]) && i < |trace|
    ensures Inv(trace[i]) && OnOneList(trace[i])
  {
    RunKeeps(trace, steps, i);
    OneList(trace[i]);
  }

  /** If a semaphore could be taken while threads wait for it, some thread that was woken from it is
      the current one or has a place on the ready list. */
  lemma WakeupIsScheduled(k: State, s: SemaId) returns (t: Tid)
    requires Inv(k) && s in k.semas && k.semas[s].waiters != [] && k.semas[s].value > 0
    ensures t in k.inDown && k.inDown[t] == s && (t == k.current || t in k.ready)
  {
    assert Woken(k, s) != {};
    t :| t in Woken(k, s);
    assert Has(k, t, Ready) || Has(k, t, Running);
  }

  // ----- bounded waiting -----

  /** A step either leaves a place in the ready list alone, or is a call of schedule() that moves
      it one place to the front, where the first place means running. */
  lemma StepMoves(k: State, step: Step, p: nat)
    requires Inv(k) && Enabled(k, step) && p < |k.ready|
    ensures var k' := Do(k, step);
            || (k'.scheds == k.scheds && p < |k'.ready| && k'.ready[p] == k.ready[p])
            || (k'.scheds == k.scheds + 1 && p == 0 && k'.current == k.ready[0])
            || (k'.scheds == k.scheds + 1 && p > 0 && p - 1 < |k'.ready| && k'.ready[p - 1] == k.ready[p])
  {
  }

  /** schedule() is called at least once in every TIME_SLICE ticks. */
  lemma StepClock(k: State, step: Step)
    requires Inv(k) && Enabled(k, step)
    ensures var k' := Do(k, step);
            TIME_SLICE * (k'.scheds - k.scheds) + k'.ticks >= k'.clock - k.clock + k.ticks
  {
  }

  lemma {:induction false} RunClock(trace: seq<State>, steps: seq<Step>, j: nat)
    requires IsRun(trace, steps) && Inv(trace[0]) && j < |trace|
    ensures TIME_SLICE * (trace[j].scheds - trace[0].scheds) + trace[j].ticks >= trace[j].clock - trace[0].clock
  {
    if j > 0 {
      RunClock(trace, steps, j - 1);
      RunKeeps(trace, steps, j - 1);
      assert StepAt(trace, steps, j - 1);
      StepClock(trace[j - 1], steps[j - 1]);
    }
  }

  /** Only the current thread enters or leaves sema_down. */
  lemma StepOthers(k: State, step: Step, t: Tid)
    requires Inv(k) && Enabled(k, step) && t != k.current
    ensures t in Do(k, step).inDown <==> t in k.inDown
    ensures t in k.inDown ==> Do(k, step).inDown[t] == k.inDown[t]
  {
  }

  ghost predicate SameDown(k: State, k': State, t: Tid) {
    (t in k.inDown <==> t in k'.inDown) && (t in k.inDown ==> k'.inDown[t] == k.inDown[t])
  }

  /** Thread `t`, at place `p` of the ready list in state `k0`, has moved up one place for every
      call of schedule() since. */
  ghost predicate InLine(k0: State, k: State, t: Tid, p: nat) {
    var m := k.scheds - k0.scheds;
    0 <= m <= p && p - m < |k.ready| && k.ready[p - m] == t && SameDown(k0, k, t)
  }

  /** Right after the (p+1)-th call of schedule(), thread `t` runs, where it left off. */
  ghost predicate GotItsTurn(k0: State, k: State, t: Tid, p: nat) {
    k.current == t && k.scheds == k0.scheds + p + 1 && SameDown(k0, k, t)
  }

  lemma LineMoves(k0: State, k: State, step: Step, t: Tid, p: nat)
    requires Inv(k) && Enabled(k, step) && InLine(k0, k, t, p)
    ensures InLine(k0, Do(k, step), t, p) || GotItsTurn(k0, Do(k, step), t, p)
  {
    var q := p - (k.scheds - k0.scheds);
    assert k.ready[q] in k.ready && Has(k, t, Ready);
    StepMoves(k, step, q);
    StepOthers(k, step, t);
  }

  lemma StepCounts(k: State, step: Step)
    requires Enabled(k, step)
    ensures k.scheds <= Do(k, step).scheds
  {
  }

  /** By state `j` of a run the thread at place `p` of its first ready list has had its turn. */
  ghost predicate HadItsTurn(trace: seq<State>, p: nat, j: nat)
    requires j < |trace| && p < |trace[0].ready|
  {
    exists i :: 0 <= i <= j && GotItsTurn(trace[0], trace[i], trace[0].ready[p], p)
  }

  /** A thread at place `p` of the ready list keeps moving up, one place for every call of
      schedule(), and runs after the (p+1)-th call. */
  lemma {:induction false} WaitsItsTurn(trace: seq<State>, steps: seq<Step>, p: nat, j: nat)
    requires IsRun(trace, steps) && Inv(trace[0]) && p < |trace[0].ready| && j < |trace|
    ensures InLine(trace[0], trace[j], trace[0].ready[p], p)
            || (trace[j].scheds > trace[0].scheds + p && HadItsTurn(trace, p, j))
  {
    if j > 0 {
      WaitsItsTurn(trace, steps, p, j - 1);
      RunKeeps(trace, steps, j - 1);
      assert StepAt(trace, steps, j - 1);
      if InLine(trace[0], trace[j - 1], trace[0].ready[p], p) {
        LineMoves(trace[0], trace[j - 1], steps[j - 1], trace[0].ready[p], p);
        assert GotItsTurn(trace[0], trace[j], trace[0].ready[p], p) ==> HadItsTurn(trace, p, j);
      } else {
        assert HadItsTurn(trace, p, j - 1);
        StepCounts(trace[j - 1], steps[j - 1]);
      }
    }
  }

  /** Bounded waiting: a thread at place `p` of the ready list has run once TIME_SLICE * (p + 1)
      timer ticks have passed. If it was woken from a semaphore, it then tests it again. */
  lemma BoundedWaiting(trace: seq<State>, steps: seq<Step>, p: nat, j: nat)
    requires IsRun(trace, steps) && Inv(trace[0]) && p < |trace[0].ready| && j < |trace|
    requires trace[j].clock - trace[0].clock >= TIME_SLICE * (p + 1)
    ensures HadItsTurn(trace, p, j)
  {
    RunClock(trace, steps, j);
    RunKeeps(trace, steps, j);
    WaitsItsTurn(trace, steps, p, j);
  }

  // ----- the code -----

  /** The scheduler's variables and the code that updates them. Each method is one atomic step. */
  class Kernel {
    var status: map<Tid, Status>
    var readyList: seq<Tid>
    var current: Tid
    var threadTicks: nat
    var semas: map<SemaId, Sema>
    ghost var inDown: map<Tid, SemaId>
    ghost var nascent: set<Tid>
    ghost var scheds: nat
    ghost var clock: nat

    ghost function View(): State
      reads this
    {
      State(status, readyList, current, threadTicks, semas, inDown, nascent, scheds, clock)
    }

    /** next_thread_to_run. */
    method NextThreadToRun() returns (next: Tid)
      modifies this`readyList
      ensures next == if old(readyList) == [] then IDLE else old(readyList)[0]
      ensures readyList == if old(readyList) == [] then [] else old(readyList)[1..]
    {
      if readyList == [] {
        next := IDLE;
      } else {
        next := readyList[0];
        readyList := readyList[1..];
      }
    }

    /** thread_schedule_tail, run by the thread that was switched to. */
    method ScheduleTail(switched: bool, prev: Tid)
      requires prev in status
      modifies this`status, this`threadTicks
      ensures threadTicks == 0
      ensures var s := old(status)[current := Running];
              status == if switched && s[prev] == Dying && prev != INITIAL then s - {prev} else s
    {
      status := status[current := Running];
      threadTicks := 0;
      if switched && status[prev] == Dying && prev != INITIAL {
        status := status - {prev};
      }
    }

    /** schedule. */
    method RunSchedule()
      requires current in status && status[current] != Running
      modifies this
      ensures View() == Schedule(old(View()))
    {
      var cur := current;
      var next := NextThreadToRun();
      current := next;
      ScheduleTail(cur != next, cur);
      scheds := scheds + 1;
    }

    method ThreadBlock()
      requires current in status
      modifies this
      ensures View() == Block(old(View()))
    {
      status := status[current := Blocked];
      RunSchedule();
    }

    method ThreadUnblock(t: Tid)
      requires t in status && status[t] == Blocked
      modifies this
      ensures View() == Unblock(old(View()), t)
    {
      readyList := readyList + [t];
      status := status[t := Ready];
    }

    method ThreadYield()
      requires current in status
      modifies this
      ensures View() == Yield(old(View()))
    {
      if current != IDLE {
        readyList := readyList + [current];
      }
      status := status[current := Ready];
      RunSchedule();
    }

    /** The end of thread_exit. */
    method ThreadExit()
      requires current in status
      modifies this
      ensures View() == Exit(old(View()))
    {
      status := status[current := Dying];
      RunSchedule();
    }

    /** thread_tick, called by the timer interrupt, and the yield on return from the interrupt. */
    method ThreadTick()
      requires current in status
      modifies this
      ensures View() == Tick(old(View()))
    {
      threadTicks := threadTicks + 1;
      clock := clock + 1;
      if threadTicks >= TIME_SLICE {
        ThreadYield();
      }
    }

    /** sema_down up to the point where it has taken the semaphore (`done`) or has blocked; a thread
        that blocked calls it again when it runs next. */
    method SemaDown(s: SemaId) returns (done: bool)
      requires s in semas && current in status
      modifies this
      ensures View() == TestDown(old(View()), s) && (done <==> old(semas[s].value) > 0)
    {
      var sema := semas[s];
      done := sema.value != 0;
      if !done {
        semas := semas[s := sema.(waiters := sema.waiters + [current])];
        inDown := inDown[current := s];
        ThreadBlock();
      } else {
        semas := semas[s := sema.(value := sema.value - 1, downs := sema.downs + 1)];
        inDown := inDown - {current};
      }
    }

    method SemaTryDown(s: SemaId) returns (success: bool)
      requires s in semas && current !in inDown
      modifies this
      ensures success <==> old(semas[s].value) > 0
      ensures View() == if success then Taken(old(View()), s) else old(View())
    {
      var sema := semas[s];
      if sema.value > 0 {
        semas := semas[s := sema.(value := sema.value - 1, downs := sema.downs + 1)];
        success := true;
        assert inDown == inDown - {current};
      } else {
        success := false;
      }
    }

    method SemaUp(s: SemaId)
      requires Inv(View()) && s in semas
      modifies this
      ensures View() == Up(old(View()), s)
    {
      var sema := semas[s];
      if sema.waiters != [] {
        var w := sema.waiters[0];
        assert w in sema.waiters;
        assert Has(View(), w, Blocked);
        ThreadUnblock(w);
        sema := sema.(waiters := sema.waiters[1..]);
      }
      semas := semas[s := sema.(value := sema.value + 1, ups := sema.ups + 1)];
    }
  }
}
