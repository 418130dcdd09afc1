/** Locks and condition variables as a transition system over the scheduler's. Every statement of
    lock_acquire, lock_release, cond_wait, cond_signal and cond_broadcast that another thread can
    observe is a step of its own, so a thread may be preempted between any two of them. */
module Monitor {

  import opened Scheduler
  import opened Basics
  import opened Sequences

  type LockId = nat
  type CondId = nat

  /** Where a thread is inside synch.c. */
  datatype Pc =
    | Client                                        // anywhere else, or in sema_down on a plain semaphore
    | InAcquire(l: LockId)                          // in sema_down on the lock's semaphore
    | GotSema(l: LockId)                            // that sema_down has returned, `holder` is not set yet
    | Cleared(l: LockId, wait: Option<CondId>)      // `holder` is cleared, sema_up is still to come
    | WaitPushed(c: CondId)                         // cond_wait: on the condition's list, lock still held
    | WaitDown(c: CondId)                           // cond_wait: lock released, about to sema_down
    | InWait(c: CondId)                             // cond_wait: in sema_down on its own semaphore
    | WaitAcquire(c: CondId)                        // cond_wait: signaled, about to acquire the lock
    | SignalUp(c: CondId, w: Tid, all: bool)        // has taken `w` off the list, about to sema_up
    | Broadcasting(c: CondId)                       // at the loop condition of cond_broadcast

  /** `owner` records which thread has downed the semaphore of a lock and not upped it, `pushed` and
      `popped` the order in which threads were put on and taken off the list of a condition. */
  datatype MState = MState(
    k: State,
    pc: map<Tid, Pc>,
    holder: map<LockId, Tid>,
    owner: map<LockId, Tid>,
    lockOf: map<CondId, LockId>,
    queue: map<CondId, seq<Tid>>,
    pushed: map<CondId, seq<Tid>>,
    popped: map<CondId, seq<Tid>>)

  datatype MStep =
    | KernelStep(step: Step)
    | AcquireStep(l: LockId) | RetestAcquire | SetHolder | TryAcquire(l: LockId)
    | ReleaseStep(l: LockId) | UpLock
    | WaitStep(c: CondId) | ClearForWait | WaitSleep | RetestWait
    | SignalStep(c: CondId) | UpWaiter | BroadcastStep(c: CondId) | BroadcastNext

  ghost predicate IsLock(m: MState, l: LockId) { OfLock(l) in m.k.semas }

  ghost predicate IsCond(m: MState, c: CondId) {
    c in m.lockOf && IsLock(m, m.lockOf[c]) && c in m.queue && c in m.pushed && c in m.popped
  }

  ghost predicate Holds(m: MState, l: LockId, t: Tid) { l in m.holder && m.holder[l] == t }

  ghost predicate HoldsFor(m: MState, c: CondId, t: Tid) { IsCond(m, c) && Holds(m, m.lockOf[c], t) }

  ghost predicate At(m: MState, pc: Pc) { m.k.current in m.pc && m.pc[m.k.current] == pc }

  /** The kernel steps that code outside of synch.c, or an interrupt handler, takes. */
  ghost predicate OutsideStep(m: MState, step: Step) {
    match step
    case ExitStep => At(m, Client) && forall l :: l in m.holder ==> m.holder[l] != m.k.current
    case InitStep(s, _) => At(m, Client) && s.Plain?
    case DownStep(s) => At(m, Client) && s.Plain?
    case RetestStep => At(m, Client)
    case TryDownStep(s) => s.Plain?
    case UpStep(s) => s.Plain?
    case _ => true
  }

  /** Where the current thread is. */
  ghost function Now(m: MState): Pc { if m.k.current in m.pc then m.pc[m.k.current] else Client }

  ghost predicate Free(m: MState) { InterruptsOn(m.k) && m.k.current != IDLE && m.k.current in m.pc }

  /** The current thread is back in a loop of sema_down after having been blocked there. */
  ghost predicate Resumed(m: MState) { Enabled(m.k, RetestStep) && m.k.current in m.pc }

  /** A step is enabled at its place in the code, when the assertions of synch.c hold. */
  ghost predicate MEnabled(m: MState, step: MStep) {
    var t, pc := m.k.current, Now(m);
    match step
    case KernelStep(s) => Enabled(m.k, s) && OutsideStep(m, s)
    case AcquireStep(l) =>
      Free(m) && IsLock(m, l) && !Holds(m, l, t) &&
      (pc == Client || (pc.WaitAcquire? && IsCond(m, pc.c) && l == m.lockOf[pc.c]))
    case RetestAcquire => Resumed(m) && pc.InAcquire? && IsLock(m, pc.l)
    case SetHolder => Free(m) && pc.GotSema?
    case TryAcquire(l) => Free(m) && pc == Client && IsLock(m, l) && !Holds(m, l, t)
    case ReleaseStep(l) => Free(m) && pc == Client && IsLock(m, l) && Holds(m, l, t)
    case UpLock => Free(m) && pc.Cleared? && IsLock(m, pc.l)
    case WaitStep(c) => Free(m) && pc == Client && HoldsFor(m, c, t)
    case ClearForWait => Free(m) && pc.WaitPushed? && IsCond(m, pc.c)
    case WaitSleep => Free(m) && pc.WaitDown? && OfWaiter(t) in m.k.semas
    case RetestWait => Resumed(m) && pc.InWait? && OfWaiter(t) in m.k.semas
    case SignalStep(c) => Free(m) && pc == Client && HoldsFor(m, c, t)
    case UpWaiter => Free(m) && pc.SignalUp? && OfWaiter(pc.w) in m.k.semas
    case BroadcastStep(c) => Free(m) && pc == Client && HoldsFor(m, c, t)
    case BroadcastNext => Free(m) && pc.Broadcasting? && IsCond(m, pc.c)
  }

  ghost function Goto(m: MState, pc: Pc): MState { m.(pc := m.pc[m.k.current := pc]) }

  /** The current thread has tested the semaphore of a lock, which led to kernel state `k'`. */
  ghost function TestLock(m: MState, l: LockId, k': State): MState
    requires IsLock(m, l)
  {
    var got := m.k.semas[OfLock(l)].value > 0;
    Goto(m, if got then GotSema(l) else InAcquire(l))
      .(k := k', owner := if got then m.owner[l := m.k.current] else m.owner)
  }

  /** The current thread has tested its own semaphore in cond_wait. */
  ghost function TestWait(m: MState, c: CondId, k': State): MState
    requires OfWaiter(m.k.current) in m.k.semas
  {
    Goto(m, if m.k.semas[OfWaiter(m.k.current)].value > 0 then WaitAcquire(c) else InWait(c)).(k := k')
  }

  /** The last statement of lock_release. */
  ghost function LockUpped(m: MState, k': State): MState
    requires Now(m).Cleared?
  {
    var pc := Now(m);
    Goto(m, if pc.wait.None? then Client else WaitDown(pc.wait.value)).(k := k', owner := m.owner - {pc.l})
  }

  /** The last statement of cond_signal. */
  ghost function WaiterUpped(m: MState, k': State): MState
    requires Now(m).SignalUp?
  {
    Goto(m, if Now(m).all then Broadcasting(Now(m).c) else Client).(k := k')
  }

  /** Takes the front waiter off the list of a condition. */
  ghost function Pop(m: MState, c: CondId, all: bool): MState
    requires IsCond(m, c) && m.queue[c] != []
  {
    Goto(m, SignalUp(c, m.queue[c][0], all))
      .(queue := m.queue[c := m.queue[c][1..]], popped := m.popped[c := m.popped[c] + [m.queue[c][0]]])
  }

  /** A kernel step that leads to `k'`; threads that it creates start outside of synch.c. */
  ghost function Stepped(m: MState, k': State): MState {
    m.(k := k', pc := map u | u in k'.status :: if u in m.pc then m.pc[u] else Client)
  }

  ghost function MDo(m: MState, step: MStep): MState
    requires MEnabled(m, step)
  {
    var t, pc := m.k.current, Now(m);
    match step
    case KernelStep(s) => Stepped(m, Do(m.k, s))
    case AcquireStep(l) => TestLock(m, l, TestDown(m.k, OfLock(l)))
    case RetestAcquire => TestLock(m, pc.l, TestDown(m.k, OfLock(pc.l)))
    case SetHolder => Goto(m, Client).(holder := m.holder[pc.l := t])
    case TryAcquire(l) => if m.k.semas[OfLock(l)].value > 0 then TestLock(m, l, Taken(m.k, OfLock(l))) else m
    case ReleaseStep(l) => Goto(m, Cleared(l, None)).(holder := m.holder - {l})
    case UpLock => LockUpped(m, Up(m.k, OfLock(pc.l)))
    case WaitStep(c) =>
      Goto(m, WaitPushed(c)).(k := m.k.(semas := m.k.semas[OfWaiter(t) := Sema(0, [], 0, 0, 0)]),
                              queue := m.queue[c := m.queue[c] + [t]],
                              pushed := m.pushed[c := m.pushed[c] + [t]])
    case ClearForWait =>
      Goto(m, Cleared(m.lockOf[pc.c], Some(pc.c))).(holder := m.holder - {m.lockOf[pc.c]})
    case WaitSleep => TestWait(m, pc.c, TestDown(m.k, OfWaiter(t)))
    case RetestWait => TestWait(m, pc.c, TestDown(m.k, OfWaiter(t)))
    case SignalStep(c) => if m.queue[c] == [] then m else Pop(m, c, false)
    case UpWaiter => WaiterUpped(m, Up(m.k, OfWaiter(pc.w)))
    case BroadcastStep(c) => Goto(m, Broadcasting(c))
    case BroadcastNext => if m.queue[pc.c] == [] then Goto(m, Client) else Pop(m, pc.c, true)
  }

  // ----- the invariant -----

  ghost function Value(m: MState, s: SemaId): nat { if s in m.k.semas then m.k.semas[s].value else 0 }

  /** A signal for thread `w` has been taken from the list of `c` and is about to be delivered. */
  ghost predicate InFlight(m: MState, c: CondId, w: Tid) {
    && c in m.lockOf && m.lockOf[c] in m.holder && m.holder[m.lockOf[c]] in m.pc
    && var pc := m.pc[m.holder[m.lockOf[c]]];
       pc.SignalUp? && pc.c == c && pc.w == w
  }

  /** A thread that has released the lock to wait is on the list, or is about to get its signal, or
      has got it: exactly one of the three. */
  ghost predicate Waiting(m: MState, c: CondId, t: Tid) {
    && IsCond(m, c) && OfWaiter(t) in m.k.semas
    && (t in m.queue[c] ==> Value(m, OfWaiter(t)) == 0 && !InFlight(m, c, t))
    && (t !in m.queue[c] ==> Value(m, OfWaiter(t)) == if InFlight(m, c, t) then 0 else 1)
  }

  /** What the place of thread `t` in the code says about the state. */
  ghost predicate ThreadOk(m: MState, t: Tid)
    requires t in m.pc
  {
    var k := m.k;
    match m.pc[t]
    case Client => t in k.inDown ==> k.inDown[t].Plain?
    case InAcquire(l) => IsLock(m, l) && t in k.inDown && k.inDown[t] == OfLock(l)
    case GotSema(l) => t !in k.inDown && l in m.owner && m.owner[l] == t && l !in m.holder
    case Cleared(l, w) =>
      && t !in k.inDown && l in m.owner && m.owner[l] == t && l !in m.holder
      && (w.Some? ==> IsCond(m, w.value) && m.lockOf[w.value] == l && t in m.queue[w.value])
    case WaitPushed(c) => t !in k.inDown && HoldsFor(m, c, t) && t in m.queue[c]
    case WaitDown(c) => t !in k.inDown && Waiting(m, c, t)
    case InWait(c) => t in k.inDown && k.inDown[t] == OfWaiter(t) && Waiting(m, c, t)
    case WaitAcquire(c) => t !in k.inDown && IsCond(m, c)
    case SignalUp(c, w, _) =>
      && t !in k.inDown && HoldsFor(m, c, t) && w !in m.queue[c]
      && w in m.pc && (m.pc[w] == WaitDown(c) || m.pc[w] == InWait(c))
    case Broadcasting(c) => t !in k.inDown && HoldsFor(m, c, t)
  }

  ghost predicate InWindow(m: MState, l: LockId, t: Tid) {
    t in m.pc && (m.pc[t] == GotSema(l) || (m.pc[t].Cleared? && m.pc[t].l == l))
  }

  /** The semaphore of a lock is 1 if nobody is inside and 0 if its owner is, which has set `holder`
      or is in one of the windows around setting it. */
  ghost predicate LockOk(m: MState, l: LockId)
    requires IsLock(m, l)
  {
    && m.k.semas[OfLock(l)].value == (if l in m.owner then 0 else 1)
    && (l in m.owner ==> m.owner[l] in m.pc && (l in m.holder <==> !InWindow(m, l, m.owner[l])))
    && (l in m.holder ==> l in m.owner && m.holder[l] == m.owner[l])
  }

  ghost predicate WaitStage(pc: Pc, c: CondId) {
    pc == WaitPushed(c) || (pc.Cleared? && pc.wait == Some(c)) || pc == WaitDown(c) || pc == InWait(c)
  }

  /** The list of a condition holds threads in cond_wait, in the order in which they came. */
  ghost predicate CondOk(m: MState, c: CondId) {
    && IsCond(m, c)
    && Distinct(m.queue[c])
    && (forall t :: t in m.queue[c] ==>
          t in m.pc && WaitStage(m.pc[t], c) && OfWaiter(t) in m.k.semas && Value(m, OfWaiter(t)) == 0)
    && m.pushed[c] == m.popped[c] + m.queue[c]
  }

  ghost predicate Sync(m: MState) {
    && IDLE in m.pc && m.pc[IDLE] == Client
    && (forall t :: t in m.pc ==> ThreadOk(m, t))
    && (forall l :: IsLock(m, l) ==> LockOk(m, l))
    && (forall l :: l in m.owner || l in m.holder ==> IsLock(m, l))
    && (forall c :: c in m.queue ==> CondOk(m, c))
  }

  ghost predicate MInv(m: MState) {
    Inv(m.k) && m.pc.Keys == m.k.status.Keys && Sync(m)
  }

  // ----- what the kernel steps change -----

  /** `k'` differs from `k` as far as a test of `s` by the current thread may change it. */
  ghost predicate Tested(k: State, k': State, s: SemaId) {
    && s in k.semas
    && k'.status.Keys == k.status.Keys
    && k'.semas.Keys == k.semas.Keys
    && (forall r :: r in k.semas && r != s ==> k'.semas[r] == k.semas[r])
    && k'.semas[s].value == (if k.semas[s].value == 0 then 0 else k.semas[s].value - 1)
    && k'.inDown == (if k.semas[s].value == 0 then k.inDown[k.current := s] else k.inDown - {k.current})
  }

  lemma BlockEffect(k: State, s: SemaId)
    requires Inv(k) && s in k.semas && k.semas[s].value == 0 && k.current != IDLE
    requires k.current in k.inDown ==> k.inDown[k.current] == s
    ensures Tested(k, Block(Enqueued(k, s)), s)
  {
    EnqueueSwitching(k, s);
    ScheduleStatus(WithStatus(Enqueued(k, s), k.current, Blocked));
  }

  lemma TestDownEffect(k: State, s: SemaId)
    requires Inv(k) && s in k.semas && k.current != IDLE && (k.current in k.inDown ==> k.inDown[k.current] == s)
    ensures Inv(TestDown(k, s)) && Tested(k, TestDown(k, s), s)
  {
    TestDownKeeps(k, s);
    if k.semas[s].value == 0 { BlockEffect(k, s); }
  }

  /** `k'` differs from `k` as far as sema_up on `s` may change it. */
  ghost predicate Upped(k: State, k': State, s: SemaId) {
    && s in k.semas
    && k'.status.Keys == k.status.Keys
    && k'.semas.Keys == k.semas.Keys
    && (forall r :: r in k.semas && r != s ==> k'.semas[r] == k.semas[r])
    && k'.semas[s].value == k.semas[s].value + 1
    && k'.inDown == k.inDown && k'.current == k.current
  }

  lemma UpEffect(k: State, s: SemaId)
    requires Inv(k) && s in k.semas
    ensures Inv(Up(k, s)) && Upped(k, Up(k, s), s)
  {
    UpStruct(k, s);
    UpWakeups(k, s);
    if k.semas[s].waiters != [] { assert k.semas[s].waiters[0] in k.semas[s].waiters; }
  }

  // ----- frames -----

  /** Nothing that `ThreadOk` says about thread `u` has changed from `m` to `n`. */
  ghost predicate SameFor(m: MState, n: MState, u: Tid) {
    && u in m.pc && u in n.pc && n.pc[u] == m.pc[u]
    && SameDown(m.k, n.k, u)
    && n.lockOf == m.lockOf && n.holder == m.holder
    && n.queue == m.queue && n.pushed == m.pushed && n.popped == m.popped
    && n.k.semas.Keys == m.k.semas.Keys && Value(n, OfWaiter(u)) == Value(m, OfWaiter(u))
    && (forall l :: l in m.owner && m.owner[l] == u ==> l in n.owner && n.owner[l] == u)
    && (m.pc[u].WaitDown? || m.pc[u].InWait? ==> (InFlight(n, m.pc[u].c, u) <==> InFlight(m, m.pc[u].c, u)))
    && (m.pc[u].SignalUp? && m.pc[u].w in m.pc ==>
          m.pc[u].w in n.pc && (n.pc[m.pc[u].w] == m.pc[m.pc[u].w] || n.pc[m.pc[u].w] == InWait(m.pc[u].c)))
  }

  /** A thread about to signal another signals one that waits. */
  ghost predicate SignalsWaiter(m: MState, u: Tid)
    requires u in m.pc
  {
    m.pc[u].SignalUp? ==> m.pc[u].w in m.pc && (m.pc[m.pc[u].w].WaitDown? || m.pc[m.pc[u].w].InWait?)
  }

  lemma SignalsAWaiter(m: MState, u: Tid)
    requires u in m.pc && ThreadOk(m, u)
    ensures SignalsWaiter(m, u)
  {
  }

  lemma ThreadFrame(m: MState, n: MState, u: Tid)
    requires SameFor(m, n, u) && ThreadOk(m, u)
    ensures ThreadOk(n, u)
  {
    assert forall l :: IsLock(m, l) <==> IsLock(n, l);
    assert forall c :: IsCond(m, c) <==> IsCond(n, c);
  }

  lemma FlightSame(m: MState, n: MState, c: CondId, u: Tid)
    requires m.k.current in m.pc && !m.pc[m.k.current].SignalUp? && n.lockOf == m.lockOf && n.holder == m.holder
    requires m.k.current in n.pc && !n.pc[m.k.current].SignalUp? && n.pc == m.pc[m.k.current := n.pc[m.k.current]]
    ensures InFlight(n, c, u) <==> InFlight(m, c, u)
  {
  }

  // ----- steps that leave the kernel state alone -----

  lemma SetHolderThread(m: MState, u: Tid)
    requires MEnabled(m, SetHolder) && u in m.pc && ThreadOk(m, u) && ThreadOk(m, m.k.current)
    ensures ThreadOk(MDo(m, SetHolder), u)
  {
  }

  lemma SetHolderLock(m: MState, l': LockId)
    requires MEnabled(m, SetHolder) && IsLock(m, l') && LockOk(m, l') && ThreadOk(m, m.k.current)
    ensures LockOk(MDo(m, SetHolder), l')
  {
  }

  lemma SetHolderCond(m: MState, c': CondId)
    requires MEnabled(m, SetHolder) && CondOk(m, c') && ThreadOk(m, m.k.current)
    ensures CondOk(MDo(m, SetHolder), c')
  {
  }

  lemma ReleaseThread(m: MState, l: LockId, u: Tid)
    requires MEnabled(m, ReleaseStep(l)) && u in m.pc && ThreadOk(m, u) && ThreadOk(m, m.k.current) && LockOk(m, l)
    ensures ThreadOk(MDo(m, ReleaseStep(l)), u)
  {
  }

  lemma ReleaseLock(m: MState, l: LockId, l': LockId)
    requires MEnabled(m, ReleaseStep(l)) && IsLock(m, l') && LockOk(m, l') && ThreadOk(m, m.k.current)
    ensures LockOk(MDo(m, ReleaseStep(l)), l')
  {
  }

  lemma ReleaseCond(m: MState, l: LockId, c': CondId)
    requires MEnabled(m, ReleaseStep(l)) && CondOk(m, c') && ThreadOk(m, m.k.current)
    ensures CondOk(MDo(m, ReleaseStep(l)), c')
  {
  }

  lemma ClearForWaitSelf(m: MState)
    requires MEnabled(m, ClearForWait) && ThreadOk(m, m.k.current) && LockOk(m, m.lockOf[Now(m).c])
    ensures ThreadOk(MDo(m, ClearForWait), m.k.current)
  {
  }

  lemma ClearForWaitOther(m: MState, u: Tid)
    requires MEnabled(m, ClearForWait) && u in m.pc && u != m.k.current && ThreadOk(m, u) && ThreadOk(m, m.k.current)
    ensures ThreadOk(MDo(m, ClearForWait), u)
  {
  }

  lemma ClearForWaitLock(m: MState, l': LockId)
    requires MEnabled(m, ClearForWait) && IsLock(m, l') && LockOk(m, l') && ThreadOk(m, m.k.current)
    ensures LockOk(MDo(m, ClearForWait), l')
  {
  }

  lemma ClearForWaitCond(m: MState, c': CondId)
    requires MEnabled(m, ClearForWait) && CondOk(m, c') && ThreadOk(m, m.k.current)
    ensures CondOk(MDo(m, ClearForWait), c')
  {
  }

  ghost predicate CanPop(m: MState, c: CondId) {
    Free(m) && (Now(m) == Client || Now(m) == Broadcasting(c)) && HoldsFor(m, c, m.k.current) && m.queue[c] != []
  }

  lemma PopQueue(m: MState, c: CondId, all: bool)
    requires CanPop(m, c) && CondOk(m, c)
    ensures var w := m.queue[c][0];
            w in m.queue[c] && w in m.pc && forall u :: u in Pop(m, c, all).queue[c] <==> u in m.queue[c] && u != w
  {
  }

  /** Taking `w` off the list puts exactly its signal in flight. */
  lemma PopFlight(m: MState, c: CondId, all: bool, d: CondId, u: Tid)
    requires Sync(m) && CanPop(m, c)
    ensures InFlight(Pop(m, c, all), d, u) <==> InFlight(m, d, u) || (d == c && u == m.queue[c][0])
  {
    assert ThreadOk(m, m.k.current);
  }

  lemma PopOther(m: MState, c: CondId, all: bool, u: Tid)
    requires Sync(m) && CanPop(m, c) && u in m.pc && u != m.k.current && u != m.queue[c][0]
    ensures ThreadOk(Pop(m, c, all), u)
  {
    assert ThreadOk(m, u);
    PopQueue(m, c, all);
    if m.pc[u].WaitDown? || m.pc[u].InWait? { PopFlight(m, c, all, m.pc[u].c, u); }
  }

  lemma PopThread(m: MState, c: CondId, all: bool, u: Tid)
    requires Sync(m) && CanPop(m, c) && u in m.pc
    ensures ThreadOk(Pop(m, c, all), u)
  {
    var w := m.queue[c][0];
    PopQueue(m, c, all);
    assert ThreadOk(m, m.k.current) && CondOk(m, c) && ThreadOk(m, w);
    if u == w {
      PopFlight(m, c, all, c, w);
    } else if u != m.k.current {
      PopOther(m, c, all, u);
    }
  }

  lemma PopLock(m: MState, c: CondId, all: bool, l': LockId)
    requires CanPop(m, c) && IsLock(m, l') && LockOk(m, l') && ThreadOk(m, m.k.current)
    ensures LockOk(Pop(m, c, all), l')
  {
  }

  lemma PopCond(m: MState, c: CondId, all: bool, c': CondId)
    requires CanPop(m, c) && CondOk(m, c) && CondOk(m, c') && ThreadOk(m, m.k.current)
    ensures CondOk(Pop(m, c, all), c')
  {
    PopQueue(m, c, all);
  }

  lemma GotoSame(m: MState, pc: Pc, u: Tid)
    requires u in m.pc && u != m.k.current && SignalsWaiter(m, u)
    requires m.k.current in m.pc && (Now(m) == Client || Now(m).Broadcasting?) && (pc == Client || pc.Broadcasting?)
    ensures SameFor(m, Goto(m, pc), u)
  {
    var n := Goto(m, pc);
    assert n.k == m.k && n.owner == m.owner && n.pc[u] == m.pc[u];
    assert m.pc[u].SignalUp? ==> m.pc[u].w != m.k.current;
    if m.pc[u].WaitDown? || m.pc[u].InWait? { FlightSame(m, Goto(m, pc), m.pc[u].c, u); }
  }

  lemma GotoOther(m: MState, pc: Pc, u: Tid)
    requires u in m.pc && ThreadOk(m, u) && u != m.k.current
    requires m.k.current in m.pc && (Now(m) == Client || Now(m).Broadcasting?) && (pc == Client || pc.Broadcasting?)
    ensures ThreadOk(Goto(m, pc), u)
  {
    SignalsAWaiter(m, u);
    GotoSame(m, pc, u);
    ThreadFrame(m, Goto(m, pc), u);
  }

  lemma GotoThread(m: MState, pc: Pc, u: Tid)
    requires Free(m) && u in m.pc && ThreadOk(m, u)
    requires (Now(m) == Client || Now(m).Broadcasting?)
    requires (pc == Client || (pc.Broadcasting? && HoldsFor(m, pc.c, m.k.current)))
    ensures ThreadOk(Goto(m, pc), u)
  {
    if u != m.k.current { GotoOther(m, pc, u); }
  }

  lemma GotoLock(m: MState, pc: Pc, l: LockId)
    requires m.k.current in m.pc && (Now(m) == Client || Now(m).Broadcasting?) && (pc == Client || pc.Broadcasting?)
    requires IsLock(m, l) && LockOk(m, l)
    ensures LockOk(Goto(m, pc), l)
  {
  }

  lemma GotoCond(m: MState, pc: Pc, c: CondId)
    requires m.k.current in m.pc && (Now(m) == Client || Now(m).Broadcasting?) && CondOk(m, c)
    ensures CondOk(Goto(m, pc), c)
  {
  }

  lemma GotoKeeps(m: MState, pc: Pc)
    requires Sync(m) && Free(m)
    requires (Now(m) == Client || Now(m).Broadcasting?)
    requires (pc == Client || (pc.Broadcasting? && HoldsFor(m, pc.c, m.k.current)))
    ensures Sync(Goto(m, pc))
  {
    var m' := Goto(m, pc);
    assert ThreadOk(m, m.k.current);
    forall u | u in m'.pc ensures ThreadOk(m', u) { assert ThreadOk(m, u); GotoThread(m, pc, u); }
    forall l | IsLock(m', l) ensures LockOk(m', l) { assert LockOk(m, l); GotoLock(m, pc, l); }
    forall c | c in m'.queue ensures CondOk(m', c) { assert CondOk(m, c); GotoCond(m, pc, c); }
  }

  // ----- steps on semaphores -----

  ghost predicate CanTestLock(m: MState, l: LockId, k': State) {
    && IsLock(m, l) && m.k.current in m.pc && m.k.current != IDLE && Tested(m.k, k', OfLock(l))
    && (if m.k.current in m.k.inDown then Now(m) == InAcquire(l) else Now(m) == Client || Now(m).WaitAcquire?)
  }

  lemma TestLockSame(m: MState, l: LockId, k': State, u: Tid)
    requires CanTestLock(m, l, k') && u in m.pc && u != m.k.current && SignalsWaiter(m, u)
    requires m.k.semas[OfLock(l)].value > 0 ==> l !in m.owner
    ensures SameFor(m, TestLock(m, l, k'), u)
  {
    var n := TestLock(m, l, k');
    assert n.pc[u] == m.pc[u] && SameDown(m.k, n.k, u);
    assert m.pc[u].SignalUp? ==> m.pc[u].w != m.k.current;
    if m.pc[u].WaitDown? || m.pc[u].InWait? { FlightSame(m, n, m.pc[u].c, u); }
  }

  lemma TestLockOther(m: MState, l: LockId, k': State, u: Tid)
    requires CanTestLock(m, l, k') && u in m.pc && u != m.k.current && ThreadOk(m, u) && LockOk(m, l)
    ensures ThreadOk(TestLock(m, l, k'), u)
  {
    SignalsAWaiter(m, u);
    TestLockSame(m, l, k', u);
    ThreadFrame(m, TestLock(m, l, k'), u);
  }

  lemma TestLockSelf(m: MState, l: LockId, k': State)
    requires Sync(m) && CanTestLock(m, l, k')
    ensures ThreadOk(TestLock(m, l, k'), m.k.current)
  {
    assert LockOk(m, l);
  }

  lemma TestLockThread(m: MState, l: LockId, k': State, u: Tid)
    requires Sync(m) && CanTestLock(m, l, k') && u in m.pc
    ensures ThreadOk(TestLock(m, l, k'), u)
  {
    assert ThreadOk(m, u) && LockOk(m, l);
    if u == m.k.current { TestLockSelf(m, l, k'); } else { TestLockOther(m, l, k', u); }
  }

  lemma TestLockLock(m: MState, l: LockId, k': State, l': LockId)
    requires CanTestLock(m, l, k') && IsLock(m, l') && LockOk(m, l') && ThreadOk(m, m.k.current)
    ensures IsLock(TestLock(m, l, k'), l') && LockOk(TestLock(m, l, k'), l')
  {
  }

  lemma TestLockCond(m: MState, l: LockId, k': State, c': CondId)
    requires CanTestLock(m, l, k') && CondOk(m, c') && ThreadOk(m, m.k.current)
    ensures CondOk(TestLock(m, l, k'), c')
  {
  }

  ghost predicate CanTestWait(m: MState, c: CondId, k': State) {
    && m.k.current in m.pc && m.k.current != IDLE && Tested(m.k, k', OfWaiter(m.k.current))
    && (if m.k.current in m.k.inDown then Now(m) == InWait(c) else Now(m) == WaitDown(c))
  }

  lemma TestWaitSelf(m: MState, c: CondId, k': State)
    requires CanTestWait(m, c, k') && ThreadOk(m, m.k.current)
    ensures ThreadOk(TestWait(m, c, k'), m.k.current)
  {
    FlightSame(m, TestWait(m, c, k'), c, m.k.current);
  }

  lemma TestWaitOther(m: MState, c: CondId, k': State, u: Tid)
    requires CanTestWait(m, c, k') && u in m.pc && u != m.k.current && ThreadOk(m, u) && ThreadOk(m, m.k.current)
    ensures ThreadOk(TestWait(m, c, k'), u)
  {
    var n := TestWait(m, c, k');
    if m.pc[u].WaitDown? || m.pc[u].InWait? { FlightSame(m, n, m.pc[u].c, u); }
    if m.pc[u].SignalUp? && m.pc[u].w == m.k.current { assert InFlight(m, c, m.k.current); }
    ThreadFrame(m, n, u);
  }

  lemma TestWaitThread(m: MState, c: CondId, k': State, u: Tid)
    requires Sync(m) && CanTestWait(m, c, k') && u in m.pc
    ensures ThreadOk(TestWait(m, c, k'), u)
  {
    assert ThreadOk(m, u) && ThreadOk(m, m.k.current);
    if u == m.k.current { TestWaitSelf(m, c, k'); } else { TestWaitOther(m, c, k', u); }
  }

  lemma TestWaitLock(m: MState, c: CondId, k': State, l': LockId)
    requires CanTestWait(m, c, k') && IsLock(m, l') && LockOk(m, l') && ThreadOk(m, m.k.current)
    ensures IsLock(TestWait(m, c, k'), l') && LockOk(TestWait(m, c, k'), l')
  {
  }

  lemma TestWaitCond(m: MState, c: CondId, k': State, c': CondId)
    requires CanTestWait(m, c, k') && CondOk(m, c') && ThreadOk(m, m.k.current)
    ensures CondOk(TestWait(m, c, k'), c')
  {
  }

  ghost predicate CanUpLock(m: MState, k': State) {
    Free(m) && Now(m).Cleared? && Upped(m.k, k', OfLock(Now(m).l))
  }

  lemma UpLockOther(m: MState, k': State, u: Tid)
    requires CanUpLock(m, k') && u in m.pc && u != m.k.current && ThreadOk(m, u) && ThreadOk(m, m.k.current)
    ensures ThreadOk(LockUpped(m, k'), u)
  {
    var n := LockUpped(m, k');
    if m.pc[u].WaitDown? || m.pc[u].InWait? { FlightSame(m, n, m.pc[u].c, u); }
    ThreadFrame(m, n, u);
  }

  lemma UpLockSelf(m: MState, k': State)
    requires Sync(m) && CanUpLock(m, k')
    ensures ThreadOk(LockUpped(m, k'), m.k.current)
  {
    var n, t := LockUpped(m, k'), m.k.current;
    assert ThreadOk(m, t);
    if Now(m).wait.Some? {
      var c := Now(m).wait.value;
      assert CondOk(m, c);
      FlightSame(m, n, c, t);
    }
  }

  lemma UpLockThread(m: MState, k': State, u: Tid)
    requires Sync(m) && CanUpLock(m, k') && u in m.pc
    ensures ThreadOk(LockUpped(m, k'), u)
  {
    assert ThreadOk(m, u) && ThreadOk(m, m.k.current);
    if u == m.k.current { UpLockSelf(m, k'); } else { UpLockOther(m, k', u); }
  }

  lemma UpLockLock(m: MState, k': State, l': LockId)
    requires CanUpLock(m, k') && IsLock(m, l') && LockOk(m, l') && ThreadOk(m, m.k.current)
    ensures IsLock(LockUpped(m, k'), l') && LockOk(LockUpped(m, k'), l')
  {
  }

  lemma UpLockCond(m: MState, k': State, c': CondId)
    requires CanUpLock(m, k') && CondOk(m, c') && ThreadOk(m, m.k.current)
    ensures CondOk(LockUpped(m, k'), c')
  {
  }

  ghost predicate CanUpWaiter(m: MState, k': State) {
    Free(m) && Now(m).SignalUp? && Upped(m.k, k', OfWaiter(Now(m).w))
  }

  lemma UpWaiterTarget(m: MState, k': State)
    requires Sync(m) && CanUpWaiter(m, k') && Now(m).w in m.pc
    ensures ThreadOk(WaiterUpped(m, k'), Now(m).w)
  {
    assert ThreadOk(m, m.k.current) && ThreadOk(m, Now(m).w);
    assert InFlight(m, Now(m).c, Now(m).w);
    assert !InFlight(WaiterUpped(m, k'), Now(m).c, Now(m).w);
  }

  lemma UpWaiterOther(m: MState, k': State, u: Tid)
    requires CanUpWaiter(m, k') && u in m.pc && u != Now(m).w && u != m.k.current
    requires ThreadOk(m, u) && ThreadOk(m, m.k.current)
    ensures ThreadOk(WaiterUpped(m, k'), u)
  {
    var n := WaiterUpped(m, k');
    if m.pc[u].WaitDown? || m.pc[u].InWait? {
      assert InFlight(n, m.pc[u].c, u) <==> InFlight(m, m.pc[u].c, u);
    }
    ThreadFrame(m, n, u);
  }

  lemma UpWaiterThread(m: MState, k': State, u: Tid)
    requires Sync(m) && CanUpWaiter(m, k') && u in m.pc
    ensures ThreadOk(WaiterUpped(m, k'), u)
  {
    assert ThreadOk(m, u) && ThreadOk(m, m.k.current) && ThreadOk(m, Now(m).w);
    if u == Now(m).w {
      UpWaiterTarget(m, k');
    } else if u != m.k.current {
      UpWaiterOther(m, k', u);
    }
  }

  lemma UpWaiterLock(m: MState, k': State, l': LockId)
    requires CanUpWaiter(m, k') && IsLock(m, l') && LockOk(m, l') && ThreadOk(m, m.k.current)
    ensures IsLock(WaiterUpped(m, k'), l') && LockOk(WaiterUpped(m, k'), l')
  {
  }

  lemma UpWaiterCond(m: MState, k': State, c': CondId)
    requires CanUpWaiter(m, k') && CondOk(m, c') && ThreadOk(m, m.k.current)
    ensures CondOk(WaiterUpped(m, k'), c')
  {
  }

  lemma WaitOther(m: MState, c: CondId, u: Tid)
    requires MEnabled(m, WaitStep(c)) && u in m.pc && u != m.k.current && ThreadOk(m, u)
    ensures ThreadOk(MDo(m, WaitStep(c)), u)
  {
  }

  lemma WaitThread(m: MState, c: CondId, u: Tid)
    requires MEnabled(m, WaitStep(c)) && u in m.pc && ThreadOk(m, u) && ThreadOk(m, m.k.current)
    ensures ThreadOk(MDo(m, WaitStep(c)), u)
  {
    if u != m.k.current { WaitOther(m, c, u); }
  }

  lemma WaitLock(m: MState, c: CondId, l': LockId)
    requires MEnabled(m, WaitStep(c)) && IsLock(m, l') && LockOk(m, l') && ThreadOk(m, m.k.current)
    ensures IsLock(MDo(m, WaitStep(c)), l') && LockOk(MDo(m, WaitStep(c)), l')
  {
  }

  lemma WaitCond(m: MState, c: CondId, c': CondId)
    requires MEnabled(m, WaitStep(c)) && CondOk(m, c') && ThreadOk(m, m.k.current)
    ensures CondOk(MDo(m, WaitStep(c)), c')
  {
  }

  // ----- steps outside of synch.c -----

  /** `k'` differs from the kernel state of `m` as far as steps outside of synch.c may change it. */
  ghost predicate Outside(m: MState, k': State) {
    && (forall s :: s in m.k.semas && !s.Plain? ==> s in k'.semas && k'.semas[s] == m.k.semas[s])
    && (forall s :: s in k'.semas && !s.Plain? ==> s in m.k.semas)
    && (forall t :: t in m.pc && m.pc[t] != Client ==> t in k'.status && SameDown(m.k, k', t))
    && (forall t :: t in k'.inDown && (t !in m.pc || m.pc[t] == Client) ==> k'.inDown[t].Plain?)
    && (forall l :: l in m.holder ==> m.holder[l] in k'.status)
    && IDLE in k'.status
  }

  lemma OutsideFlight(m: MState, k': State, c: CondId, u: Tid)
    requires Sync(m) && Outside(m, k')
    ensures InFlight(Stepped(m, k'), c, u) <==> InFlight(m, c, u)
  {
    if c in m.lockOf && m.lockOf[c] in m.holder {
      assert LockOk(m, m.lockOf[c]);
    }
  }

  lemma OutsideFrame(m: MState, k': State, u: Tid)
    requires Outside(m, k') && u in m.pc && u in k'.status && ThreadOk(m, u)
    requires m.pc[u].WaitDown? || m.pc[u].InWait? ==>
      (InFlight(Stepped(m, k'), m.pc[u].c, u) <==> InFlight(m, m.pc[u].c, u))
    ensures ThreadOk(Stepped(m, k'), u)
  {
    var n := Stepped(m, k');
    assert forall l :: IsLock(m, l) <==> IsLock(n, l);
    assert forall c :: IsCond(m, c) <==> IsCond(n, c);
  }

  lemma OutsideThread(m: MState, k': State, u: Tid)
    requires Sync(m) && Outside(m, k') && u in k'.status
    ensures ThreadOk(Stepped(m, k'), u)
  {
    if u in m.pc {
      assert ThreadOk(m, u);
      if m.pc[u].WaitDown? || m.pc[u].InWait? { OutsideFlight(m, k', m.pc[u].c, u); }
      OutsideFrame(m, k', u);
    }
  }

  lemma OutsideLock(m: MState, k': State, l: LockId)
    requires Sync(m) && Outside(m, k') && IsLock(m, l)
    ensures IsLock(Stepped(m, k'), l) && LockOk(Stepped(m, k'), l)
  {
    assert LockOk(m, l);
  }

  lemma OutsideCond(m: MState, k': State, c: CondId)
    requires Sync(m) && Outside(m, k') && c in m.queue
    ensures CondOk(Stepped(m, k'), c)
  {
    assert CondOk(m, c);
  }

  lemma OutsideKeeps(m: MState, k': State)
    requires Sync(m) && Outside(m, k')
    ensures Sync(Stepped(m, k'))
  {
    var n := Stepped(m, k');
    forall u | u in n.pc ensures ThreadOk(n, u) { OutsideThread(m, k', u); }
    forall l | IsLock(n, l) ensures LockOk(n, l) { assert IsLock(m, l); OutsideLock(m, k', l); }
    forall c | c in n.queue ensures CondOk(n, c) { OutsideCond(m, k', c); }
    forall l | l in n.owner || l in n.holder ensures IsLock(n, l) { assert IsLock(m, l); OutsideLock(m, k', l); }
  }

  /** Steps that do not test a semaphore leave every thread in or out of sema_down. */
  lemma StaysInDown(k: State, s: Step, t: Tid)
    requires Inv(k) && Enabled(k, s) && (t == k.current ==> !s.DownStep? && !s.RetestStep?)
    ensures SameDown(k, Do(k, s), t)
  {
    if t != k.current { StepOthers(k, s, t); }
  }

  lemma StaysAlive(k: State, s: Step, t: Tid)
    requires Inv(k) && Enabled(k, s) && t in k.status && (t == k.current ==> !s.ExitStep?)
    ensures t in Do(k, s).status
  {
  }

  ghost predicate TouchesPlain(s: Step) {
    match s
    case InitStep(r, _) => r.Plain?
    case DownStep(r) => r.Plain?
    case TryDownStep(r) => r.Plain?
    case UpStep(r) => r.Plain?
    case _ => true
  }

  lemma OtherSemas(k: State, s: Step, r: SemaId)
    requires Enabled(k, s) && TouchesPlain(s) && !r.Plain?
    requires s.RetestStep? ==> k.inDown[k.current].Plain?
    ensures r in Do(k, s).semas <==> r in k.semas
    ensures r in k.semas ==> Do(k, s).semas[r] == k.semas[r]
  {
  }

  /** A thread outside of synch.c can only be in sema_down on a plain semaphore. */
  lemma PlainDown(k: State, s: Step, t: Tid)
    requires Inv(k) && Enabled(k, s) && TouchesPlain(s) && (t in k.inDown ==> k.inDown[t].Plain?)
    ensures t in Do(k, s).inDown ==> Do(k, s).inDown[t].Plain?
  {
    if t != k.current { StepOthers(k, s, t); }
  }

  /** The kernel steps taken outside of synch.c do not touch what it relies on. */
  lemma OutsideEffect(m: MState, s: Step)
    requires MInv(m) && MEnabled(m, KernelStep(s))
    ensures Outside(m, Do(m.k, s))
  {
    var k, k' := m.k, Do(m.k, s);
    assert ThreadOk(m, k.current) && TouchesPlain(s);
    forall r: SemaId | !r.Plain?
      ensures (r in k'.semas <==> r in k.semas) && (r in k.semas ==> k'.semas[r] == k.semas[r])
    {
      OtherSemas(k, s, r);
    }
    forall t | t in m.pc && m.pc[t] != Client ensures t in k'.status && SameDown(k, k', t) {
      StaysInDown(k, s, t);
      StaysAlive(k, s, t);
    }
    forall l | l in m.holder ensures m.holder[l] in k'.status {
      assert LockOk(m, l);
      StaysAlive(k, s, m.holder[l]);
    }
    forall t | t in k'.inDown && (t !in m.pc || m.pc[t] == Client) ensures k'.inDown[t].Plain? {
      if t in m.pc { assert ThreadOk(m, t); }
      PlainDown(k, s, t);
    }
    StaysAlive(k, s, IDLE);
  }

  // ----- every step keeps the invariant -----

  lemma SetHolderSync(m: MState)
    requires Sync(m) && MEnabled(m, SetHolder)
    ensures Sync(MDo(m, SetHolder))
  {
    assert ThreadOk(m, m.k.current);
    var n := MDo(m, SetHolder);
    forall u | u in n.pc ensures ThreadOk(n, u) { assert ThreadOk(m, u); SetHolderThread(m, u); }
    forall l' | IsLock(n, l') ensures LockOk(n, l') { assert LockOk(m, l'); SetHolderLock(m, l'); }
    forall c' | c' in n.queue ensures CondOk(n, c') { assert CondOk(m, c'); SetHolderCond(m, c'); }
  }

  lemma ReleaseSync(m: MState, l: LockId)
    requires Sync(m) && MEnabled(m, ReleaseStep(l))
    ensures Sync(MDo(m, ReleaseStep(l)))
  {
    assert ThreadOk(m, m.k.current) && LockOk(m, l);
    var n := MDo(m, ReleaseStep(l));
    forall u | u in n.pc ensures ThreadOk(n, u) { assert ThreadOk(m, u); ReleaseThread(m, l, u); }
    forall l' | IsLock(n, l') ensures LockOk(n, l') { assert LockOk(m, l'); ReleaseLock(m, l, l'); }
    forall c' | c' in n.queue ensures CondOk(n, c') { assert CondOk(m, c'); ReleaseCond(m, l, c'); }
  }

  lemma ClearForWaitSync(m: MState)
    requires Sync(m) && MEnabled(m, ClearForWait)
    ensures Sync(MDo(m, ClearForWait))
  {
    assert ThreadOk(m, m.k.current) && LockOk(m, m.lockOf[Now(m).c]);
    var n := MDo(m, ClearForWait);
    forall u | u in n.pc ensures ThreadOk(n, u) {
      assert ThreadOk(m, u);
      if u == m.k.current { ClearForWaitSelf(m); } else { ClearForWaitOther(m, u); }
    }
    forall l' | IsLock(n, l') ensures LockOk(n, l') { assert LockOk(m, l'); ClearForWaitLock(m, l'); }
    forall c' | c' in n.queue ensures CondOk(n, c') { assert CondOk(m, c'); ClearForWaitCond(m, c'); }
  }

  lemma PopSync(m: MState, c: CondId, all: bool)
    requires Sync(m) && CanPop(m, c)
    ensures Sync(Pop(m, c, all))
  {
    assert ThreadOk(m, m.k.current);
    var n := Pop(m, c, all);
    forall u | u in n.pc ensures ThreadOk(n, u) { PopThread(m, c, all, u); }
    forall l' | IsLock(n, l') ensures LockOk(n, l') { assert LockOk(m, l'); PopLock(m, c, all, l'); }
    forall c' | c' in n.queue ensures CondOk(n, c') { assert CondOk(m, c'); PopCond(m, c, all, c'); }
  }

  lemma TestLockSync(m: MState, l: LockId, k': State)
    requires Sync(m) && CanTestLock(m, l, k')
    ensures Sync(TestLock(m, l, k'))
  {
    assert ThreadOk(m, m.k.current);
    var n := TestLock(m, l, k');
    forall u | u in n.pc ensures ThreadOk(n, u) { TestLockThread(m, l, k', u); }
    forall l' | IsLock(n, l') ensures LockOk(n, l') { assert LockOk(m, l'); TestLockLock(m, l, k', l'); }
    forall c' | c' in n.queue ensures CondOk(n, c') { assert CondOk(m, c'); TestLockCond(m, l, k', c'); }
  }

  lemma TestWaitSync(m: MState, c: CondId, k': State)
    requires Sync(m) && CanTestWait(m, c, k')
    ensures Sync(TestWait(m, c, k'))
  {
    assert ThreadOk(m, m.k.current);
    var n := TestWait(m, c, k');
    forall u | u in n.pc ensures ThreadOk(n, u) { TestWaitThread(m, c, k', u); }
    forall l' | IsLock(n, l') ensures LockOk(n, l') { assert LockOk(m, l'); TestWaitLock(m, c, k', l'); }
    forall c' | c' in n.queue ensures CondOk(n, c') { assert CondOk(m, c'); TestWaitCond(m, c, k', c'); }
  }

  lemma UpLockSync(m: MState, k': State)
    requires Sync(m) && CanUpLock(m, k')
    ensures Sync(LockUpped(m, k'))
  {
    assert ThreadOk(m, m.k.current);
    var n := LockUpped(m, k');
    forall u | u in n.pc ensures ThreadOk(n, u) { UpLockThread(m, k', u); }
    forall l' | IsLock(n, l') ensures LockOk(n, l') { assert LockOk(m, l'); UpLockLock(m, k', l'); }
    forall c' | c' in n.queue ensures CondOk(n, c') { assert CondOk(m, c'); UpLockCond(m, k', c'); }
  }

  lemma UpWaiterSync(m: MState, k': State)
    requires Sync(m) && CanUpWaiter(m, k')
    ensures Sync(WaiterUpped(m, k'))
  {
    assert ThreadOk(m, m.k.current);
    var n := WaiterUpped(m, k');
    forall u | u in n.pc ensures ThreadOk(n, u) { UpWaiterThread(m, k', u); }
    forall l' | IsLock(n, l') ensures LockOk(n, l') { assert LockOk(m, l'); UpWaiterLock(m, k', l'); }
    forall c' | c' in n.queue ensures CondOk(n, c') { assert CondOk(m, c'); UpWaiterCond(m, k', c'); }
  }

  lemma WaitSync(m: MState, c: CondId)
    requires Sync(m) && MEnabled(m, WaitStep(c))
    ensures Sync(MDo(m, WaitStep(c)))
  {
    assert ThreadOk(m, m.k.current);
    var n := MDo(m, WaitStep(c));
    forall u | u in n.pc ensures ThreadOk(n, u) { assert ThreadOk(m, u); WaitThread(m, c, u); }
    forall l' | IsLock(n, l') ensures LockOk(n, l') { assert LockOk(m, l'); WaitLock(m, c, l'); }
    forall c' | c' in n.queue ensures CondOk(n, c') { assert CondOk(m, c'); WaitCond(m, c, c'); }
  }

  lemma TakenKeeps(k: State, s: SemaId)
    requires Inv(k) && InterruptsOn(k) && s in k.semas && k.semas[s].value > 0
    ensures Inv(Taken(k, s)) && Tested(k, Taken(k, s), s)
  {
    TakenStruct(k, s);
    TakenWakeups(k, s);
  }

  lemma TryAcquireTakes(m: MState, l: LockId)
    requires MInv(m) && MEnabled(m, TryAcquire(l)) && m.k.semas[OfLock(l)].value > 0
    ensures MInv(TestLock(m, l, Taken(m.k, OfLock(l))))
  {
    TakenKeeps(m.k, OfLock(l));
    TestLockSync(m, l, Taken(m.k, OfLock(l)));
  }

  lemma TryAcquireKeeps(m: MState, step: MStep)
    requires MInv(m) && MEnabled(m, step) && step.TryAcquire?
    ensures MInv(MDo(m, step))
  {
    var l := step.l;
    if m.k.semas[OfLock(l)].value > 0 {
      TryAcquireTakes(m, l);
      assert MDo(m, step) == TestLock(m, l, Taken(m.k, OfLock(l)));
    } else {
      assert MDo(m, step) == m;
    }
  }

  lemma TestLockKeeps(m: MState, l: LockId)
    requires MInv(m) && IsLock(m, l) && m.k.current in m.pc && m.k.current != IDLE
    requires if m.k.current in m.k.inDown then Now(m) == InAcquire(l) else Now(m) == Client || Now(m).WaitAcquire?
    ensures MInv(TestLock(m, l, TestDown(m.k, OfLock(l))))
  {
    assert ThreadOk(m, m.k.current);
    TestDownEffect(m.k, OfLock(l));
    TestLockSync(m, l, TestDown(m.k, OfLock(l)));
  }

  lemma AcquireKeeps(m: MState, step: MStep)
    requires MInv(m) && MEnabled(m, step) && step.AcquireStep?
    ensures MInv(MDo(m, step))
  {
    TestLockKeeps(m, step.l);
  }

  lemma RetestAcquireKeeps(m: MState, step: MStep)
    requires MInv(m) && MEnabled(m, step) && step.RetestAcquire?
    ensures MInv(MDo(m, step))
  {
    TestLockKeeps(m, Now(m).l);
  }

  lemma CanSleep(m: MState, c: CondId)
    requires Sync(m) && m.k.current in m.pc
    requires if m.k.current in m.k.inDown then Now(m) == InWait(c) else Now(m) == WaitDown(c)
    ensures OfWaiter(m.k.current) in m.k.semas
    ensures m.k.current in m.k.inDown ==> m.k.inDown[m.k.current] == OfWaiter(m.k.current)
  {
    assert ThreadOk(m, m.k.current);
  }

  lemma TestWaitKeeps(m: MState, c: CondId)
    requires MInv(m) && m.k.current in m.pc && m.k.current != IDLE
    requires if m.k.current in m.k.inDown then Now(m) == InWait(c) else Now(m) == WaitDown(c)
    ensures OfWaiter(m.k.current) in m.k.semas
    ensures MInv(TestWait(m, c, TestDown(m.k, OfWaiter(m.k.current))))
  {
    CanSleep(m, c);
    TestDownEffect(m.k, OfWaiter(m.k.current));
    TestWaitSync(m, c, TestDown(m.k, OfWaiter(m.k.current)));
  }

  lemma SleepKeeps(m: MState, step: MStep)
    requires MInv(m) && MEnabled(m, step) && (step.WaitSleep? || step.RetestWait?)
    ensures MInv(MDo(m, step))
  {
    TestWaitKeeps(m, Now(m).c);
  }

  lemma UpLockKeeps(m: MState, step: MStep)
    requires MInv(m) && MEnabled(m, step) && step.UpLock?
    ensures MInv(MDo(m, step))
  {
    UpEffect(m.k, OfLock(Now(m).l));
    UpLockSync(m, Up(m.k, OfLock(Now(m).l)));
  }

  lemma UpWaiterKeeps(m: MState, step: MStep)
    requires MInv(m) && MEnabled(m, step) && step.UpWaiter?
    ensures MInv(MDo(m, step))
  {
    UpEffect(m.k, OfWaiter(Now(m).w));
    UpWaiterSync(m, Up(m.k, OfWaiter(Now(m).w)));
  }

  /** Nobody else waits on a thread's own semaphore. */
  lemma OwnSemaphore(m: MState, t: Tid, u: Tid)
    requires Sync(m) && u in m.pc && u in m.k.inDown && m.k.inDown[u] == OfWaiter(t)
    ensures u == t && m.pc[t].InWait?
  {
    assert ThreadOk(m, u);
  }

  lemma NobodyWaits(m: MState)
    requires MInv(m) && Free(m)
    ensures forall u :: u in m.k.inDown ==> m.k.inDown[u] != OfWaiter(m.k.current)
  {
    forall u | u in m.k.inDown ensures m.k.inDown[u] != OfWaiter(m.k.current) {
      if m.k.inDown[u] == OfWaiter(m.k.current) { OwnSemaphore(m, m.k.current, u); }
    }
  }

  lemma WaitInit(m: MState)
    requires MInv(m) && Free(m)
    ensures Inv(m.k.(semas := m.k.semas[OfWaiter(m.k.current) := Sema(0, [], 0, 0, 0)]))
  {
    NobodyWaits(m);
    InitKeeps(m.k, OfWaiter(m.k.current), 0);
  }

  lemma WaitKeeps(m: MState, step: MStep)
    requires MInv(m) && MEnabled(m, step) && step.WaitStep?
    ensures MInv(MDo(m, step))
  {
    WaitInit(m);
    WaitSync(m, step.c);
  }

  lemma KernelKeeps(m: MState, step: MStep)
    requires MInv(m) && MEnabled(m, step) && step.KernelStep?
    ensures MInv(MDo(m, step))
  {
    var s := step.step;
    OutsideEffect(m, s);
    OutsideKeeps(m, Do(m.k, s));
    StepKeeps(m.k, s);
  }

  /** The steps that leave the kernel state alone. */
  predicate IsLocal(step: MStep) {
    || step.SetHolder? || step.ReleaseStep? || step.ClearForWait?
    || step.SignalStep? || step.BroadcastStep? || step.BroadcastNext?
  }

  lemma LocalSync(m: MState, step: MStep)
    requires MInv(m) && MEnabled(m, step)
    requires IsLocal(step)
    ensures Sync(MDo(m, step))
  {
    assert ThreadOk(m, m.k.current);
    match step
    case SetHolder => SetHolderSync(m);
    case ReleaseStep(l) => ReleaseSync(m, l);
    case ClearForWait => ClearForWaitSync(m);
    case SignalStep(c) => if m.queue[c] != [] { PopSync(m, c, false); }
    case BroadcastStep(c) => GotoKeeps(m, Broadcasting(c));
    case BroadcastNext =>
      var c := Now(m).c;
      if m.queue[c] == [] { GotoKeeps(m, Client); } else { PopSync(m, c, true); }
  }

  lemma LocalFrame(m: MState, step: MStep)
    requires MEnabled(m, step) && Free(m)
    requires IsLocal(step)
    ensures MDo(m, step).k == m.k && MDo(m, step).pc.Keys == m.pc.Keys
  {
  }

  lemma LocalKeeps(m: MState, step: MStep)
    requires MInv(m) && MEnabled(m, step)
    requires IsLocal(step)
    ensures MInv(MDo(m, step))
  {
    LocalSync(m, step);
    LocalFrame(m, step);
  }

  lemma LockKeeps(m: MState, step: MStep)
    requires MInv(m) && MEnabled(m, step)
    requires step.AcquireStep? || step.RetestAcquire? || step.TryAcquire? || step.UpLock?
    ensures MInv(MDo(m, step))
  {
    match step
    case AcquireStep(_) => AcquireKeeps(m, step);
    case RetestAcquire => RetestAcquireKeeps(m, step);
    case TryAcquire(_) => TryAcquireKeeps(m, step);
    case UpLock => UpLockKeeps(m, step);
  }

  lemma WaiterKeeps(m: MState, step: MStep)
    requires MInv(m) && MEnabled(m, step)
    requires step.WaitStep? || step.WaitSleep? || step.RetestWait? || step.UpWaiter?
    ensures MInv(MDo(m, step))
  {
    match step
    case WaitStep(_) => WaitKeeps(m, step);
    case WaitSleep => SleepKeeps(m, step);
    case RetestWait => SleepKeeps(m, step);
    case UpWaiter => UpWaiterKeeps(m, step);
  }

  /** Every step of the monitor keeps its invariant and the scheduler's. */
  lemma MStepKeeps(m: MState, step: MStep)
    requires MInv(m) && MEnabled(m, step)
    ensures MInv(MDo(m, step))
  {
    if step.KernelStep? {
      KernelKeeps(m, step);
    } else if IsLocal(step) {
      LocalKeeps(m, step);
    } else if step.AcquireStep? || step.RetestAcquire? || step.TryAcquire? || step.UpLock? {
      LockKeeps(m, step);
    } else {
      WaiterKeeps(m, step);
    }
  }

  // ----- whole runs -----

  /** Step `i` leads from state `i` to the next. */
  ghost predicate MStepAt(trace: seq<MState>, steps: seq<MStep>, i: nat) {
    i < |steps| && i + 1 < |trace| && MEnabled(trace[i], steps[i]) && trace[i + 1] == MDo(trace[i], steps[i])
  }

  ghost predicate IsMRun(trace: seq<MState>, steps: seq<MStep>) {
    |trace| == |steps| + 1 && forall i :: 0 <= i < |steps| ==> MStepAt(trace, steps, i)
  }

  /** All locks are initialised and free, and no condition has waiters. */
  ghost predicate MBooted(m: MState) {
    && Booted(m.k)
    && m.pc == map[IDLE := Client, INITIAL := Client]
    && m.holder == map[] && m.owner == map[]
    && (forall s :: s in m.k.semas ==> !s.OfWaiter? && (s.OfLock? ==> m.k.semas[s].value == 1))
    && (forall c :: c in m.queue ==> IsCond(m, c) && m.queue[c] == [] && m.pushed[c] == [] && m.popped[c] == [])
  }

  lemma BootedInv(m: MState)
    requires MBooted(m)
    ensures MInv(m)
  {
    forall u | u in m.pc ensures ThreadOk(m, u) {}
    forall l | IsLock(m, l) ensures LockOk(m, l) {}
    forall c | c in m.queue ensures CondOk(m, c) {}
  }

  lemma KeepsAt(trace: seq<MState>, steps: seq<MStep>, i: nat)
    requires MStepAt(trace, steps, i) && MInv(trace[i])
    ensures MInv(trace[i + 1])
  {
    MStepKeeps(trace[i], steps[i]);
  }

  lemma {:induction false} MRunKeeps(trace: seq<MState>, steps: seq<MStep>, i: nat)
    requires IsMRun(trace, steps) && MInv(trace[0]) && i < |trace|
    ensures MInv(trace[i])
  {
    if i > 0 {
      MRunKeeps(trace, steps, i - 1);
      KeepsAt(trace, steps, i - 1);
    }
  }

  // ----- mutual exclusion -----

  /** The threads between the sema_down and the sema_up of a lock. */
  ghost function Inside(m: MState, l: LockId): set<Tid> {
    set t | t in m.pc && (Holds(m, l, t) || InWindow(m, l, t))
  }

  /** The value of a lock's semaphore and the number of threads inside always add up to one, also
      while `holder` is not set yet or not set any more. */
  lemma MutualExclusion(m: MState, l: LockId)
    requires MInv(m) && IsLock(m, l)
    ensures Value(m, OfLock(l)) + |Inside(m, l)| == 1
  {
    assert LockOk(m, l);
    forall t | t in m.pc && InWindow(m, l, t) ensures l in m.owner && m.owner[l] == t && l !in m.holder {
      assert ThreadOk(m, t);
    }
    if l in m.owner {
      assert Inside(m, l) == {m.owner[l]};
    } else {
      assert Inside(m, l) == {};
    }
  }

  lemma MutualExclusionAlways(trace: seq<MState>, steps: seq<MStep>, i: nat, l: LockId)
    requires IsMRun(trace, steps) && MBooted(trace[0]) && i < |trace| && IsLock(trace[i], l)
    ensures Value(trace[i], OfLock(l)) + |Inside(trace[i], l)| == 1
  {
    BootedInv(trace[0]);
    MRunKeeps(trace, steps, i);
    MutualExclusion(trace[i], l);
  }

  // ----- no signal is lost -----

  /** Only the thread itself can have been woken from its own semaphore. */
  lemma WokenIsOwn(m: MState, t: Tid)
    requires MInv(m)
    ensures Woken(m.k, OfWaiter(t)) <= {t}
  {
    forall u | u in Woken(m.k, OfWaiter(t)) ensures u == t { OwnSemaphore(m, t, u); }
  }

  lemma BlockedMeansZero(k: State, s: SemaId, t: Tid)
    requires Inv(k) && Has(k, t, Blocked) && t in k.inDown && k.inDown[t] == s && Woken(k, s) <= {t}
    ensures s in k.semas && k.semas[s].value == 0
  {
    assert t in k.semas[s].waiters && t !in Woken(k, s);
    assert Woken(k, s) == {};
  }

  lemma TakeableIsAwake(k: State, s: SemaId, t: Tid)
    requires Inv(k) && s in k.semas && k.semas[s].value > 0 && t in k.inDown && k.inDown[t] == s && Woken(k, s) <= {t}
    ensures t == k.current || t in k.ready
  {
    if Has(k, t, Blocked) { BlockedMeansZero(k, s, t); }
    assert Has(k, t, Ready) || Has(k, t, Running);
  }

  /** A waiter that has been taken off the list and whose signal has been delivered will get
      through: its semaphore is 1 even if it has not reached sema_down yet, and if it has blocked
      there it is current or ready to run. */
  lemma SignaledIsAwake(m: MState, c: CondId, t: Tid)
    requires MInv(m) && t in m.pc && (m.pc[t] == WaitDown(c) || m.pc[t] == InWait(c)) && c in m.queue
    requires t !in m.queue[c] && !InFlight(m, c, t)
    ensures Value(m, OfWaiter(t)) == 1
    ensures m.pc[t] == InWait(c) ==> t == m.k.current || t in m.k.ready
  {
    assert ThreadOk(m, t);
    if m.pc[t] == InWait(c) {
      WokenIsOwn(m, t);
      TakeableIsAwake(m.k, OfWaiter(t), t);
    }
  }

  // ----- waits end in order, by a signal, holding the lock -----

  /** The `n`-th wait on `c`, by thread `t`, goes on: `t` is in cond_wait, on the list at place `n`
      or taken off it. */
  ghost predicate WaitGoesOn(m: MState, c: CondId, t: Tid, n: nat) {
    && t in m.pc && IsCond(m, c)
    && if WaitStage(m.pc[t], c)
       then if t in m.queue[c] then |m.popped[c]| <= n < |m.pushed[c]| && m.pushed[c][n] == t else |m.popped[c]| > n
       else |m.popped[c]| > n &&
            (m.pc[t] == WaitAcquire(c) || m.pc[t] == InAcquire(m.lockOf[c]) || m.pc[t] == GotSema(m.lockOf[c]))
  }

  /** The `n`-th wait has returned: it has been taken off the list and its thread holds the lock. */
  ghost predicate WaitReturned(m: MState, c: CondId, t: Tid, n: nat) {
    && t in m.pc && IsCond(m, c) && c in m.popped
    && m.pc[t] == Client && Holds(m, m.lockOf[c], t) && |m.popped[c]| > n
  }

  lemma WaitBegins(m: MState, c: CondId)
    requires MInv(m) && MEnabled(m, WaitStep(c))
    ensures WaitGoesOn(MDo(m, WaitStep(c)), c, m.k.current, |m.pushed[c]|)
  {
    assert CondOk(m, c);
  }

  lemma OthersPc(m: MState, step: MStep, t: Tid)
    requires MEnabled(m, step) && t in m.pc && t != m.k.current && !step.KernelStep?
    ensures t in MDo(m, step).pc && MDo(m, step).pc[t] == m.pc[t]
  {
  }

  /** Only its own steps move a thread; everybody else's leave its place in the code alone. */
  lemma OthersStay(m: MState, step: MStep, t: Tid)
    requires MInv(m) && MEnabled(m, step) && t in m.pc && m.pc[t] != Client && (t != m.k.current || step.KernelStep?)
    ensures t in MDo(m, step).pc && MDo(m, step).pc[t] == m.pc[t]
  {
    if step.KernelStep? { StaysAlive(m.k, step.step, t); } else { OthersPc(m, step, t); }
  }

  /** What a step does to the list of a condition: nothing, a thread joins it, or its first thread leaves it. */
  ghost predicate QueueMoved(m: MState, n: MState, step: MStep, c: CondId)
    requires IsCond(m, c)
  {
    && c in n.queue && c in n.pushed && c in n.popped && n.lockOf == m.lockOf
    && (|| (n.queue[c] == m.queue[c] && n.pushed[c] == m.pushed[c] && n.popped[c] == m.popped[c])
        || (n.queue[c] == m.queue[c] + [m.k.current] && n.pushed[c] == m.pushed[c] + [m.k.current]
            && n.popped[c] == m.popped[c]
            && step == WaitStep(c))
        || (m.queue[c] != [] && n.queue[c] == m.queue[c][1..] && n.pushed[c] == m.pushed[c]
            && n.popped[c] == m.popped[c] + [m.queue[c][0]]
            && m.k.current in n.pc && n.pc[m.k.current].SignalUp? && (Now(m) == Client || Now(m) == Broadcasting(c))))
  }

  lemma QueueSignals(m: MState, step: MStep, c: CondId)
    requires MEnabled(m, step) && IsCond(m, c) && (step.SignalStep? || step.BroadcastNext?)
    ensures QueueMoved(m, MDo(m, step), step, c)
  {
  }

  lemma QueueOthers(m: MState, step: MStep, c: CondId)
    requires MEnabled(m, step) && IsCond(m, c) && !step.SignalStep? && !step.BroadcastNext?
    ensures QueueMoved(m, MDo(m, step), step, c)
  {
    match step
    case KernelStep(_) =>
    case WaitStep(_) =>
    case _ =>
  }

  lemma QueueChange(m: MState, step: MStep, c: CondId)
    requires MEnabled(m, step) && IsCond(m, c)
    ensures QueueMoved(m, MDo(m, step), step, c)
  {
    if step.SignalStep? || step.BroadcastNext? { QueueSignals(m, step, c); } else { QueueOthers(m, step, c); }
  }

  /** A list that only loses its front and grows at its end keeps the place of every other thread. */
  lemma PlaceKept(q: seq<Tid>, p: seq<Tid>, r: seq<Tid>, t: Tid, n: nat)
    requires Distinct(q) && r == p + q && t in q && |p| <= n < |r| && r[n] == t && q != []
    ensures if t == q[0] then |p| == n && t !in q[1..] else |p| + 1 <= n && t in q[1..]
  {
    assert q[n - |p|] == t;
    if t != q[0] { assert q[1..][n - |p| - 1] == t; }
  }

  lemma WaitByOthers(m: MState, step: MStep, c: CondId, t: Tid, n: nat)
    requires MInv(m) && MEnabled(m, step) && WaitGoesOn(m, c, t, n) && (t != m.k.current || step.KernelStep?)
    requires IsCond(MDo(m, step), c)
    ensures WaitGoesOn(MDo(m, step), c, t, n)
  {
    OthersStay(m, step, t);
    QueueChange(m, step, c);
    assert CondOk(m, c);
    if t in m.queue[c] { PlaceKept(m.queue[c], m.popped[c], m.pushed[c], t, n); }
    if WaitStage(m.pc[t], c) && t !in m.queue[c] && step == WaitStep(c) {
      assert t !in m.queue[c] + [m.k.current];
    }
  }

  lemma WaitByItself(m: MState, step: MStep, c: CondId, t: Tid, n: nat)
    requires MEnabled(m, step) && WaitGoesOn(m, c, t, n) && t == m.k.current && !step.KernelStep?
    requires ThreadOk(m, t) && IsCond(MDo(m, step), c)
    ensures WaitGoesOn(MDo(m, step), c, t, n) || WaitReturned(MDo(m, step), c, t, n)
  {
    QueueChange(m, step, c);
  }

  /** In every step a wait goes on or returns, after a signal has taken it off the list, holding
      the lock. */
  lemma WaitOneStep(m: MState, step: MStep, c: CondId, t: Tid, n: nat)
    requires MInv(m) && MEnabled(m, step) && WaitGoesOn(m, c, t, n)
    ensures WaitGoesOn(MDo(m, step), c, t, n) || WaitReturned(MDo(m, step), c, t, n)
  {
    MStepKeeps(m, step);
    QueueChange(m, step, c);
    assert CondOk(MDo(m, step), c);
    if t != m.k.current || step.KernelStep? {
      WaitByOthers(m, step, c, t, n);
    } else {
      WaitByItself(m, step, c, t, n);
    }
  }

  lemma WaitAt(trace: seq<MState>, steps: seq<MStep>, c: CondId, t: Tid, n: nat, j: nat)
    requires IsMRun(trace, steps) && MInv(trace[0]) && j < |steps| && WaitGoesOn(trace[j], c, t, n)
    ensures WaitGoesOn(trace[j + 1], c, t, n) || WaitReturned(trace[j + 1], c, t, n)
  {
    MRunKeeps(trace, steps, j);
    assert MStepAt(trace, steps, j);
    WaitOneStep(trace[j], steps[j], c, t, n);
  }

  /** What goes on or ends in every step goes on all the way or has ended somewhere. */
  lemma {:induction false} Until(on: seq<bool>, ended: seq<bool>, i: nat, j: nat)
    requires |on| == |ended| && i <= j < |on| && on[i]
    requires forall r: nat :: r + 1 < |on| && on[r] ==> on[r + 1] || ended[r + 1]
    ensures on[j] || exists r :: i < r <= j && ended[r]
    decreases j
  {
    if i < j { Until(on, ended, i, j - 1); }
  }

  /** Condition variables lose no signal and serve waits in order: a wait that is the `n`-th on its
      condition returns only after the `n`-th signal that found a waiter, and then holds the lock. */
  lemma WaitReturnsInOrder(trace: seq<MState>, steps: seq<MStep>, c: CondId, t: Tid, n: nat, i: nat, j: nat)
    requires IsMRun(trace, steps) && MInv(trace[0]) && i <= j < |trace| && WaitGoesOn(trace[i], c, t, n)
    ensures WaitGoesOn(trace[j], c, t, n) || exists r :: i < r <= j && WaitReturned(trace[r], c, t, n)
  {
    var on := seq(|trace|, r requires 0 <= r < |trace| => WaitGoesOn(trace[r], c, t, n));
    var ended := seq(|trace|, r requires 0 <= r < |trace| => WaitReturned(trace[r], c, t, n));
    forall r: nat | r + 1 < |on| && on[r] ensures on[r + 1] || ended[r + 1] {
      WaitAt(trace, steps, c, t, n, r);
    }
    Until(on, ended, i, j);
  }

  /** A signal takes off the list the oldest wait that has not been signaled. */
  lemma SignalTakesOldest(m: MState, c: CondId)
    requires MInv(m) && MEnabled(m, SignalStep(c)) && m.queue[c] != []
    ensures var n := MDo(m, SignalStep(c));
            n.popped[c] == m.popped[c] + [m.pushed[c][|m.popped[c]|]] && n.pushed[c] == m.pushed[c]
  {
    assert CondOk(m, c);
  }

  // ----- broadcast -----

  /** Thread `t` is in cond_broadcast, and nobody has joined the list since it began. */
  ghost predicate BroadcastGoesOn(m: MState, c: CondId, t: Tid, all: seq<Tid>) {
    && t in m.pc && IsCond(m, c) && m.pushed[c] == all
    && (m.pc[t] == Broadcasting(c) || (m.pc[t].SignalUp? && m.pc[t].c == c && m.pc[t].all))
  }

  /** It has returned and has signaled everybody who waited when it began. */
  ghost predicate BroadcastReturned(m: MState, c: CondId, t: Tid, all: seq<Tid>) {
    t in m.pc && IsCond(m, c) && m.pc[t] == Client && m.pushed[c] == all && m.popped[c] == all
  }

  lemma BroadcastOneStep(m: MState, step: MStep, c: CondId, t: Tid, all: seq<Tid>)
    requires MInv(m) && MEnabled(m, step) && BroadcastGoesOn(m, c, t, all)
    ensures BroadcastGoesOn(MDo(m, step), c, t, all) || BroadcastReturned(MDo(m, step), c, t, all)
  {
    MStepKeeps(m, step);
    QueueChange(m, step, c);
    assert CondOk(MDo(m, step), c) && CondOk(m, c) && ThreadOk(m, t);
    if t != m.k.current || step.KernelStep? {
      OthersStay(m, step, t);
    }
  }

  lemma BroadcastAt(trace: seq<MState>, steps: seq<MStep>, c: CondId, t: Tid, all: seq<Tid>, j: nat)
    requires IsMRun(trace, steps) && MInv(trace[0]) && j < |steps| && BroadcastGoesOn(trace[j], c, t, all)
    ensures BroadcastGoesOn(trace[j + 1], c, t, all) || BroadcastReturned(trace[j + 1], c, t, all)
  {
    MRunKeeps(trace, steps, j);
    assert MStepAt(trace, steps, j);
    BroadcastOneStep(trace[j], steps[j], c, t, all);
  }

  /** A broadcast goes on until it has signaled everybody who waited when it began. */
  lemma BroadcastWakesAll(trace: seq<MState>, steps: seq<MStep>, c: CondId, t: Tid, all: seq<Tid>, i: nat, j: nat)
    requires IsMRun(trace, steps) && MInv(trace[0]) && i <= j < |trace| && BroadcastGoesOn(trace[i], c, t, all)
    ensures BroadcastGoesOn(trace[j], c, t, all) || exists r :: i < r <= j && BroadcastReturned(trace[r], c, t, all)
  {
    var on := seq(|trace|, r requires 0 <= r < |trace| => BroadcastGoesOn(trace[r], c, t, all));
    var ended := seq(|trace|, r requires 0 <= r < |trace| => BroadcastReturned(trace[r], c, t, all));
    forall r: nat | r + 1 < |on| && on[r] ensures on[r + 1] || ended[r + 1] {
      BroadcastAt(trace, steps, c, t, all, r);
    }
    Until(on, ended, i, j);
  }
}
