/** What the operations of locks and conditions do for their callers: each begins, goes on and returns as promised,
    in every run, and a lock that is released is handed on in bounded time. */
module LockLaws {

  import opened Basics
  import opened Monitor
  import opened MonitorProgress
  import opened Scheduler
  import opened SchedulerLaws

  // ----- releasing a lock -----

  /** Thread `t` has begun to release `l`: it no longer counts as the holder, and has to up the semaphore. */
  ghost predicate Releasing(m: MState, l: LockId, t: Tid) { t in m.pc && m.pc[t].Cleared? && m.pc[t].l == l }

  /** The step with which the current thread begins to release `l`, alone or in cond_wait. */
  ghost predicate BeginsRelease(m: MState, step: MStep, l: LockId)
    requires MEnabled(m, step)
  {
    step == ReleaseStep(l) || (step == ClearForWait && m.lockOf[Now(m).c] == l)
  }

  /** A release that begins leaves the lock without a holder, and the thread can up the semaphore next. */
  lemma ReleaseBegins(m: MState, step: MStep, l: LockId)
    requires MInv(m) && MEnabled(m, step) && BeginsRelease(m, step, l)
    ensures var n, t := MDo(m, step), m.k.current;
      && Holds(m, l, t) && l !in n.holder && Releasing(n, l, t) && n.k == m.k && MEnabled(n, UpLock)
      && n.pc[t].wait == (if step == ClearForWait then Some(Now(m).c) else None)
  {
    assert ThreadOk(m, m.k.current) && LockOk(m, l);
  }

  /** From `m` to `n` thread `t` has released `l`: nobody is inside, the semaphore can be taken, and the thread that
      has waited longest for it is the last of the ready list. */
  ghost predicate Freed(m: MState, n: MState, l: LockId, t: Tid) {
    && Releasing(m, l, t) && t in n.pc && IsLock(m, l) && IsLock(n, l)
    && n.pc[t] == (if m.pc[t].wait.None? then Client else WaitDown(m.pc[t].wait.value))
    && Value(n, OfLock(l)) == 1 && Inside(n, l) == {} && l !in n.holder
    && var w := m.k.semas[OfLock(l)].waiters;
       w != [] ==> n.k.ready == m.k.ready + [w[0]] && n.k.semas[OfLock(l)].waiters == w[1..]
  }

  lemma OwnerHasIt(m: MState, t: Tid, l: LockId)
    requires Sync(m) && Releasing(m, l, t) && IsLock(m, l)
    ensures Value(m, OfLock(l)) == 0
  {
    assert ThreadOk(m, t) && LockOk(m, l);
  }

  lemma UpLockUps(m: MState)
    requires MInv(m) && MEnabled(m, UpLock)
    ensures var k', l := MDo(m, UpLock).k, Now(m).l; var w := m.k.semas[OfLock(l)].waiters;
      && OfLock(l) in k'.semas && k'.semas[OfLock(l)].value == 1
      && (w != [] ==> k'.ready == m.k.ready + [w[0]] && k'.semas[OfLock(l)].waiters == w[1..])
  {
    OwnerHasIt(m, m.k.current, Now(m).l);
    StepIsKernelStep(m, UpLock);
    UpWakesFirst(m.k, OfLock(Now(m).l));
  }

  lemma FreeIsEmpty(m: MState, l: LockId)
    requires MInv(m) && IsLock(m, l) && Value(m, OfLock(l)) == 1
    ensures Inside(m, l) == {} && l !in m.holder
  {
    MutualExclusion(m, l);
    assert LockOk(m, l);
  }

  lemma ReleaseReturns(m: MState)
    requires MInv(m) && MEnabled(m, UpLock)
    ensures Freed(m, MDo(m, UpLock), Now(m).l, m.k.current)
  {
    MStepKeeps(m, UpLock);
    UpLockUps(m);
    FreeIsEmpty(MDo(m, UpLock), Now(m).l);
  }

  lemma ReleaseStepOn(m: MState, step: MStep, l: LockId, t: Tid)
    requires MInv(m) && MEnabled(m, step) && Releasing(m, l, t)
    ensures Releasing(MDo(m, step), l, t) || Freed(m, MDo(m, step), l, t)
  {
    if t != m.k.current || step.KernelStep? {
      OthersStay(m, step, t);
    } else {
      assert step == UpLock;
      ReleaseReturns(m);
    }
  }

  /** The step to state `r` of the run was the end of a release. */
  ghost predicate FreedAt(trace: seq<MState>, l: LockId, t: Tid, r: int) {
    0 < r < |trace| && Freed(trace[r - 1], trace[r], l, t)
  }

  lemma ReleaseAt(trace: seq<MState>, steps: seq<MStep>, l: LockId, t: Tid, r: nat)
    requires IsMRun(trace, steps) && MInv(trace[0]) && r < |steps| && Releasing(trace[r], l, t)
    ensures Releasing(trace[r + 1], l, t) || FreedAt(trace, l, t, r + 1)
  {
    MRunKeeps(trace, steps, r);
    assert MStepAt(trace, steps, r);
    ReleaseStepOn(trace[r], steps[r], l, t);
  }

  /** In every run, a release goes on or has returned, and then it has freed the lock. */
  lemma ReleaseFrees(trace: seq<MState>, steps: seq<MStep>, l: LockId, t: Tid, i: nat, j: nat)
    requires IsMRun(trace, steps) && MInv(trace[0]) && i <= j < |trace| && Releasing(trace[i], l, t)
    ensures Releasing(trace[j], l, t) || exists r :: i < r <= j && FreedAt(trace, l, t, r)
  {
    var on := seq(|trace|, r requires 0 <= r < |trace| => Releasing(trace[r], l, t));
    var ended := seq(|trace|, r requires 0 <= r < |trace| => FreedAt(trace, l, t, r));
    forall r: nat | r + 1 < |on| && on[r] ensures on[r + 1] || ended[r + 1] { ReleaseAt(trace, steps, l, t, r); }
    Until(on, ended, i, j);
  }

  // ----- acquiring a lock -----

  /** A test of the lock's semaphore by the current thread: a free lock is taken; otherwise the thread joins the
      line for it at its end. */
  ghost predicate Tried(m: MState, l: LockId, n: MState) {
    && IsLock(m, l) && IsLock(n, l) && m.k.current in n.pc
    && (Value(m, OfLock(l)) > 0 ==> n.pc[m.k.current] == GotSema(l) && Inside(n, l) == {m.k.current})
    && (Value(m, OfLock(l)) == 0 ==>
          && n.pc[m.k.current] == InAcquire(l)
          && n.k.semas[OfLock(l)].waiters == m.k.semas[OfLock(l)].waiters + [m.k.current])
  }

  lemma WindowIsInside(m: MState, l: LockId, t: Tid)
    requires MInv(m) && IsLock(m, l) && t in m.pc && InWindow(m, l, t)
    ensures Inside(m, l) == {t}
  {
    MutualExclusion(m, l);
    assert t in Inside(m, l);
    assert |Inside(m, l) - {t}| == 0;
  }

  lemma HolderIsInside(m: MState, l: LockId, t: Tid)
    requires MInv(m) && IsLock(m, l) && t in m.pc && Holds(m, l, t)
    ensures Inside(m, l) == {t}
  {
    MutualExclusion(m, l);
    assert t in Inside(m, l);
    assert |Inside(m, l) - {t}| == 0;
  }

  lemma TriedByKernel(m: MState, l: LockId, n: MState)
    requires MInv(m) && MInv(n) && IsLock(m, l) && Downed(m.k, OfLock(l), n.k) && m.k.current in n.pc
    requires Value(m, OfLock(l)) > 0 ==> n.pc[m.k.current] == GotSema(l)
    requires Value(m, OfLock(l)) == 0 ==> n.pc[m.k.current] == InAcquire(l)
    ensures Tried(m, l, n)
  {
    if Value(m, OfLock(l)) > 0 { WindowIsInside(n, l, m.k.current); }
  }

  /** lock_acquire. */
  lemma AcquireTakesOrWaits(m: MState, l: LockId)
    requires MInv(m) && MEnabled(m, AcquireStep(l))
    ensures Tried(m, l, MDo(m, AcquireStep(l)))
  {
    MStepKeeps(m, AcquireStep(l));
    DownTakesOrWaits(m.k, OfLock(l));
    TriedByKernel(m, l, MDo(m, AcquireStep(l)));
  }

  lemma RetestsItsLock(m: MState)
    requires MInv(m) && MEnabled(m, RetestAcquire)
    ensures m.k.inDown[m.k.current] == OfLock(Now(m).l)
  {
    assert ThreadOk(m, m.k.current);
  }

  /** And each further test, after having been woken. */
  lemma RetestAcquireTakesOrWaits(m: MState)
    requires MInv(m) && MEnabled(m, RetestAcquire)
    ensures Tried(m, Now(m).l, MDo(m, RetestAcquire))
  {
    RetestsItsLock(m);
    MStepKeeps(m, RetestAcquire);
    RetestTakesOrWaits(m.k);
    TriedByKernel(m, Now(m).l, MDo(m, RetestAcquire));
  }

  /** lock_try_acquire takes a free lock, and changes nothing otherwise. */
  lemma TryAcquireTakes(m: MState, l: LockId)
    requires MInv(m) && MEnabled(m, TryAcquire(l))
    ensures Value(m, OfLock(l)) > 0 ==> Tried(m, l, MDo(m, TryAcquire(l)))
    ensures Value(m, OfLock(l)) == 0 ==> MDo(m, TryAcquire(l)) == m
  {
    if Value(m, OfLock(l)) > 0 {
      MStepKeeps(m, TryAcquire(l));
      TryDownTakes(m.k, OfLock(l));
      TriedByKernel(m, l, MDo(m, TryAcquire(l)));
    }
  }

  /** Thread `t` is in lock_acquire or lock_try_acquire of `l`. */
  ghost predicate Acquiring(m: MState, l: LockId, t: Tid) {
    t in m.pc && IsLock(m, l) && (m.pc[t] == InAcquire(l) || m.pc[t] == GotSema(l))
  }

  /** It has returned, as the holder, and nobody else is inside. */
  ghost predicate Acquired(m: MState, l: LockId, t: Tid) {
    t in m.pc && IsLock(m, l) && m.pc[t] == Client && Holds(m, l, t) && Inside(m, l) == {t}
  }

  lemma SetHolderAcquires(m: MState)
    requires MInv(m) && MEnabled(m, SetHolder)
    ensures Acquired(MDo(m, SetHolder), Now(m).l, m.k.current)
  {
    MStepKeeps(m, SetHolder);
    var n, l := MDo(m, SetHolder), Now(m).l;
    assert ThreadOk(m, m.k.current);
    assert Holds(n, l, m.k.current);
    HolderIsInside(n, l, m.k.current);
  }

  lemma KernelKeepsSema(k: State, step: Step, s: SemaId)
    requires Enabled(k, step) && s in k.semas
    ensures s in Do(k, step).semas
  {
  }

  lemma KeepsLock(m: MState, step: MStep, l: LockId)
    requires MInv(m) && MEnabled(m, step) && IsLock(m, l)
    ensures IsLock(MDo(m, step), l)
  {
    StepIsKernelStep(m, step);
    var part := KernelPart(m, step);
    if part.Some? { KernelKeepsSema(m.k, part.value, OfLock(l)); }
  }

  lemma AcquireStepOn(m: MState, step: MStep, l: LockId, t: Tid)
    requires MInv(m) && MEnabled(m, step) && Acquiring(m, l, t)
    ensures Acquiring(MDo(m, step), l, t) || Acquired(MDo(m, step), l, t)
  {
    StepIsKernelStep(m, step);
    KeepsLock(m, step, l);
    if t != m.k.current || step.KernelStep? {
      OthersStay(m, step, t);
    } else if step == SetHolder {
      SetHolderAcquires(m);
    } else {
      assert step == RetestAcquire;
      RetestAcquireTakesOrWaits(m);
    }
  }

  lemma AcquireAt(trace: seq<MState>, steps: seq<MStep>, l: LockId, t: Tid, r: nat)
    requires IsMRun(trace, steps) && MInv(trace[0]) && r < |steps| && Acquiring(trace[r], l, t)
    ensures Acquiring(trace[r + 1], l, t) || Acquired(trace[r + 1], l, t)
  {
    MRunKeeps(trace, steps, r);
    assert MStepAt(trace, steps, r);
    AcquireStepOn(trace[r], steps[r], l, t);
  }

  /** In every run, an acquire goes on or has returned, and then its thread is the only one inside. */
  lemma AcquireReturnsInside(trace: seq<MState>, steps: seq<MStep>, l: LockId, t: Tid, i: nat, j: nat)
    requires IsMRun(trace, steps) && MInv(trace[0]) && i <= j < |trace| && Acquiring(trace[i], l, t)
    ensures Acquiring(trace[j], l, t) || exists r :: i < r <= j && Acquired(trace[r], l, t)
  {
    var on := seq(|trace|, r requires 0 <= r < |trace| => Acquiring(trace[r], l, t));
    var ended := seq(|trace|, r requires 0 <= r < |trace| => Acquired(trace[r], l, t));
    forall r: nat | r + 1 < |on| && on[r] ensures on[r + 1] || ended[r + 1] { AcquireAt(trace, steps, l, t, r); }
    Until(on, ended, i, j);
  }

  // ----- a released lock is handed on -----

  /** `t` is about to test the lock again; if it is free then, `t` is inside next. */
  ghost predicate ItsTurn(m: MState, l: LockId, t: Tid) {
    && m.k.current == t && MEnabled(m, RetestAcquire) && IsLock(m, l)
    && (Value(m, OfLock(l)) > 0 ==> Inside(MDo(m, RetestAcquire), l) == {t})
    && (Value(m, OfLock(l)) == 0 ==> Inside(m, l) != {})
  }

  lemma CurrentHasItsTurn(m: MState, l: LockId, t: Tid)
    requires MInv(m) && t in m.pc && m.pc[t] == InAcquire(l) && m.k.current == t
    ensures ItsTurn(m, l, t)
  {
    assert ThreadOk(m, t);
    RetestAcquireTakesOrWaits(m);
    MutualExclusion(m, l);
  }

  lemma StaysInAcquire(trace: seq<MState>, steps: seq<MStep>, l: LockId, t: Tid, r: nat)
    requires IsMRun(trace, steps) && MInv(trace[0]) && r < |steps|
    requires t in trace[r].pc && trace[r].pc[t] == InAcquire(l) && trace[r].k.current != t
    ensures t in trace[r + 1].pc && trace[r + 1].pc[t] == InAcquire(l)
  {
    MRunKeeps(trace, steps, r);
    assert MStepAt(trace, steps, r);
    OthersStay(trace[r], steps[r], t);
  }

  /** When `t` becomes current for the first time, it is where it was. */
  lemma InAcquireWhenCurrent(trace: seq<MState>, steps: seq<MStep>, l: LockId, t: Tid, i: nat, j: nat) returns (r: nat)
    requires IsMRun(trace, steps) && MInv(trace[0]) && i <= j < |trace|
    requires t in trace[i].pc && trace[i].pc[t] == InAcquire(l) && trace[j].k.current == t
    ensures i <= r <= j && t in trace[r].pc && trace[r].pc[t] == InAcquire(l) && trace[r].k.current == t
  {
    var on := seq(|trace|, q requires 0 <= q < |trace| => t in trace[q].pc && trace[q].pc[t] == InAcquire(l));
    var met := seq(|trace|, q requires 0 <= q < |trace| => trace[q].k.current == t);
    forall q: nat | q + 1 < |on| && on[q] && !met[q] ensures on[q + 1] { StaysInAcquire(trace, steps, l, t, q); }
    r := HoldsWhenMet(on, met, i, j);
  }

  /** A thread at place `p` of the ready list that waits for a lock has its turn before 4(p+1) ticks have passed. */
  lemma WokenHasItsTurn(trace: seq<MState>, steps: seq<MStep>, l: LockId, i: nat, j: nat, p: nat) returns (r: nat)
    requires IsMRun(trace, steps) && MInv(trace[0]) && i <= j < |trace| && p < |trace[i].k.ready|
    requires trace[i].k.ready[p] in trace[i].pc && trace[i].pc[trace[i].k.ready[p]] == InAcquire(l)
    requires trace[j].k.clock - trace[i].k.clock >= TIME_SLICE * (p + 1)
    ensures i <= r <= j && ItsTurn(trace[r], l, trace[i].k.ready[p])
  {
    var t := trace[i].k.ready[p];
    var q := MonitorBoundedWaiting(trace, steps, i, j, p);
    r := InAcquireWhenCurrent(trace, steps, l, t, i, q);
    MRunKeeps(trace, steps, r);
    CurrentHasItsTurn(trace[r], l, t);
  }

  lemma WaiterIsInAcquire(m: MState, l: LockId, t: Tid)
    requires MInv(m) && IsLock(m, l) && t in m.k.semas[OfLock(l)].waiters
    ensures t in m.pc && m.pc[t] == InAcquire(l) && t != m.k.current
  {
    assert t in m.k.inDown && m.k.inDown[t] == OfLock(l) && Has(m.k, t, Blocked);
    assert ThreadOk(m, t);
  }

  lemma FirstInLine(trace: seq<MState>, steps: seq<MStep>, l: LockId, i: nat)
    requires IsMRun(trace, steps) && MInv(trace[0]) && i < |steps| && steps[i] == UpLock
    requires Now(trace[i]).Cleared? && Now(trace[i]).l == l
    requires IsLock(trace[i], l) && trace[i].k.semas[OfLock(l)].waiters != []
    ensures var t := trace[i].k.semas[OfLock(l)].waiters[0];
      && trace[i + 1].k.ready == trace[i].k.ready + [t]
      && t in trace[i + 1].pc && trace[i + 1].pc[t] == InAcquire(l)
  {
    MRunKeeps(trace, steps, i);
    assert MStepAt(trace, steps, i);
    ReleaseReturns(trace[i]);
    var t := trace[i].k.semas[OfLock(l)].waiters[0];
    assert t in trace[i].k.semas[OfLock(l)].waiters;
    WaiterIsInAcquire(trace[i], l, t);
    OthersStay(trace[i], steps[i], t);
  }

  /** The thread that was first in line when a lock was released has its turn before four ticks have passed for each
      thread that was ready then and itself: it gets the lock, unless another thread is inside at that time. */
  lemma ReleaseHandsOn(trace: seq<MState>, steps: seq<MStep>, l: LockId, i: nat, j: nat) returns (r: nat)
    requires IsMRun(trace, steps) && MInv(trace[0]) && i < |steps| && steps[i] == UpLock
    requires Now(trace[i]).Cleared? && Now(trace[i]).l == l
    requires IsLock(trace[i], l) && trace[i].k.semas[OfLock(l)].waiters != []
    requires i < j < |trace|
    requires trace[j].k.clock - trace[i + 1].k.clock >= TIME_SLICE * (|trace[i].k.ready| + 1)
    ensures i < r <= j && ItsTurn(trace[r], l, trace[i].k.semas[OfLock(l)].waiters[0])
  {
    FirstInLine(trace, steps, l, i);
    r := WokenHasItsTurn(trace, steps, l, i + 1, j, |trace[i].k.ready|);
  }

  // ----- waiting, signaling and broadcasting -----

  /** In cond_wait, after the lock is released: a waiter whose signal came first goes on to the lock; one without
      goes to sleep on its own semaphore. */
  ghost predicate Slept(m: MState, c: CondId, n: MState) {
    && OfWaiter(m.k.current) in m.k.semas && OfWaiter(m.k.current) in n.k.semas && m.k.current in n.pc
    && (Value(m, OfWaiter(m.k.current)) > 0 ==>
          n.pc[m.k.current] == WaitAcquire(c) && n.k.current == m.k.current)
    && (Value(m, OfWaiter(m.k.current)) == 0 ==>
          && n.pc[m.k.current] == InWait(c) && Has(n.k, m.k.current, Blocked)
          && m.k.current in n.k.semas[OfWaiter(m.k.current)].waiters)
  }

  lemma SleepsUntilSignaled(m: MState)
    requires MInv(m) && MEnabled(m, WaitSleep)
    ensures Slept(m, Now(m).c, MDo(m, WaitSleep))
  {
    DownTakesOrWaits(m.k, OfWaiter(m.k.current));
  }

  /** The signal of `t` for waiter `w` is on its way. */
  ghost predicate Signaling(m: MState, c: CondId, t: Tid, w: Tid) {
    t in m.pc && m.pc[t].SignalUp? && m.pc[t].c == c && m.pc[t].w == w
  }

  /** It has been delivered: the waiter's semaphore is 1, and if it sleeps it is ready to run. */
  ghost predicate SignalArrived(m: MState, c: CondId, w: Tid) {
    && w in m.pc && Value(m, OfWaiter(w)) == 1 && (m.pc[w] == WaitDown(c) || m.pc[w] == InWait(c))
    && (m.pc[w] == InWait(c) ==> w == m.k.current || w in m.k.ready)
  }

  /** A signal on a condition with waiters is for the one that has waited longest; without any nothing happens. */
  lemma SignalBegins(m: MState, c: CondId)
    requires MInv(m) && MEnabled(m, SignalStep(c))
    ensures m.queue[c] == [] ==> MDo(m, SignalStep(c)) == m
    ensures m.queue[c] != [] ==> Signaling(MDo(m, SignalStep(c)), c, m.k.current, m.queue[c][0])
    ensures m.queue[c] != [] ==> MDo(m, SignalStep(c)).queue[c] == m.queue[c][1..]
  {
  }

  lemma UpWaiterRaises(m: MState)
    requires MInv(m) && MEnabled(m, UpWaiter)
    ensures var n, w, c := MDo(m, UpWaiter), Now(m).w, Now(m).c;
      && w in m.pc && w in n.pc && n.pc[w] == m.pc[w] && (m.pc[w] == WaitDown(c) || m.pc[w] == InWait(c))
      && c in n.queue && w !in n.queue[c] && !InFlight(n, c, w)
  {
    assert ThreadOk(m, m.k.current);
    OthersPc(m, UpWaiter, Now(m).w);
  }

  lemma SignalArrives(m: MState)
    requires MInv(m) && MEnabled(m, UpWaiter)
    ensures SignalArrived(MDo(m, UpWaiter), Now(m).c, Now(m).w)
  {
    MStepKeeps(m, UpWaiter);
    UpWaiterRaises(m);
    SignaledIsAwake(MDo(m, UpWaiter), Now(m).c, Now(m).w);
  }

  lemma SignalStepOn(m: MState, step: MStep, c: CondId, t: Tid, w: Tid)
    requires MInv(m) && MEnabled(m, step) && Signaling(m, c, t, w)
    ensures Signaling(MDo(m, step), c, t, w) || SignalArrived(MDo(m, step), c, w)
  {
    if t != m.k.current || step.KernelStep? {
      OthersStay(m, step, t);
    } else {
      assert step == UpWaiter;
      SignalArrives(m);
    }
  }

  lemma SignalAt(trace: seq<MState>, steps: seq<MStep>, c: CondId, t: Tid, w: Tid, r: nat)
    requires IsMRun(trace, steps) && MInv(trace[0]) && r < |steps| && Signaling(trace[r], c, t, w)
    ensures Signaling(trace[r + 1], c, t, w) || SignalArrived(trace[r + 1], c, w)
  {
    MRunKeeps(trace, steps, r);
    assert MStepAt(trace, steps, r);
    SignalStepOn(trace[r], steps[r], c, t, w);
  }

  /** In every run, a signal goes on or has arrived. */
  lemma SignalGoesThrough(trace: seq<MState>, steps: seq<MStep>, c: CondId, t: Tid, w: Tid, i: nat, j: nat)
    requires IsMRun(trace, steps) && MInv(trace[0]) && i <= j < |trace| && Signaling(trace[i], c, t, w)
    ensures Signaling(trace[j], c, t, w) || exists r :: i < r <= j && SignalArrived(trace[r], c, w)
  {
    var on := seq(|trace|, r requires 0 <= r < |trace| => Signaling(trace[r], c, t, w));
    var ended := seq(|trace|, r requires 0 <= r < |trace| => SignalArrived(trace[r], c, w));
    forall r: nat | r + 1 < |on| && on[r] ensures on[r + 1] || ended[r + 1] { SignalAt(trace, steps, c, t, w, r); }
    Until(on, ended, i, j);
  }

  /** A broadcast begins, for all that wait then; it ends when nobody is left, and signals the first until then. */
  lemma BroadcastBegins(m: MState, c: CondId)
    requires MInv(m) && MEnabled(m, BroadcastStep(c))
    ensures BroadcastGoesOn(MDo(m, BroadcastStep(c)), c, m.k.current, m.pushed[c])
    ensures MEnabled(MDo(m, BroadcastStep(c)), BroadcastNext)
  {
  }

  lemma BroadcastSignalsNext(m: MState)
    requires MInv(m) && MEnabled(m, BroadcastNext)
    ensures var n, c := MDo(m, BroadcastNext), Now(m).c;
      && m.k.current in n.pc && c in n.queue
      && (m.queue[c] == [] ==> n.pc[m.k.current] == Client)
      && (m.queue[c] != [] ==>
            Signaling(n, c, m.k.current, m.queue[c][0]) && n.pc[m.k.current].all && n.queue[c] == m.queue[c][1..])
  {
  }

  /** After each of its signals a broadcast looks again. */
  lemma BroadcastLooksAgain(m: MState)
    requires MInv(m) && MEnabled(m, UpWaiter)
    ensures var n := MDo(m, UpWaiter);
      && m.k.current in n.pc
      && n.pc[m.k.current] == (if Now(m).all then Broadcasting(Now(m).c) else Client)
  {
  }
}
