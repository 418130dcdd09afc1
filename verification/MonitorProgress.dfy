/** Every run of the monitor is a run of the scheduler, so what the scheduler promises about the ready
    list holds for the threads inside synch.c: a delivered signal is acted on in bounded time. */
module MonitorProgress {

  import opened Basics
  import opened Monitor
  import opened Scheduler

  // ----- a monitor step is one scheduler step or none -----

  /** The scheduler step that a monitor step takes, if it takes one. */
  ghost function KernelPart(m: MState, step: MStep): Option<Step>
    requires MEnabled(m, step)
  {
    var t, pc := m.k.current, Now(m);
    match step
    case KernelStep(s) => Some(s)
    case AcquireStep(l) => Some(DownStep(OfLock(l)))
    case RetestAcquire => Some(RetestStep)
    case TryAcquire(l) => Some(TryDownStep(OfLock(l)))
    case UpLock => Some(UpStep(OfLock(pc.l)))
    case WaitStep(_) => Some(InitStep(OfWaiter(t), 0))
    case WaitSleep => Some(DownStep(OfWaiter(t)))
    case RetestWait => Some(RetestStep)
    case UpWaiter => Some(UpStep(OfWaiter(pc.w)))
    case _ => None
  }

  /** `k'` is what the scheduler step `part` makes of `k`; without a step it is `k` itself. */
  ghost predicate Moves(k: State, part: Option<Step>, k': State) {
    match part
    case None => k' == k
    case Some(s) => Enabled(k, s) && k' == Do(k, s)
  }

  lemma WaitMoves(m: MState, step: MStep)
    requires MEnabled(m, step) && step.WaitStep?
    requires forall u :: u in m.k.inDown ==> m.k.inDown[u] != OfWaiter(m.k.current)
    ensures Moves(m.k, KernelPart(m, step), MDo(m, step).k)
  {
  }

  lemma WaitInits(m: MState, step: MStep)
    requires MInv(m) && MEnabled(m, step) && step.WaitStep?
    ensures Moves(m.k, KernelPart(m, step), MDo(m, step).k)
  {
    NobodyWaits(m);
    WaitMoves(m, step);
  }

  lemma ResumedMoves(m: MState, step: MStep)
    requires MEnabled(m, step) && (step.RetestAcquire? || step.RetestWait?) && ThreadOk(m, m.k.current)
    ensures Moves(m.k, KernelPart(m, step), MDo(m, step).k)
  {
  }

  lemma RetestMoves(m: MState, step: MStep)
    requires MInv(m) && MEnabled(m, step) && (step.RetestAcquire? || step.RetestWait?)
    ensures Moves(m.k, KernelPart(m, step), MDo(m, step).k)
  {
    assert ThreadOk(m, m.k.current);
    ResumedMoves(m, step);
  }

  lemma DownMoves(m: MState, step: MStep)
    requires MEnabled(m, step) && (step.KernelStep? || step.AcquireStep? || step.WaitSleep?)
    ensures Moves(m.k, KernelPart(m, step), MDo(m, step).k)
  {
  }

  lemma TryMoves(m: MState, step: MStep)
    requires MEnabled(m, step) && step.TryAcquire?
    ensures Moves(m.k, KernelPart(m, step), MDo(m, step).k)
  {
  }

  lemma UpMoves(m: MState, step: MStep)
    requires MEnabled(m, step) && (step.UpLock? || step.UpWaiter?)
    ensures Moves(m.k, KernelPart(m, step), MDo(m, step).k)
  {
  }

  lemma LocalMoves(m: MState, step: MStep)
    requires MEnabled(m, step) && KernelPart(m, step).None?
    ensures Moves(m.k, KernelPart(m, step), MDo(m, step).k)
  {
    LocalFrame(m, step);
  }

  /** Every step of the monitor is one step of the scheduler or leaves its state alone. */
  lemma StepIsKernelStep(m: MState, step: MStep)
    requires MInv(m) && MEnabled(m, step)
    ensures Moves(m.k, KernelPart(m, step), MDo(m, step).k)
  {
    match step
    case WaitStep(_) => WaitInits(m, step);
    case RetestAcquire => RetestMoves(m, step);
    case RetestWait => RetestMoves(m, step);
    case TryAcquire(_) => TryMoves(m, step);
    case UpLock => UpMoves(m, step);
    case UpWaiter => UpMoves(m, step);
    case KernelStep(_) => DownMoves(m, step);
    case AcquireStep(_) => DownMoves(m, step);
    case WaitSleep => DownMoves(m, step);
    case _ => LocalMoves(m, step);
  }

  /** The scheduler states of a run, each the one before it or one step further. */
  ghost predicate IsStuttering(ka: seq<State>, parts: seq<Option<Step>>) {
    |ka| == |parts| + 1 && forall r :: 0 <= r < |parts| ==> Moves(ka[r], parts[r], ka[r + 1])
  }

  ghost function KernelStates(trace: seq<MState>): seq<State> {
    seq(|trace|, r requires 0 <= r < |trace| => trace[r].k)
  }

  lemma KernelStateAt(trace: seq<MState>, steps: seq<MStep>, r: nat)
    requires IsMRun(trace, steps) && MInv(trace[0]) && r < |steps|
    ensures MStepAt(trace, steps, r) && Moves(trace[r].k, KernelPart(trace[r], steps[r]), trace[r + 1].k)
  {
    MRunKeeps(trace, steps, r);
    assert MStepAt(trace, steps, r);
    StepIsKernelStep(trace[r], steps[r]);
  }

  lemma StutteringIs(trace: seq<MState>, parts: seq<Option<Step>>)
    requires |trace| == |parts| + 1 && forall r :: 0 <= r < |parts| ==> Moves(trace[r].k, parts[r], trace[r + 1].k)
    ensures IsStuttering(KernelStates(trace), parts)
  {
  }

  lemma RunStutters(trace: seq<MState>, steps: seq<MStep>) returns (parts: seq<Option<Step>>)
    requires IsMRun(trace, steps) && MInv(trace[0])
    ensures IsStuttering(KernelStates(trace), parts)
  {
    parts := seq(|steps|, r requires 0 <= r < |steps| =>
      assert MStepAt(trace, steps, r); KernelPart(trace[r], steps[r]));
    forall r | 0 <= r < |parts| ensures Moves(trace[r].k, parts[r], trace[r + 1].k) {
      KernelStateAt(trace, steps, r);
    }
    StutteringIs(trace, parts);
  }

  ghost predicate Visits(ka: seq<State>, i: nat, j: nat, k: State)
    requires i <= j < |ka|
  {
    exists q :: i <= q <= j && ka[q] == k
  }

  /** `kt` goes from state `i` of `ka` to state `j`, through states in between. */
  ghost predicate PassesThrough(ka: seq<State>, i: nat, j: nat, kt: seq<State>) {
    && i <= j < |ka| && kt != []
    && kt[0] == ka[i] && kt[|kt| - 1] == ka[j]
    && forall r :: 0 <= r < |kt| ==> Visits(ka, i, j, kt[r])
  }

  lemma PassesNext(ka: seq<State>, i: nat, j: nat, kt: seq<State>, kt': seq<State>)
    requires j + 1 < |ka| && PassesThrough(ka, i, j, kt)
    requires kt' == kt + [ka[j + 1]] || (kt' == kt && ka[j + 1] == ka[j])
    ensures PassesThrough(ka, i, j + 1, kt')
  {
    forall r | 0 <= r < |kt'| ensures Visits(ka, i, j + 1, kt'[r]) {
      if r < |kt| {
        assert Visits(ka, i, j, kt[r]);
        var q :| i <= q <= j && ka[q] == kt[r];
        assert i <= q <= j + 1;
      }
    }
  }

  lemma RunNext(kt: seq<State>, ks: seq<Step>, s: Step, k: State)
    requires IsRun(kt, ks) && Moves(kt[|kt| - 1], Some(s), k)
    ensures IsRun(kt + [k], ks + [s])
  {
    forall i | 0 <= i < |ks + [s]| ensures StepAt(kt + [k], ks + [s], i) {
      if i < |ks| { assert StepAt(kt, ks, i); }
    }
  }

  lemma {:induction false} Destutter(ka: seq<State>, parts: seq<Option<Step>>, i: nat, j: nat)
    returns (kt: seq<State>, ks: seq<Step>)
    requires IsStuttering(ka, parts) && i <= j < |ka|
    ensures IsRun(kt, ks) && PassesThrough(ka, i, j, kt)
    decreases j
  {
    if i == j {
      kt, ks := [ka[i]], [];
      assert Visits(ka, i, j, ka[i]);
    } else {
      var kt0, ks0 := Destutter(ka, parts, i, j - 1);
      assert Moves(ka[j - 1], parts[j - 1], ka[j]);
      if parts[j - 1].None? {
        kt, ks := kt0, ks0;
      } else {
        kt, ks := kt0 + [ka[j]], ks0 + [parts[j - 1].value];
        RunNext(kt0, ks0, parts[j - 1].value, ka[j]);
      }
      PassesNext(ka, i, j - 1, kt0, kt);
    }
  }

  /** The part of a monitor run from `i` to `j` is, as far as the scheduler goes, one of its runs. */
  lemma RunIsKernelRun(trace: seq<MState>, steps: seq<MStep>, i: nat, j: nat) returns (kt: seq<State>, ks: seq<Step>)
    requires IsMRun(trace, steps) && MInv(trace[0]) && i <= j < |trace|
    ensures IsRun(kt, ks) && PassesThrough(KernelStates(trace), i, j, kt)
  {
    var parts := RunStutters(trace, steps);
    kt, ks := Destutter(KernelStates(trace), parts, i, j);
  }

  // ----- a delivered signal stays delivered -----

  /** Thread `t` is in the sema_down of its wait on `c` and its signal has been delivered. */
  ghost predicate Delivered(m: MState, c: CondId, t: Tid) {
    t in m.pc && m.pc[t] == InWait(c) && Value(m, OfWaiter(t)) == 1
  }

  /** That is: it is off the list and no signal for it is in flight. */
  lemma DeliveredIff(m: MState, c: CondId, t: Tid)
    requires MInv(m) && t in m.pc && m.pc[t] == InWait(c)
    ensures IsCond(m, c) && (Delivered(m, c, t) <==> t !in m.queue[c] && !InFlight(m, c, t))
  {
    assert ThreadOk(m, t);
  }

  /** Whether step `s` may lower the value of semaphore `r` or set it anew. */
  ghost predicate Spares(k: State, s: Step, r: SemaId)
    requires Enabled(k, s)
  {
    match s
    case InitStep(q, _) => q != r
    case DownStep(q) => q != r
    case TryDownStep(q) => q != r
    case RetestStep => k.inDown[k.current] != r
    case _ => true
  }

  lemma SparedKeepsValue(k: State, s: Step, r: SemaId)
    requires Enabled(k, s) && Spares(k, s, r) && r in k.semas
    ensures r in Do(k, s).semas && Do(k, s).semas[r].value >= k.semas[r].value
  {
  }

  /** Nobody but `t` itself tests or initialises the semaphore of its wait. */
  lemma OthersSpare(m: MState, step: MStep, t: Tid)
    requires MInv(m) && MEnabled(m, step) && t != m.k.current && KernelPart(m, step).Some?
    requires Enabled(m.k, KernelPart(m, step).value)
    ensures Spares(m.k, KernelPart(m, step).value, OfWaiter(t))
  {
    assert ThreadOk(m, m.k.current);
  }

  lemma OthersRaise(m: MState, step: MStep, t: Tid)
    requires MInv(m) && MEnabled(m, step) && t != m.k.current && OfWaiter(t) in m.k.semas
    ensures Value(MDo(m, step), OfWaiter(t)) >= Value(m, OfWaiter(t))
  {
    StepIsKernelStep(m, step);
    var part := KernelPart(m, step);
    if part.Some? {
      OthersSpare(m, step, t);
      SparedKeepsValue(m.k, part.value, OfWaiter(t));
    }
  }

  lemma StaysDelivered(m: MState, step: MStep, c: CondId, t: Tid)
    requires MInv(m) && MEnabled(m, step) && Delivered(m, c, t) && t != m.k.current
    ensures Delivered(MDo(m, step), c, t)
  {
    OthersStay(m, step, t);
    OthersRaise(m, step, t);
    MStepKeeps(m, step);
    assert ThreadOk(MDo(m, step), t);
  }

  lemma DeliveredAt(trace: seq<MState>, steps: seq<MStep>, c: CondId, t: Tid, r: nat)
    requires IsMRun(trace, steps) && MInv(trace[0]) && r < |steps|
    requires Delivered(trace[r], c, t) && trace[r].k.current != t
    ensures Delivered(trace[r + 1], c, t)
  {
    MRunKeeps(trace, steps, r);
    assert MStepAt(trace, steps, r);
    StaysDelivered(trace[r], steps[r], c, t);
  }

  /** What holds on until it is met holds where it is first met. */
  lemma {:induction false} HoldsWhenMet(on: seq<bool>, met: seq<bool>, i: nat, j: nat) returns (r: nat)
    requires |on| == |met| && i <= j < |on| && on[i] && met[j]
    requires forall q: nat :: q + 1 < |on| && on[q] && !met[q] ==> on[q + 1]
    ensures i <= r <= j && on[r] && met[r]
    decreases j - i
  {
    if met[i] { r := i; } else { r := HoldsWhenMet(on, met, i + 1, j); }
  }

  /** When `t` becomes current for the first time, its signal is still delivered. */
  lemma DeliveredWhenCurrent(trace: seq<MState>, steps: seq<MStep>, c: CondId, t: Tid, i: nat, j: nat) returns (r: nat)
    requires IsMRun(trace, steps) && MInv(trace[0]) && i <= j < |trace|
    requires Delivered(trace[i], c, t) && trace[j].k.current == t
    ensures i <= r <= j && Delivered(trace[r], c, t) && trace[r].k.current == t
  {
    var on := seq(|trace|, q requires 0 <= q < |trace| => Delivered(trace[q], c, t));
    var met := seq(|trace|, q requires 0 <= q < |trace| => trace[q].k.current == t);
    forall q: nat | q + 1 < |on| && on[q] && !met[q] ensures on[q + 1] { DeliveredAt(trace, steps, c, t, q); }
    r := HoldsWhenMet(on, met, i, j);
  }

  // ----- and is acted on in bounded time -----

  /** `t` is about to test its semaphore again, and the test will take it out of sema_down. */
  ghost predicate GetsThrough(m: MState, c: CondId, t: Tid) {
    && m.k.current == t && MEnabled(m, RetestWait)
    && var n := MDo(m, RetestWait);
       t in n.pc && n.pc[t] == WaitAcquire(c) && Value(n, OfWaiter(t)) == 0
  }

  lemma DeliveredResumes(m: MState, c: CondId, t: Tid)
    requires Delivered(m, c, t) && m.k.current == t && ThreadOk(m, t)
    ensures MEnabled(m, RetestWait) && OfWaiter(t) in m.k.semas && m.k.semas[OfWaiter(t)].value == 1
  {
  }

  lemma TestGetsThrough(m: MState, c: CondId)
    requires OfWaiter(m.k.current) in m.k.semas && m.k.semas[OfWaiter(m.k.current)].value == 1
    ensures var n := TestWait(m, c, TestDown(m.k, OfWaiter(m.k.current)));
            && m.k.current in n.pc && n.pc[m.k.current] == WaitAcquire(c)
            && Value(n, OfWaiter(m.k.current)) == 0
  {
    assert TestDown(m.k, OfWaiter(m.k.current)) == Taken(m.k, OfWaiter(m.k.current));
  }

  lemma DeliveredGetsThrough(m: MState, c: CondId, t: Tid)
    requires Delivered(m, c, t) && m.k.current == t && ThreadOk(m, t)
    ensures GetsThrough(m, c, t)
  {
    DeliveredResumes(m, c, t);
    TestGetsThrough(m, c);
  }

  lemma TurnInKernelRun(ka: seq<State>, kt: seq<State>, ks: seq<Step>, i: nat, j: nat, p: nat) returns (r: nat)
    requires IsRun(kt, ks) && PassesThrough(ka, i, j, kt) && Inv(ka[i]) && p < |ka[i].ready|
    requires ka[j].clock - ka[i].clock >= TIME_SLICE * (p + 1)
    ensures i <= r <= j && ka[r].current == ka[i].ready[p]
  {
    BoundedWaiting(kt, ks, p, |kt| - 1);
    var q :| 0 <= q < |kt| && GotItsTurn(kt[0], kt[q], kt[0].ready[p], p);
    assert Visits(ka, i, j, kt[q]);
    r :| i <= r <= j && ka[r] == kt[q];
  }

  /** In a monitor run too, the thread at place `p` of the ready list runs before TIME_SLICE * (p + 1)
      timer ticks have passed. */
  lemma MonitorBoundedWaiting(trace: seq<MState>, steps: seq<MStep>, i: nat, j: nat, p: nat) returns (r: nat)
    requires IsMRun(trace, steps) && MInv(trace[0]) && i <= j < |trace| && p < |trace[i].k.ready|
    requires trace[j].k.clock - trace[i].k.clock >= TIME_SLICE * (p + 1)
    ensures i <= r <= j && trace[r].k.current == trace[i].k.ready[p]
  {
    var kt, ks := RunIsKernelRun(trace, steps, i, j);
    MRunKeeps(trace, steps, i);
    r := TurnInKernelRun(KernelStates(trace), kt, ks, i, j, p);
  }

  /** A waiter whose signal has been delivered gets out of its sema_down before TIME_SLICE timer
      ticks have passed for every thread on the ready list up to itself. */
  lemma SignalIsActedOn(trace: seq<MState>, steps: seq<MStep>, c: CondId, i: nat, j: nat, p: nat) returns (r: nat)
    requires IsMRun(trace, steps) && MInv(trace[0]) && i <= j < |trace| && p < |trace[i].k.ready|
    requires Delivered(trace[i], c, trace[i].k.ready[p])
    requires trace[j].k.clock - trace[i].k.clock >= TIME_SLICE * (p + 1)
    ensures i <= r <= j && GetsThrough(trace[r], c, trace[i].k.ready[p])
  {
    var t := trace[i].k.ready[p];
    var q := MonitorBoundedWaiting(trace, steps, i, j, p);
    r := DeliveredWhenCurrent(trace, steps, c, t, i, q);
    MRunKeeps(trace, steps, r);
    assert ThreadOk(trace[r], t);
    DeliveredGetsThrough(trace[r], c, t);
  }

  /** Whatever its place: once a signal is delivered to a thread in its sema_down, the thread gets out
      of it before TIME_SLICE timer ticks have passed for every thread that is ready then. */
  lemma DeliveredSignalIsActedOn(trace: seq<MState>, steps: seq<MStep>, c: CondId, t: Tid, i: nat, j: nat)
    returns (r: nat)
    requires IsMRun(trace, steps) && MInv(trace[0]) && i <= j < |trace| && Delivered(trace[i], c, t)
    requires trace[j].k.clock - trace[i].k.clock >= TIME_SLICE * |trace[i].k.ready|
    ensures i <= r <= j && GetsThrough(trace[r], c, t)
  {
    MRunKeeps(trace, steps, i);
    DeliveredIff(trace[i], c, t);
    assert c in trace[i].queue;
    SignaledIsAwake(trace[i], c, t);
    if t == trace[i].k.current {
      r := i;
      assert ThreadOk(trace[i], t);
      DeliveredGetsThrough(trace[i], c, t);
    } else {
      var p: nat :| p < |trace[i].k.ready| && trace[i].k.ready[p] == t;
      r := SignalIsActedOn(trace, steps, c, i, j, p);
    }
  }
}
