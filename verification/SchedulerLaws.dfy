/** What the steps of threads and semaphores do, stated by the fields of the state before and after, and the laws
    of whole runs that follow: wait lists are first in first out, time slices have their length, and a thread that
    has exited never runs again. */
module SchedulerLaws {

  import opened Scheduler

  // ----- what each step changes -----

  /** The thread that schedule picks, and the line that it leaves. */
  ghost predicate Switched(k: State, line: seq<Tid>, k': State) {
    && k'.current == (if line == [] then IDLE else line[0])
    && k'.ready == (if line == [] then [] else line[1..])
    && k'.ticks == 0 && Has(k', k'.current, Running)
  }

  ghost predicate SameSemas(k: State, k': State) { k'.semas == k.semas && k'.inDown == k.inDown }

  ghost predicate OtherSemas(k: State, k': State, s: SemaId) {
    && s in k.semas && k'.semas.Keys == k.semas.Keys
    && forall r :: r in k.semas && r != s ==> k'.semas[r] == k.semas[r]
  }

  /** sema_up adds one and makes the thread that has waited longest ready, after those that are. */
  lemma UpWakesFirst(k: State, s: SemaId)
    requires Inv(k) && Enabled(k, UpStep(s))
    ensures var k', w := Do(k, UpStep(s)), k.semas[s].waiters;
      && OtherSemas(k, k', s) && k'.semas[s].value == k.semas[s].value + 1 && k'.current == k.current
      && (w == [] ==> k'.ready == k.ready && k'.semas[s].waiters == [])
      && (w != [] ==> k'.ready == k.ready + [w[0]] && k'.semas[s].waiters == w[1..] && Has(k', w[0], Ready))
  {
  }

  /** A test of the semaphore in sema_down: a positive value is taken; otherwise the thread joins the wait list at
      its end and the first ready thread runs. */
  ghost predicate Downed(k: State, s: SemaId, k': State) {
    && OtherSemas(k, k', s)
    && (k.semas[s].value > 0 ==>
          && k'.semas[s].value == k.semas[s].value - 1 && k'.semas[s].waiters == k.semas[s].waiters
          && k'.current == k.current && k'.ready == k.ready && k.current !in k'.inDown)
    && (k.semas[s].value == 0 ==>
          && k'.semas[s].value == 0 && k'.semas[s].waiters == k.semas[s].waiters + [k.current]
          && Switched(k, k.ready, k') && Has(k', k.current, Blocked)
          && k.current in k'.inDown && k'.inDown[k.current] == s)
  }

  lemma CurrentNotReady(k: State)
    requires Inv(k)
    ensures k.current !in k.ready && (k.ready != [] ==> k.ready[0] != IDLE && k.ready[0] in k.status)
  {
    assert Has(k, k.current, Running) && !Has(k, k.current, Ready);
    if k.ready != [] { assert k.ready[0] in k.ready; }
  }

  lemma DownTakesOrWaits(k: State, s: SemaId)
    requires Inv(k) && Enabled(k, DownStep(s))
    ensures Downed(k, s, Do(k, DownStep(s)))
  {
    CurrentNotReady(k);
  }

  lemma RetestTakesOrWaits(k: State)
    requires Inv(k) && Enabled(k, RetestStep)
    ensures Downed(k, k.inDown[k.current], Do(k, RetestStep))
  {
    CurrentNotReady(k);
  }

  /** sema_try_down takes a positive value, and changes nothing otherwise. */
  lemma TryDownTakes(k: State, s: SemaId)
    requires Inv(k) && Enabled(k, TryDownStep(s))
    ensures k.semas[s].value > 0 ==> Downed(k, s, Do(k, TryDownStep(s)))
    ensures k.semas[s].value == 0 ==> Do(k, TryDownStep(s)) == k
  {
  }

  /** thread_yield: the running thread goes to the end of the line, unless it is the idle thread. */
  lemma YieldGoesLast(k: State)
    requires Inv(k) && Enabled(k, YieldStep)
    ensures Switched(k, if k.current == IDLE then k.ready else k.ready + [k.current], Do(k, YieldStep))
    ensures SameSemas(k, Do(k, YieldStep))
  {
    CurrentNotReady(k);
  }

  /** A tick is counted; the fourth of a slice makes the thread yield, and no other does. */
  lemma TickCounts(k: State)
    requires Inv(k) && Enabled(k, TickStep)
    ensures var k' := Do(k, TickStep);
      && k'.clock == k.clock + 1 && SameSemas(k, k')
      && (k.ticks < 3 ==> k'.ticks == k.ticks + 1 && k'.current == k.current && k'.ready == k.ready)
      && (k.ticks == 3 ==> Switched(k, if k.current == IDLE then k.ready else k.ready + [k.current], k'))
  {
    CurrentNotReady(k);
  }

  /** A thread that is not there any more, or dying. */
  ghost predicate Dead(k: State, t: Tid) { t !in k.status || k.status[t] == Dying }

  /** thread_exit: the thread is dead, on no list, and the first ready thread runs. */
  lemma ExitKills(k: State)
    requires Inv(k) && Enabled(k, ExitStep)
    ensures var k' := Do(k, ExitStep);
      && Dead(k', k.current) && (k.current != INITIAL ==> k.current !in k'.status)
      && Switched(k, k.ready, k') && SameSemas(k, k')
  {
    CurrentNotReady(k);
  }

  /** A new thread waits to be started, and starting it puts it at the end of the line. */
  lemma StartGoesLast(k: State, t: Tid)
    requires Inv(k)
    ensures Enabled(k, SpawnStep(t)) ==>
      Has(Do(k, SpawnStep(t)), t, Blocked) && t in Do(k, SpawnStep(t)).nascent && Do(k, SpawnStep(t)).ready == k.ready
    ensures Enabled(k, StartStep(t)) ==>
      Do(k, StartStep(t)).ready == k.ready + [t] && Do(k, StartStep(t)).current == k.current
      && t !in Do(k, StartStep(t)).nascent
  {
  }

  /** The idle thread gives way to the first ready one. */
  lemma IdleGivesWay(k: State)
    requires Inv(k) && Enabled(k, IdleStep)
    ensures Switched(k, k.ready, Do(k, IdleStep)) && SameSemas(k, Do(k, IdleStep))
  {
    CurrentNotReady(k);
  }

  /** sema_init: the value, and nobody waiting. */
  lemma InitSets(k: State, s: SemaId, v: nat)
    requires Enabled(k, InitStep(s, v))
    ensures s in Do(k, InitStep(s, v)).semas
    ensures Do(k, InitStep(s, v)).semas[s].value == v && Do(k, InitStep(s, v)).semas[s].waiters == []
    ensures forall r :: r in k.semas && r != s ==>
      r in Do(k, InitStep(s, v)).semas && Do(k, InitStep(s, v)).semas[r] == k.semas[r]
  {
  }

  // ----- wait lists are first in first out -----

  /** How many of the first `j` steps are a sema_up of `s`. */
  ghost function UpsOf(steps: seq<Step>, s: SemaId, j: nat): nat
    requires j <= |steps|
  {
    if j == 0 then 0 else UpsOf(steps, s, j - 1) + if steps[j - 1] == UpStep(s) then 1 else 0
  }

  /** Thread `t` is at place `p` of the wait list of `s`. */
  ghost predicate WaitsAt(k: State, s: SemaId, t: Tid, p: nat) {
    s in k.semas && p < |k.semas[s].waiters| && k.semas[s].waiters[p] == t
  }

  lemma OtherStepKeepsPlace(k: State, step: Step, s: SemaId, t: Tid, p: nat)
    requires Inv(k) && Enabled(k, step) && WaitsAt(k, s, t, p) && step != UpStep(s)
    ensures WaitsAt(Do(k, step), s, t, p)
  {
    assert t in k.semas[s].waiters && t in k.inDown && k.inDown[t] == s;
  }

  lemma UpMovesUp(k: State, s: SemaId, t: Tid, p: nat)
    requires Inv(k) && Enabled(k, UpStep(s)) && WaitsAt(k, s, t, p)
    ensures p > 0 ==> WaitsAt(Do(k, UpStep(s)), s, t, p - 1)
    ensures p == 0 ==> Do(k, UpStep(s)).ready == k.ready + [t] && t !in Do(k, UpStep(s)).semas[s].waiters
  {
    assert t in k.semas[s].waiters;
    UpWakesFirst(k, s);
  }

  lemma PlaceMoves(k: State, step: Step, s: SemaId, t: Tid, p: nat)
    requires Inv(k) && Enabled(k, step) && WaitsAt(k, s, t, p) && (step == UpStep(s) ==> p > 0)
    ensures WaitsAt(Do(k, step), s, t, if step == UpStep(s) then p - 1 else p)
  {
    if step == UpStep(s) { UpMovesUp(k, s, t, p); } else { OtherStepKeepsPlace(k, step, s, t, p); }
  }

  lemma PlaceMovesAt(trace: seq<State>, steps: seq<Step>, s: SemaId, t: Tid, p: nat, j: nat)
    requires IsRun(trace, steps) && Inv(trace[0]) && j < |steps|
    requires WaitsAt(trace[j], s, t, p) && (steps[j] == UpStep(s) ==> p > 0)
    ensures WaitsAt(trace[j + 1], s, t, if steps[j] == UpStep(s) then p - 1 else p)
  {
    RunKeeps(trace, steps, j);
    assert StepAt(trace, steps, j);
    PlaceMoves(trace[j], steps[j], s, t, p);
  }

  /** The thread has moved up by one place for each sema_up among the first `i` steps, if there were no more than
      places before it. */
  ghost predicate MovedUp(trace: seq<State>, steps: seq<Step>, s: SemaId, t: Tid, p: nat, i: nat)
    requires i <= |steps| && |trace| == |steps| + 1
  {
    UpsOf(steps, s, i) <= p ==> WaitsAt(trace[i], s, t, p - UpsOf(steps, s, i))
  }

  ghost function MovedUps(trace: seq<State>, steps: seq<Step>, s: SemaId, t: Tid, p: nat): (on: seq<bool>)
    requires |trace| == |steps| + 1
    ensures |on| == |trace| && forall i :: 0 <= i < |trace| ==> on[i] == MovedUp(trace, steps, s, t, p, i)
  {
    seq(|trace|, i requires 0 <= i < |trace| => MovedUp(trace, steps, s, t, p, i))
  }

  lemma UpsNext(steps: seq<Step>, s: SemaId, i: nat)
    requires i < |steps|
    ensures UpsOf(steps, s, i + 1) == UpsOf(steps, s, i) + if steps[i] == UpStep(s) then 1 else 0
  {
  }

  lemma MovesUpAt(trace: seq<State>, steps: seq<Step>, s: SemaId, t: Tid, p: nat, i: nat)
    requires IsRun(trace, steps) && Inv(trace[0]) && i < |steps| && MovedUp(trace, steps, s, t, p, i)
    ensures MovedUp(trace, steps, s, t, p, i + 1)
  {
    UpsNext(steps, s, i);
    if UpsOf(steps, s, i + 1) <= p { PlaceMovesAt(trace, steps, s, t, p - UpsOf(steps, s, i), i); }
  }

  lemma {:induction false} GoesOn(on: seq<bool>, j: nat)
    requires j < |on| && on[0] && forall i: nat :: i + 1 < |on| && on[i] ==> on[i + 1]
    ensures on[j]
  {
    if j > 0 {
      GoesOn(on, j - 1);
      assert on[j - 1 + 1];
    }
  }

  /** In every run a thread at place `p` of a wait list moves up by one with every sema_up, and with nothing else. */
  lemma WaitsForItsUps(trace: seq<State>, steps: seq<Step>, s: SemaId, t: Tid, p: nat, j: nat)
    requires IsRun(trace, steps) && Inv(trace[0]) && WaitsAt(trace[0], s, t, p) && j < |trace|
    requires UpsOf(steps, s, j) <= p
    ensures WaitsAt(trace[j], s, t, p - UpsOf(steps, s, j))
  {
    var on := MovedUps(trace, steps, s, t, p);
    forall i: nat | i + 1 < |on| && on[i] ensures on[i + 1] { MovesUpAt(trace, steps, s, t, p, i); }
    GoesOn(on, j);
    assert MovedUp(trace, steps, s, t, p, j);
  }

  lemma FirstIsMadeReady(trace: seq<State>, steps: seq<Step>, s: SemaId, t: Tid, j: nat)
    requires IsRun(trace, steps) && Inv(trace[0]) && j < |steps| && steps[j] == UpStep(s) && WaitsAt(trace[j], s, t, 0)
    ensures trace[j + 1].ready == trace[j].ready + [t]
    ensures s in trace[j + 1].semas && t !in trace[j + 1].semas[s].waiters
  {
    RunKeeps(trace, steps, j);
    assert StepAt(trace, steps, j);
    UpMovesUp(trace[j], s, t, 0);
  }

  /** Step `j` of the run is the (p+1)-th sema_up of the semaphore on which `t` waits at place `p`. */
  ghost predicate ItsUp(trace: seq<State>, steps: seq<Step>, s: SemaId, t: Tid, p: nat, j: nat) {
    && IsRun(trace, steps) && Inv(trace[0]) && WaitsAt(trace[0], s, t, p)
    && j < |steps| && steps[j] == UpStep(s) && UpsOf(steps, s, j) == p
  }

  /** It is made ready by exactly the (p+1)-th sema_up: it becomes the last of the ready list. */
  lemma MadeReadyByItsUp(trace: seq<State>, steps: seq<Step>, s: SemaId, t: Tid, p: nat, j: nat)
    requires ItsUp(trace, steps, s, t, p, j)
    ensures trace[j + 1].ready == trace[j].ready + [t]
    ensures s in trace[j + 1].semas && t !in trace[j + 1].semas[s].waiters
  {
    WaitsForItsUps(trace, steps, s, t, p, j);
    FirstIsMadeReady(trace, steps, s, t, j);
  }

  lemma RunFrom(trace: seq<State>, steps: seq<Step>, i: nat)
    requires IsRun(trace, steps) && i < |trace|
    ensures IsRun(trace[i..], steps[i..])
  {
    forall r | 0 <= r < |steps[i..]| ensures StepAt(trace[i..], steps[i..], r) {
      assert StepAt(trace, steps, i + r);
    }
  }

  /** The last of the ready list runs before four ticks have passed for each thread on it. */
  lemma LastRuns(trace: seq<State>, steps: seq<Step>, n: nat) returns (r: nat)
    requires IsRun(trace, steps) && Inv(trace[0]) && n < |trace| && trace[0].ready != []
    requires trace[n].clock - trace[0].clock >= TIME_SLICE * |trace[0].ready|
    ensures r <= n && trace[r].current == trace[0].ready[|trace[0].ready| - 1]
    ensures SameDown(trace[0], trace[r], trace[r].current)
  {
    var q := |trace[0].ready| - 1;
    BoundedWaiting(trace, steps, q, n);
    r :| 0 <= r <= n && GotItsTurn(trace[0], trace[r], trace[0].ready[q], q);
  }

  lemma LastRunsFrom(trace: seq<State>, steps: seq<Step>, i: nat, n: nat) returns (r: nat)
    requires IsRun(trace, steps) && i <= n < |trace| && Inv(trace[i]) && trace[i].ready != []
    requires trace[n].clock - trace[i].clock >= TIME_SLICE * |trace[i].ready|
    ensures i <= r <= n && trace[r].current == trace[i].ready[|trace[i].ready| - 1]
    ensures SameDown(trace[i], trace[r], trace[r].current)
  {
    RunFrom(trace, steps, i);
    var rest := trace[i..];
    assert rest[0] == trace[i] && rest[n - i] == trace[n];
    var q := LastRuns(rest, steps[i..], n - i);
    r := q + i;
    assert rest[q] == trace[r];
  }

  lemma StillInDown(k: State, step: Step, s: SemaId, t: Tid)
    requires Inv(k) && Enabled(k, step) && s in k.semas && t in k.semas[s].waiters
    ensures t in Do(k, step).inDown && Do(k, step).inDown[t] == s
  {
    assert t in k.inDown && Has(k, t, Blocked) && t != k.current;
    StepOthers(k, step, t);
  }

  lemma WokenStillInDown(trace: seq<State>, steps: seq<Step>, s: SemaId, t: Tid, j: nat)
    requires IsRun(trace, steps) && Inv(trace[0]) && j < |steps|
    requires s in trace[j].semas && t in trace[j].semas[s].waiters
    ensures Inv(trace[j + 1]) && t in trace[j + 1].inDown && trace[j + 1].inDown[t] == s
  {
    RunKeeps(trace, steps, j);
    RunKeeps(trace, steps, j + 1);
    assert StepAt(trace, steps, j);
    StillInDown(trace[j], steps[j], s, t);
  }

  /** `t`, woken from its sema_down on `s`, is the last of the ready list. */
  ghost predicate LastReadyFor(k: State, s: SemaId, t: Tid) {
    Inv(k) && k.ready != [] && k.ready[|k.ready| - 1] == t && t in k.inDown && k.inDown[t] == s
  }

  /** `t` runs, back in its sema_down on `s`. */
  ghost predicate BackInDown(k: State, s: SemaId, t: Tid) { k.current == t && t in k.inDown && k.inDown[t] == s }

  lemma RunsOnceReady(trace: seq<State>, steps: seq<Step>, s: SemaId, t: Tid, i: nat, n: nat) returns (r: nat)
    requires IsRun(trace, steps) && i <= n < |trace| && LastReadyFor(trace[i], s, t)
    requires trace[n].clock - trace[i].clock >= TIME_SLICE * |trace[i].ready|
    ensures i <= r <= n && BackInDown(trace[r], s, t)
  {
    r := LastRunsFrom(trace, steps, i, n);
  }

  lemma LastAfterItsUp(trace: seq<State>, steps: seq<Step>, s: SemaId, t: Tid, p: nat, j: nat)
    requires ItsUp(trace, steps, s, t, p, j)
    ensures LastReadyFor(trace[j + 1], s, t)
  {
    MadeReadyByItsUp(trace, steps, s, t, p, j);
    WaitsForItsUps(trace, steps, s, t, p, j);
    WokenStillInDown(trace, steps, s, t, j);
  }

  /** And from then on it runs, back in its sema_down, before four ticks have passed for each thread ready then. */
  lemma RunsAfterItsUp(trace: seq<State>, steps: seq<Step>, s: SemaId, t: Tid, p: nat, j: nat, n: nat) returns (r: nat)
    requires ItsUp(trace, steps, s, t, p, j)
    requires j < n < |trace| && trace[n].clock - trace[j + 1].clock >= TIME_SLICE * |trace[j + 1].ready|
    ensures j < r <= n && BackInDown(trace[r], s, t)
  {
    LastAfterItsUp(trace, steps, s, t, p, j);
    r := RunsOnceReady(trace, steps, s, t, j + 1, n);
  }

  // ----- time slices have their length -----

  /** How many of the first `j` steps are timer ticks. */
  ghost function TicksIn(steps: seq<Step>, j: nat): nat
    requires j <= |steps|
  {
    if j == 0 then 0 else TicksIn(steps, j - 1) + if steps[j - 1] == TickStep then 1 else 0
  }

  lemma NoSwitch(k: State, step: Step)
    requires Inv(k) && Enabled(k, step) && Do(k, step).scheds == k.scheds
    ensures Do(k, step).current == k.current
    ensures Do(k, step).ticks == k.ticks + if step == TickStep then 1 else 0
  {
  }

  lemma {:induction false} Grows(n: seq<nat>, i: nat, j: nat)
    requires i <= j < |n| && forall r: nat :: r + 1 < |n| ==> n[r] <= n[r + 1]
    ensures n[i] <= n[j]
    decreases j
  {
    if i < j {
      Grows(n, i, j - 1);
      assert n[j - 1] <= n[j - 1 + 1];
    }
  }

  lemma StepCountsAt(trace: seq<State>, steps: seq<Step>, r: nat)
    requires IsRun(trace, steps) && r < |steps|
    ensures trace[r].scheds <= trace[r + 1].scheds
  {
    assert StepAt(trace, steps, r);
    StepCounts(trace[r], steps[r]);
  }

  lemma SchedsGrow(trace: seq<State>, steps: seq<Step>, i: nat, j: nat)
    requires IsRun(trace, steps) && i <= j < |trace|
    ensures trace[i].scheds <= trace[j].scheds
  {
    var n := seq(|trace|, r requires 0 <= r < |trace| => trace[r].scheds);
    forall r: nat | r + 1 < |n| ensures n[r] <= n[r + 1] { StepCountsAt(trace, steps, r); }
    Grows(n, i, j);
  }

  lemma NoSwitchAt(trace: seq<State>, steps: seq<Step>, j: nat)
    requires IsRun(trace, steps) && Inv(trace[0]) && j < |steps| && trace[j + 1].scheds == trace[j].scheds
    ensures trace[j + 1].current == trace[j].current && trace[j + 1].ticks < TIME_SLICE
    ensures trace[j + 1].ticks == trace[j].ticks + if steps[j] == TickStep then 1 else 0
  {
    RunKeeps(trace, steps, j);
    RunKeeps(trace, steps, j + 1);
    assert StepAt(trace, steps, j);
    NoSwitch(trace[j], steps[j]);
  }

  lemma {:induction false} CountsTicks(current: seq<Tid>, ticks: seq<nat>, steps: seq<Step>, j: nat)
    requires |current| == |ticks| == |steps| + 1 && j <= |steps|
    requires forall i: nat :: i < j ==>
      current[i + 1] == current[i] && ticks[i + 1] == ticks[i] + if steps[i] == TickStep then 1 else 0
    ensures current[j] == current[0] && ticks[j] == ticks[0] + TicksIn(steps, j)
  {
    if j > 0 {
      CountsTicks(current, ticks, steps, j - 1);
      var i := j - 1;
      assert current[i + 1] == current[i];
    }
  }

  lemma SameSlice(trace: seq<State>, steps: seq<Step>, i: nat, j: nat)
    requires IsRun(trace, steps) && Inv(trace[0]) && i < j < |trace| && trace[j].scheds == trace[0].scheds
    ensures trace[i + 1].current == trace[i].current && trace[i + 1].ticks < TIME_SLICE
    ensures trace[i + 1].ticks == trace[i].ticks + if steps[i] == TickStep then 1 else 0
  {
    SchedsGrow(trace, steps, 0, i);
    SchedsGrow(trace, steps, i, i + 1);
    SchedsGrow(trace, steps, i + 1, j);
    NoSwitchAt(trace, steps, i);
  }

  /** From the start of a slice until the next switch one thread runs, and `ticks` counts the ticks. */
  lemma SliceGoesOn(trace: seq<State>, steps: seq<Step>, j: nat)
    requires IsRun(trace, steps) && Inv(trace[0]) && j < |trace|
    requires trace[0].ticks == 0 && trace[j].scheds == trace[0].scheds
    ensures trace[j].current == trace[0].current && trace[j].ticks == TicksIn(steps, j) < TIME_SLICE
  {
    var current := seq(|trace|, i requires 0 <= i < |trace| => trace[i].current);
    var ticks := seq(|trace|, i requires 0 <= i < |trace| => trace[i].ticks);
    forall i: nat | i < j
      ensures current[i + 1] == current[i] && ticks[i + 1] == ticks[i] + if steps[i] == TickStep then 1 else 0
    {
      SameSlice(trace, steps, i, j);
    }
    CountsTicks(current, ticks, steps, j);
    if j > 0 { SameSlice(trace, steps, j - 1, j); }
  }

  /** In every run, a tick takes the processor from a thread exactly if it is the fourth of its slice. */
  lemma SliceEnds(trace: seq<State>, steps: seq<Step>, j: nat)
    requires IsRun(trace, steps) && Inv(trace[0]) && j < |steps| && steps[j] == TickStep
    requires trace[0].ticks == 0 && trace[j].scheds == trace[0].scheds
    ensures trace[j + 1].scheds != trace[j].scheds <==> TicksIn(steps, j) == 3
  {
    SliceGoesOn(trace, steps, j);
    assert StepAt(trace, steps, j);
  }

  // ----- exiting is final -----

  lemma DeadIsNotWoken(k: State, s: SemaId, t: Tid)
    requires Inv(k) && Enabled(k, UpStep(s)) && Dead(k, t)
    ensures Dead(Do(k, UpStep(s)), t)
  {
    var w := k.semas[s].waiters;
    if w != [] { assert w[0] in w && Has(k, w[0], Blocked); }
  }

  lemma DeadStays(k: State, step: Step, t: Tid)
    requires Inv(k) && Enabled(k, step) && Dead(k, t) && step != SpawnStep(t)
    ensures Dead(Do(k, step), t)
  {
    assert t !in k.ready && t != IDLE && t !in k.nascent && t != k.current;
    if step.UpStep? {
      DeadIsNotWoken(k, step.s, t);
    } else if step.TickStep? || step.YieldStep? {
      CurrentNotReady(k);
    }
  }

  /** In every run, a thread that has exited never runs again, unless its identity is given to a new thread. */
  lemma {:induction false} ExitIsFinal(trace: seq<State>, steps: seq<Step>, i: nat, j: nat)
    requires IsRun(trace, steps) && Inv(trace[0]) && i < j < |trace| && steps[i] == ExitStep
    requires forall r :: i < r < j ==> steps[r] != SpawnStep(trace[i].current)
    ensures Dead(trace[j], trace[i].current) && trace[j].current != trace[i].current
    decreases j
  {
    var t := trace[i].current;
    RunKeeps(trace, steps, j - 1);
    assert StepAt(trace, steps, j - 1);
    if j == i + 1 {
      ExitKills(trace[i]);
    } else {
      ExitIsFinal(trace, steps, i, j - 1);
      DeadStays(trace[j - 1], steps[j - 1], t);
    }
    RunKeeps(trace, steps, j);
    assert Has(trace[j], trace[j].current, Running);
  }
}
