/** The locking of the buffer cache, for calls that overlap. Each acquire, each release and each stretch of
    code in between is one step of the thread that makes it; any thread may make the next step. Reading and
    writing a sector take the same locks in the same order and are one kind of call here. Whether a flush
    finds a block dirty is left open. */
module CacheLocks {

  import opened BufferCache
  import opened Basics
  import opened Sequences

  datatype Call = Access(sector: Sector) | FlushAll

  /** Where a thread is. */
  datatype Pc =
    | Idle
    | Entering(call: Call)                             // acquiring LRU_lock
    | Searching(sector: Sector, i: nat, size: nat)     // holds LRU_lock
    | Taking(sector: Sector, k: nat, evict: bool)      // holds LRU_lock, acquiring the lock of slot k
    | Handing(sector: Sector, k: nat, evict: bool)     // holds LRU_lock and the lock of slot k
    | Using(sector: Sector, k: nat)                    // holds the lock of slot k
    | Flushing(i: nat, size: nat)                      // holds LRU_lock
    | FlushTaking(i: nat, size: nat)                   // holds LRU_lock, acquiring the lock of slot i
    | FlushUsing(i: nat, size: nat)                    // holds LRU_lock and the lock of slot i

  type Tid = nat

  datatype State = State(lruHolder: Option<Tid>, holder: seq<Option<Tid>>, tags: seq<Sector>, lru: seq<nat>,
                         pc: seq<Pc>)

  /** A thread makes a call, or goes on with the call it is in; `dirty` is what a flush finds. */
  datatype Step = Begin(t: Tid, call: Call) | Go(t: Tid, dirty: bool)

  predicate HoldsLru(pc: Pc) {
    pc.Searching? || pc.Taking? || pc.Handing? || pc.Flushing? || pc.FlushTaking? || pc.FlushUsing?
  }

  predicate HoldsSlot(pc: Pc, k: nat) {
    match pc
    case Handing(_, j, _) => j == k
    case Using(_, j) => j == k
    case FlushUsing(j, _) => j == k
    case _ => false
  }

  /** The slot a thread waits for, if it is acquiring a slot's lock. */
  function Wanted(pc: Pc): Option<nat> {
    match pc
    case Taking(_, k, _) => Some(k)
    case FlushTaking(i, _) => Some(i)
    case _ => None
  }

  ghost predicate Enabled(s: State, step: Step) {
    && step.t < |s.pc|
    && match step
       case Begin(t, _) => s.pc[t].Idle?
       case Go(t, _) =>
         var pc := s.pc[t];
         && !pc.Idle?
         && (pc.Entering? ==> s.lruHolder.None?)
         && (Wanted(pc).Some? ==> Wanted(pc).value < |s.holder| && s.holder[Wanted(pc).value].None?)
  }

  function Put(s: State, t: Tid, pc: Pc): State
    requires t < |s.pc|
  {
    s.(pc := s.pc[t := pc])
  }

  ghost predicate Absent(s: State, x: Sector, n: nat)
    requires n <= |s.tags|
  {
    forall j :: 0 <= j < n ==> s.tags[j] != x
  }

  ghost predicate Shape(s: State) {
    |s.holder| == |s.tags| == CACHE_SIZE && |s.lru| <= CACHE_SIZE
  }

  /** What a thread may rely on where it is. */
  ghost predicate PcOk(s: State, pc: Pc)
    requires Shape(s)
  {
    match pc
    case Idle => true
    case Entering(_) => true
    case Searching(x, i, n) => i <= n == |s.lru| && Absent(s, x, i)
    case Taking(x, k, evict) => k < |s.lru| && if evict then Absent(s, x, |s.lru|) else s.tags[k] == x
    case Handing(x, k, evict) => k < |s.lru| && if evict then Absent(s, x, |s.lru|) else s.tags[k] == x
    case Using(x, k) => k < |s.lru| && s.tags[k] == x
    case Flushing(i, n) => i <= n == |s.lru|
    case FlushTaking(i, n) => i < n == |s.lru|
    case FlushUsing(i, n) => i < n == |s.lru|
  }

  /** The list holds each slot in use once. */
  ghost predicate Permutation(lru: seq<nat>) {
    && Distinct(lru)
    && (forall k :: 0 <= k < |lru| ==> lru[k] < |lru|)
    && (forall i :: 0 <= i < |lru| ==> i in lru)
  }

  ghost predicate TagsDistinct(s: State)
    requires Shape(s)
  {
    forall i, j :: 0 <= i < j < |s.lru| ==> s.tags[i] != s.tags[j]
  }

  /** Thread `t` is recorded as the holder of a lock exactly while it is where it holds it. */
  ghost predicate LruOk(s: State, t: Tid)
    requires t < |s.pc|
  {
    s.lruHolder == Some(t) <==> HoldsLru(s.pc[t])
  }

  ghost predicate SlotOk(s: State, t: Tid, k: nat)
    requires t < |s.pc| && k < |s.holder|
  {
    s.holder[k] == Some(t) <==> HoldsSlot(s.pc[t], k)
  }

  ghost predicate Locks(s: State) {
    && (s.lruHolder.Some? ==> s.lruHolder.value < |s.pc|)
    && (forall k :: 0 <= k < |s.holder| && s.holder[k].Some? ==> s.holder[k].value < |s.pc|)
    && (forall t :: 0 <= t < |s.pc| ==> LruOk(s, t))
    && (forall t, k :: 0 <= t < |s.pc| && 0 <= k < |s.holder| ==> SlotOk(s, t, k))
  }

  ghost predicate Inv(s: State) {
    && Shape(s)
    && Permutation(s.lru)
    && TagsDistinct(s)
    && Locks(s)
    && forall t :: 0 <= t < |s.pc| ==> PcOk(s, s.pc[t])
  }

  // ----- steps -----

  /** A search: a hit moves its slot to the front; a miss takes the next free slot, or the last one. */
  ghost function Search(s: State, t: Tid, x: Sector, i: nat, n: nat): State
    requires Shape(s) && t < |s.pc| && i <= n == |s.lru| && Permutation(s.lru)
  {
    if i < n then
      if s.tags[i] == x then Put(s.(lru := Touch(s.lru, i)), t, Taking(x, i, false))
      else Put(s, t, Searching(x, i + 1, n))
    else if n < CACHE_SIZE then
      Put(s.(tags := s.tags[n := x], lru := [n] + s.lru), t, Taking(x, n, false))
    else
      var k := s.lru[n - 1];
      Put(s.(lru := [k] + s.lru[..n - 1]), t, Taking(x, k, true))
  }

  ghost function Do(s: State, step: Step): State
    requires Inv(s) && Enabled(s, step)
  {
    match step
    case Begin(t, call) => Put(s, t, Entering(call))
    case Go(t, dirty) =>
      assert PcOk(s, s.pc[t]);
      match s.pc[t]
      case Idle => s
      case Entering(call) =>
        Put(s.(lruHolder := Some(t)), t,
            if call.Access? then Searching(call.sector, 0, |s.lru|) else Flushing(0, |s.lru|))
      case Searching(x, i, n) => Search(s, t, x, i, n)
      case Taking(x, k, evict) => Put(s.(holder := s.holder[k := Some(t)]), t, Handing(x, k, evict))
      case Handing(x, k, evict) =>
        Put(s.(tags := if evict then s.tags[k := x] else s.tags, lruHolder := None), t, Using(x, k))
      case Using(x, k) => Put(s.(holder := s.holder[k := None]), t, Idle)
      case Flushing(i, n) =>
        if i < n then Put(s, t, if dirty then FlushTaking(i, n) else Flushing(i + 1, n))
        else Put(s.(lruHolder := None), t, Idle)
      case FlushTaking(i, n) => Put(s.(holder := s.holder[i := Some(t)]), t, FlushUsing(i, n))
      case FlushUsing(i, n) => Put(s.(holder := s.holder[i := None]), t, Flushing(i + 1, n))
  }

  // ----- every step keeps the invariant -----

  lemma TouchPermutes(lru: seq<nat>, i: nat)
    requires Permutation(lru) && i < |lru|
    ensures Permutation(Touch(lru, i))
  {
    assert i in lru;
    TouchDistinct(lru, i);
    TouchKeeps(lru, i);
    var lru' := Touch(lru, i);
    forall k | 0 <= k < |lru'| ensures lru'[k] < |lru'| { assert lru'[k] in lru'; }
  }

  lemma FillPermutes(lru: seq<nat>)
    requires Permutation(lru)
    ensures Permutation([|lru|] + lru)
  {
    var lru' := [|lru|] + lru;
    forall i | 0 <= i < |lru'| ensures i in lru' {
      if i < |lru| { assert i in lru; }
      assert lru'[0] == |lru|;
    }
  }

  lemma RotatePermutes(lru: seq<nat>)
    requires Permutation(lru) && |lru| > 0
    ensures Permutation([lru[|lru| - 1]] + lru[..|lru| - 1])
  {
    var n := |lru| - 1;
    var lru' := [lru[n]] + lru[..n];
    forall i | 0 <= i < |lru'| ensures i in lru' {
      assert i in lru;
      var k :| 0 <= k < |lru| && lru[k] == i;
      assert lru'[if k == n then 0 else k + 1] == i;
    }
  }

  lemma DoList(s: State, step: Step)
    requires Inv(s) && Enabled(s, step)
    ensures Shape(Do(s, step)) && Permutation(Do(s, step).lru)
    ensures |s.lru| <= |Do(s, step).lru| && |Do(s, step).pc| == |s.pc|
  {
    if step.Go? {
      var pc := s.pc[step.t];
      assert PcOk(s, pc);
      if pc.Searching? {
        if pc.i < pc.size {
          TouchPermutes(s.lru, pc.i);
          assert pc.i in s.lru;
        } else if pc.size < CACHE_SIZE {
          FillPermutes(s.lru);
        } else {
          RotatePermutes(s.lru);
        }
      }
    }
  }

  lemma DoTags(s: State, step: Step)
    requires Inv(s) && Enabled(s, step)
    ensures Shape(Do(s, step)) && TagsDistinct(Do(s, step))
  {
    DoList(s, step);
    if step.Go? {
      var pc := s.pc[step.t];
      assert PcOk(s, pc);
      assert pc.Searching? && pc.i < pc.size ==> pc.i in s.lru;
    }
  }

  lemma DoLruLock(s: State, step: Step, u: Tid)
    requires Inv(s) && Enabled(s, step) && u < |s.pc|
    ensures |Do(s, step).pc| == |s.pc| && LruOk(Do(s, step), u)
  {
    assert PcOk(s, s.pc[step.t]);
    assert LruOk(s, step.t) && LruOk(s, u);
  }

  lemma DoSlotLock(s: State, step: Step, u: Tid, k: nat)
    requires Inv(s) && Enabled(s, step) && u < |s.pc| && k < CACHE_SIZE
    ensures |Do(s, step).pc| == |s.pc| && |Do(s, step).holder| == CACHE_SIZE && SlotOk(Do(s, step), u, k)
  {
    assert PcOk(s, s.pc[step.t]);
    assert SlotOk(s, step.t, k) && SlotOk(s, u, k);
  }

  lemma DoLocks(s: State, step: Step)
    requires Inv(s) && Enabled(s, step)
    ensures Locks(Do(s, step))
  {
    var s' := Do(s, step);
    assert PcOk(s, s.pc[step.t]);
    forall u | 0 <= u < |s'.pc| ensures LruOk(s', u) {
      DoLruLock(s, step, u);
    }
    forall u, k | 0 <= u < |s'.pc| && 0 <= k < |s'.holder| ensures SlotOk(s', u, k) {
      DoSlotLock(s, step, u, k);
    }
  }

  lemma OneSlotHolder(s: State, t: Tid, u: Tid, k: nat)
    requires Locks(s) && t < |s.pc| && u < |s.pc| && k < |s.holder|
    requires HoldsSlot(s.pc[t], k) && HoldsSlot(s.pc[u], k)
    ensures t == u
  {
    assert SlotOk(s, t, k) && SlotOk(s, u, k);
  }

  lemma DoOwnPc(s: State, step: Step)
    requires Inv(s) && Enabled(s, step)
    ensures Shape(Do(s, step)) && |Do(s, step).pc| == |s.pc| && PcOk(Do(s, step), Do(s, step).pc[step.t])
  {
    DoList(s, step);
    assert PcOk(s, s.pc[step.t]);
  }

  /** A step changes the tag of a slot in use only by the thread that holds that slot's lock. */
  lemma DoTag(s: State, step: Step, k: nat)
    requires Inv(s) && Enabled(s, step) && k < |s.lru|
    ensures |Do(s, step).tags| == CACHE_SIZE
    ensures Do(s, step).tags[k] != s.tags[k] ==> HoldsSlot(s.pc[step.t], k)
  {
    assert PcOk(s, s.pc[step.t]);
  }

  lemma OthersLeaveList(s: State, step: Step, u: Tid)
    requires Inv(s) && Enabled(s, step) && u < |s.pc| && u != step.t && HoldsLru(s.pc[u])
    ensures Do(s, step).lru == s.lru && Do(s, step).tags == s.tags
  {
    assert PcOk(s, s.pc[step.t]);
    assert LruOk(s, step.t) && LruOk(s, u);
  }

  lemma DoOtherPc(s: State, step: Step, u: Tid)
    requires Inv(s) && Enabled(s, step) && u < |s.pc| && u != step.t
    ensures Shape(Do(s, step)) && |Do(s, step).pc| == |s.pc| && PcOk(Do(s, step), Do(s, step).pc[u])
  {
    DoList(s, step);
    var s', pc := Do(s, step), s.pc[u];
    assert PcOk(s, pc) && s'.pc[u] == pc;
    if pc.Using? {
      DoTag(s, step, pc.k);
      if s'.tags[pc.k] != s.tags[pc.k] { OneSlotHolder(s, u, step.t, pc.k); }
    } else if HoldsLru(pc) {
      OthersLeaveList(s, step, u);
    }
  }

  lemma StepKeeps(s: State, step: Step)
    requires Inv(s) && Enabled(s, step)
    ensures Inv(Do(s, step))
  {
    DoList(s, step);
    DoTags(s, step);
    DoLocks(s, step);
    forall u | 0 <= u < |Do(s, step).pc| ensures PcOk(Do(s, step), Do(s, step).pc[u]) {
      if u == step.t { DoOwnPc(s, step); } else { DoOtherPc(s, step, u); }
    }
  }

  // ----- runs -----

  /** As cache_init leaves it: no slot in use, no lock held. */
  ghost predicate Initial(s: State)
    ensures Initial(s) ==> Inv(s)
  {
    && Shape(s) && s.lru == [] && s.lruHolder.None?
    && (forall k :: 0 <= k < |s.holder| ==> s.holder[k].None?)
    && (forall t :: 0 <= t < |s.pc| ==> s.pc[t].Idle?)
  }

  ghost predicate IsRun(s: State, steps: seq<Step>)
    requires Inv(s)
    decreases |steps|
  {
    steps != [] ==>
      && Enabled(s, steps[0])
      && (StepKeeps(s, steps[0]); IsRun(Do(s, steps[0]), steps[1..]))
  }

  ghost function After(s: State, steps: seq<Step>): (s': State)
    requires Inv(s) && IsRun(s, steps)
    ensures Inv(s')
    decreases |steps|
  {
    if steps == [] then s else
      StepKeeps(s, steps[0]);
      After(Do(s, steps[0]), steps[1..])
  }

  lemma {:induction false} RunThreads(s: State, steps: seq<Step>)
    requires Inv(s) && IsRun(s, steps)
    ensures |After(s, steps).pc| == |s.pc|
    decreases |steps|
  {
    if steps != [] {
      StepKeeps(s, steps[0]);
      DoList(s, steps[0]);
      RunThreads(Do(s, steps[0]), steps[1..]);
    }
  }

  lemma {:induction false} RunNext(s: State, steps: seq<Step>, step: Step)
    requires Inv(s) && IsRun(s, steps) && Enabled(After(s, steps), step)
    ensures IsRun(s, steps + [step]) && After(s, steps + [step]) == Do(After(s, steps), step)
    decreases |steps|
  {
    if steps == [] {
      StepKeeps(s, step);
      assert [step][1..] == [];
    } else {
      StepKeeps(s, steps[0]);
      RunNext(Do(s, steps[0]), steps[1..], step);
      assert (steps + [step])[1..] == steps[1..] + [step];
    }
  }

  /** In every reachable state, whoever holds which locks, the list holds each slot in use once and no
      sector is cached twice; two threads never use the same slot, nor the same sector, at once, and the
      slot a thread uses is tagged with the sector it asked for. */
  lemma AlwaysCoherent(s: State, steps: seq<Step>, t: Tid, u: Tid)
    requires Initial(s) && IsRun(s, steps) && t < |s.pc| && u < |s.pc|
    ensures var s' := After(s, steps);
      && |s'.pc| == |s.pc| && Permutation(s'.lru) && TagsDistinct(s')
      && (s'.pc[t].Using? ==> s'.tags[s'.pc[t].k] == s'.pc[t].sector)
      && (t != u && s'.pc[t].Using? && s'.pc[u].Using? ==>
            s'.pc[t].k != s'.pc[u].k && s'.pc[t].sector != s'.pc[u].sector)
  {
    var s' := After(s, steps);
    RunThreads(s, steps);
    assert PcOk(s', s'.pc[t]) && PcOk(s', s'.pc[u]);
    if t != u && s'.pc[t].Using? && s'.pc[u].Using? && s'.pc[t].k == s'.pc[u].k {
      OneSlotHolder(s', t, u, s'.pc[t].k);
    }
  }

  // ----- no deadlock -----

  /** Thread `t` is acquiring a lock that thread `u` holds. */
  ghost predicate WaitsFor(s: State, t: Tid, u: Tid) {
    && t < |s.pc| && u < |s.pc|
    && (|| (s.pc[t].Entering? && s.lruHolder == Some(u))
        || (Wanted(s.pc[t]).Some? && Wanted(s.pc[t]).value < |s.holder| && s.holder[Wanted(s.pc[t]).value] == Some(u)))
  }

  /** Waiting goes down: for LRU_lock, holding nothing; for a slot, holding LRU_lock; otherwise not at all. */
  function Rank(pc: Pc): nat {
    if pc.Entering? then 2 else if Wanted(pc).Some? then 1 else 0
  }

  lemma WaitingGoesDown(s: State, t: Tid, u: Tid)
    requires Inv(s) && WaitsFor(s, t, u)
    ensures Rank(s.pc[t]) > Rank(s.pc[u])
  {
    assert LruOk(s, u);
    if Wanted(s.pc[t]).Some? {
      assert SlotOk(s, u, Wanted(s.pc[t]).value);
    }
  }

  ghost predicate WaitChain(s: State, chain: seq<Tid>) {
    forall i :: 0 <= i < |chain| - 1 ==> WaitsFor(s, chain[i], chain[i + 1])
  }

  lemma {:induction false} ChainGoesDown(s: State, chain: seq<Tid>)
    requires Inv(s) && WaitChain(s, chain) && |chain| >= 2
    ensures chain[0] < |s.pc| && chain[|chain| - 1] < |s.pc|
    ensures Rank(s.pc[chain[0]]) >= Rank(s.pc[chain[|chain| - 1]]) + |chain| - 1
  {
    var n := |chain| - 1;
    assert WaitsFor(s, chain[n - 1], chain[n]);
    WaitingGoesDown(s, chain[n - 1], chain[n]);
    if n > 1 {
      ChainGoesDown(s, chain[..n]);
    }
  }

  /** No chain of threads waiting for each other is longer than three, and none is a cycle. */
  lemma NoWaitCycle(s: State, steps: seq<Step>, chain: seq<Tid>)
    requires Initial(s) && IsRun(s, steps)
    requires WaitChain(After(s, steps), chain) && |chain| >= 2
    ensures |chain| <= 3 && chain[0] != chain[|chain| - 1]
  {
    ChainGoesDown(After(s, steps), chain);
  }

  /** The thread that a waiting thread is finally waiting for can go on. */
  lemma Unblocked(s: State, t: Tid) returns (u: Tid)
    requires Inv(s) && t < |s.pc| && !s.pc[t].Idle?
    ensures Enabled(s, Go(u, false))
    decreases Rank(s.pc[t])
  {
    assert PcOk(s, s.pc[t]);
    if Enabled(s, Go(t, false)) {
      u := t;
    } else if s.pc[t].Entering? {
      var h := s.lruHolder.value;
      assert LruOk(s, h);
      u := Unblocked(s, h);
    } else {
      var k := Wanted(s.pc[t]).value;
      var h := s.holder[k].value;
      assert SlotOk(s, h, k);
      u := Unblocked(s, h);
    }
  }

  // ----- every call ends -----

  /** A bound on the steps a thread has left in its call. */
  function Left(pc: Pc): int {
    match pc
    case Idle => 0
    case Entering(_) => 3 * CACHE_SIZE + 5
    case Searching(_, i, n) => n - i + 4
    case Taking(_, _, _) => 3
    case Handing(_, _, _) => 2
    case Using(_, _) => 1
    case Flushing(i, n) => 3 * (n - i) + 1
    case FlushTaking(i, n) => 3 * (n - i)
    case FlushUsing(i, n) => 3 * (n - i) - 1
  }

  function TotalLeft(pcs: seq<Pc>): int {
    if pcs == [] then 0 else Left(pcs[0]) + TotalLeft(pcs[1..])
  }

  lemma {:induction false} TotalAfterPut(pcs: seq<Pc>, t: nat, pc: Pc)
    requires t < |pcs|
    ensures TotalLeft(pcs[t := pc]) == TotalLeft(pcs) - Left(pcs[t]) + Left(pc)
  {
    if t > 0 {
      assert pcs[t := pc][1..] == pcs[1..][t - 1 := pc];
      TotalAfterPut(pcs[1..], t - 1, pc);
    } else {
      assert pcs[t := pc][1..] == pcs[1..];
    }
  }

  lemma {:induction false} TotalNonNegative(s: State, n: nat)
    requires Inv(s) && n <= |s.pc|
    ensures TotalLeft(s.pc[n..]) >= 0
    decreases |s.pc| - n
  {
    if n < |s.pc| {
      assert PcOk(s, s.pc[n]);
      assert s.pc[n..][1..] == s.pc[n + 1..];
      TotalNonNegative(s, n + 1);
    }
  }

  lemma GoGetsOn(s: State, t: Tid, dirty: bool)
    requires Inv(s) && Enabled(s, Go(t, dirty))
    ensures TotalLeft(Do(s, Go(t, dirty)).pc) < TotalLeft(s.pc)
  {
    var s' := Do(s, Go(t, dirty));
    assert PcOk(s, s.pc[t]);
    assert s'.pc == s.pc[t := s'.pc[t]];
    TotalAfterPut(s.pc, t, s'.pc[t]);
  }

  /** With no new calls, a run is no longer than the work left. */
  lemma {:induction false} RunsEnd(s: State, steps: seq<Step>)
    requires Inv(s) && IsRun(s, steps)
    requires forall i :: 0 <= i < |steps| ==> steps[i].Go?
    ensures |steps| + TotalLeft(After(s, steps).pc) <= TotalLeft(s.pc)
    decreases |steps|
  {
    if steps != [] {
      GoGetsOn(s, steps[0].t, steps[0].dirty);
      StepKeeps(s, steps[0]);
      RunsEnd(Do(s, steps[0]), steps[1..]);
    }
  }

  /** From every reachable state, however the threads are interleaved, the calls in progress all return:
      a run without new calls has at most the work left, and where it cannot be continued every thread is idle. */
  lemma EveryCallReturns(s: State, before: seq<Step>, steps: seq<Step>)
    requires Initial(s) && IsRun(s, before) && IsRun(After(s, before), steps)
    requires forall i :: 0 <= i < |steps| ==> steps[i].Go?
    ensures |steps| <= TotalLeft(After(s, before).pc)
    ensures var s' := After(After(s, before), steps);
      (forall t, dirty :: !Enabled(s', Go(t, dirty))) ==> forall t :: 0 <= t < |s'.pc| ==> s'.pc[t].Idle?
  {
    var s1 := After(s, before);
    var s' := After(s1, steps);
    RunsEnd(s1, steps);
    TotalNonNegative(s', 0);
    assert s'.pc[0..] == s'.pc;
    forall t | 0 <= t < |s'.pc| && !s'.pc[t].Idle? ensures exists u :: Enabled(s', Go(u, false)) {
      var u := Unblocked(s', t);
    }
  }
}
