/** What the steps of overlapping calls of the buffer cache do, and what follows for runs: the order of the list, the
    choice of the slot to evict, and what a flush achieves. */
module CacheLaws {

  import opened Basics
  import opened BufferCache
  import opened CacheLocks
  import opened CacheData
  import opened CacheCoherence

  // ----- searches -----

  /** The slot on which a step ends a search. */
  ghost function Choice(s: State, step: Step): Option<nat>
    requires Inv(s) && Enabled(s, step)
  {
    DoList(s, step);
    var pc' := Do(s, step).pc[step.t];
    if step.Go? && s.pc[step.t].Searching? && pc'.Taking? then Some(pc'.k) else None
  }

  /** That slot is to be evicted. */
  ghost predicate Evicts(s: State, step: Step)
    requires Inv(s) && Enabled(s, step)
  {
    DoList(s, step);
    Choice(s, step).Some? && Do(s, step).pc[step.t].evict
  }

  /** Slot `k` is the right one for sector `x`: the one that caches it, or else the next free one, or else the last of
      the list, which is then to be evicted. */
  ghost predicate RightSlot(s: State, x: Sector, k: nat, evict: bool)
    requires Shape(s)
  {
    var n := |s.lru|;
    if !Absent(s, x, n) then k < n && s.tags[k] == x && !evict
    else if n < CACHE_SIZE then k == n && !evict
    else k == s.lru[n - 1] && evict
  }

  lemma TouchFree(lru: seq<nat>)
    requires Permutation(lru)
    ensures Touch(lru, |lru|) == [|lru|] + lru
  {
    assert |lru| !in lru;
  }

  lemma TouchLast(lru: seq<nat>)
    requires Permutation(lru) && lru != []
    ensures Touch(lru, lru[|lru| - 1]) == [lru[|lru| - 1]] + lru[..|lru| - 1]
  {
    PositionIs(lru, lru[|lru| - 1], |lru| - 1);
  }

  /** A search ends on the right slot, which goes to the front of the list and which the thread then takes. */
  lemma ChoiceIs(s: State, step: Step)
    requires Inv(s) && Enabled(s, step) && Choice(s, step).Some?
    ensures var s', k, x := Do(s, step), Choice(s, step).value, s.pc[step.t].sector;
      && step.t < |s'.pc| && s'.pc[step.t].Taking? && s'.pc[step.t].sector == x
      && RightSlot(s, x, k, s'.pc[step.t].evict) && s'.lru == Touch(s.lru, k)
      && (!s'.pc[step.t].evict ==> k < |s'.tags| && s'.tags[k] == x)
  {
    var pc := s.pc[step.t];
    assert PcOk(s, pc);
    if pc.i == pc.size {
      if pc.size < CACHE_SIZE { TouchFree(s.lru); } else { TouchLast(s.lru); }
    }
  }

  /** No other step moves anything in the list. */
  lemma OnlyChoicesMove(s: State, step: Step)
    requires Inv(s) && Enabled(s, step) && Choice(s, step).None?
    ensures Do(s, step).lru == s.lru
  {
    if step.Go? { assert PcOk(s, s.pc[step.t]); }
  }

  ghost function Chosen(s: State, step: Step): seq<nat>
    requires Inv(s) && Enabled(s, step)
  {
    if Choice(s, step).Some? then [Choice(s, step).value] else []
  }

  /** The slots chosen in a run, one after the other. */
  ghost function Choices(s: State, steps: seq<Step>): seq<nat>
    requires Inv(s) && IsRun(s, steps)
    decreases |steps|
  {
    if steps == [] then [] else
      StepKeeps(s, steps[0]);
      Chosen(s, steps[0]) + Choices(Do(s, steps[0]), steps[1..])
  }

  lemma ListAfter(s: State, step: Step, before: seq<nat>)
    requires Inv(s) && Enabled(s, step) && s.lru == Recent(before)
    ensures Do(s, step).lru == Recent(before + Chosen(s, step))
  {
    if Choice(s, step).Some? {
      ChoiceIs(s, step);
      RecentAfter(before, Choice(s, step).value);
    } else {
      OnlyChoicesMove(s, step);
      assert before + [] == before;
    }
  }

  lemma FirstStep(s: State, steps: seq<Step>, before: seq<nat>) returns (s1: State, first: seq<nat>)
    requires Inv(s) && IsRun(s, steps) && steps != [] && s.lru == Recent(before)
    ensures Inv(s1) && IsRun(s1, steps[1..]) && After(s, steps) == After(s1, steps[1..])
    ensures Choices(s, steps) == first + Choices(s1, steps[1..])
    ensures s1.lru == Recent(before + first)
  {
    StepKeeps(s, steps[0]);
    ListAfter(s, steps[0], before);
    s1, first := Do(s, steps[0]), Chosen(s, steps[0]);
  }

  /** What is left of a run, as the list sees it. */
  ghost predicate Lists(s: State, steps: seq<Step>, before: seq<nat>)
    requires Inv(s) && IsRun(s, steps)
  {
    After(s, steps).lru == Recent(before + Choices(s, steps))
  }

  lemma Joined(before: seq<nat>, first: seq<nat>, rest: seq<nat>)
    ensures before + first + rest == before + (first + rest)
  {
  }

  lemma {:induction false} ListFrom(s: State, steps: seq<Step>, before: seq<nat>)
    requires Inv(s) && IsRun(s, steps) && s.lru == Recent(before)
    ensures Lists(s, steps, before)
    decreases |steps|
  {
    if steps == [] {
      assert before + [] == before;
    } else {
      var s1, first := FirstStep(s, steps, before);
      ListFrom(s1, steps[1..], before + first);
      Joined(before, first, Choices(s1, steps[1..]));
    }
  }

  /** In every interleaving, the list orders the slots by when they were last chosen. */
  lemma ListIsRecent(s: State, steps: seq<Step>)
    requires Initial(s) && IsRun(s, steps)
    ensures After(s, steps).lru == Recent(Choices(s, steps))
  {
    ListFrom(s, steps, []);
    assert [] + Choices(s, steps) == Choices(s, steps);
  }

  /** All others of `n` slots come in `cs` after the last `k`. */
  ghost predicate LeastRecent(cs: seq<nat>, k: nat, n: nat) {
    k in cs && forall i :: 0 <= i < n && i != k ==> i in UsedSince(cs, k)
  }

  lemma LastIsLeastRecent(lru: seq<nat>, cs: seq<nat>)
    requires Permutation(lru) && lru != [] && lru == Recent(cs)
    ensures LeastRecent(cs, lru[|lru| - 1], |lru|)
  {
    var n := |lru| - 1;
    var k := lru[n];
    RecentDistinct(cs);
    assert k in lru;
    AheadIsSince(cs, k);
    PositionIs(lru, k, n);
    forall i | 0 <= i < |lru| && i != k ensures i in UsedSince(cs, k) {
      assert i in lru;
      var p :| 0 <= p < |lru| && lru[p] == i;
      assert lru[..n][p] == i;
    }
  }

  /** The slot to be evicted is the last of the full list. */
  lemma EvictsLast(s: State, step: Step)
    requires Inv(s) && Enabled(s, step) && Evicts(s, step)
    ensures |s.lru| == CACHE_SIZE && Choice(s, step) == Some(s.lru[CACHE_SIZE - 1])
  {
    ChoiceIs(s, step);
  }

  /** In every interleaving, a slot is evicted only if all other slots have been chosen since it was. */
  lemma EvictsLeastRecent(s: State, steps: seq<Step>, step: Step)
    requires Initial(s) && IsRun(s, steps) && Enabled(After(s, steps), step) && Evicts(After(s, steps), step)
    ensures LeastRecent(Choices(s, steps), Choice(After(s, steps), step).value, 64)
  {
    EvictsLast(After(s, steps), step);
    ListIsRecent(s, steps);
    LastIsLeastRecent(After(s, steps).lru, Choices(s, steps));
  }

  // ----- reads and writes -----

  /** Thread `t` is in an access of `x`, to store `p` or to read, and has not copied yet. */
  ghost predicate InAccess<D>(d: SharedCache<D>, t: Tid, x: Sector, p: Option<D>) {
    && Sizes(d) && t < |d.stage| && d.put[t] == p
    && match d.c.pc[t]
       case Entering(call) => call == Access(x)
       case Searching(y, _, _) => y == x
       case Taking(y, _, evict) => y == x && (evict || d.stage[t] != Out)
       case Handing(y, _, evict) => y == x && (evict || d.stage[t] != Out)
       case Using(y, _) => y == x && d.stage[t] != Out
       case _ => false
  }

  /** The step from `d` to `d'` has copied: from a slot that holds the contents of `x`, or what was to be stored into
      the slot, which is dirty then. */
  ghost predicate Accessed<D>(d: SharedCache<D>, d': SharedCache<D>, t: Tid, x: Sector, p: Option<D>) {
    && Sizes(d) && Sizes(d') && Shape(d.c) && t < |d.stage| && t < |d'.stage|
    && d.c.pc[t].Using? && d.c.pc[t].sector == x && d.c.pc[t].k < CACHE_SIZE
    && d'.c.pc[t] == d.c.pc[t] && d'.stage[t] == Out
    && (p.None? ==> Holding(d, d.c.pc[t].k, x) && d'.data == d.data && d'.dirty == d.dirty)
    && (p.Some? ==> d'.data[d.c.pc[t].k] == p.value == d'.last(x) && d'.dirty[d.c.pc[t].k])
  }

  /** A call begins by asking for LRU_lock, with what it is to do. */
  lemma CallBegins<D>(d: SharedCache<D>, t: Tid, req: Request<D>)
    requires CacheInv(d) && Possible(d, Call(t, req))
    ensures req.Read? ==> InAccess(Act(d, Call(t, req)), t, req.x, None)
    ensures req.Write? ==> InAccess(Act(d, Call(t, req)), t, req.x, Some(req.v))
    ensures req.Flush? ==> t < |Act(d, Call(t, req)).c.pc| && Act(d, Call(t, req)).c.pc[t] == Entering(FlushAll)
  {
  }

  lemma AccessByOther<D>(d: SharedCache<D>, a: Action<D>, t: Tid, x: Sector, p: Option<D>)
    requires CacheInv(d) && Possible(d, a) && InAccess(d, t, x, p) && a.t != t
    ensures InAccess(Act(d, a), t, x, p)
  {
    ActOthers(d, a);
    if a.Work? { assert PcOk(d.c, d.c.pc[a.t]); }
  }

  lemma AccessUses<D>(d: SharedCache<D>, t: Tid, sees: bool, x: Sector, p: Option<D>)
    requires CacheInv(d) && Possible(d, Work(t, sees)) && InAccess(d, t, x, p) && d.c.pc[t].Using?
    ensures InAccess(Act(d, Work(t, sees)), t, x, p) || Accessed(d, Act(d, Work(t, sees)), t, x, p)
  {
    assert PcOk(d.c, d.c.pc[t]) && StageOk(d, t);
  }

  lemma AccessGoesOn<D>(d: SharedCache<D>, t: Tid, sees: bool, x: Sector, p: Option<D>)
    requires CacheInv(d) && Possible(d, Work(t, sees)) && InAccess(d, t, x, p) && !d.c.pc[t].Using?
    ensures InAccess(Act(d, Work(t, sees)), t, x, p)
  {
    assert PcOk(d.c, d.c.pc[t]);
    ActOthers(d, Work(t, sees));
  }

  lemma AccessStep<D>(d: SharedCache<D>, a: Action<D>, t: Tid, x: Sector, p: Option<D>)
    requires CacheInv(d) && Possible(d, a) && InAccess(d, t, x, p)
    ensures InAccess(Act(d, a), t, x, p) || Accessed(d, Act(d, a), t, x, p)
  {
    if a.t != t {
      AccessByOther(d, a, t, x, p);
    } else if d.c.pc[t].Using? {
      AccessUses(d, t, a.sees, x, p);
    } else {
      AccessGoesOn(d, t, a.sees, x, p);
    }
  }

  /** The step to state `r` of the run has copied. */
  ghost predicate AccessedAt<D>(trace: seq<SharedCache<D>>, t: Tid, x: Sector, p: Option<D>, r: int) {
    0 < r < |trace| && Accessed(trace[r - 1], trace[r], t, x, p)
  }

  lemma {:induction false} GoesThrough<D>(trace: seq<SharedCache<D>>, t: Tid, x: Sector, p: Option<D>, i: nat, j: nat)
    requires i <= j < |trace| && InAccess(trace[i], t, x, p)
    requires forall r :: i < r <= j ==>
      InAccess(trace[r - 1], t, x, p) ==> InAccess(trace[r], t, x, p) || AccessedAt(trace, t, x, p, r)
    ensures InAccess(trace[j], t, x, p) || exists r :: i < r <= j && AccessedAt(trace, t, x, p, r)
    decreases j
  {
    if j > i { GoesThrough(trace, t, x, p, i, j - 1); }
  }

  /** In every interleaving, a read or a write goes on or has copied. */
  lemma AccessGoesThrough<D>(trace: seq<SharedCache<D>>, acts: seq<Action<D>>, t: Tid, x: Sector, p: Option<D>, i: nat,
                             j: nat)
    requires IsCacheRun(trace, acts) && i <= j < |trace| && InAccess(trace[i], t, x, p)
    ensures InAccess(trace[j], t, x, p) || exists r :: i < r <= j && AccessedAt(trace, t, x, p, r)
  {
    forall r | i < r <= j && InAccess(trace[r - 1], t, x, p)
      ensures InAccess(trace[r], t, x, p) || AccessedAt(trace, t, x, p, r)
    {
      AccessStep(trace[r - 1], acts[r - 1], t, x, p);
    }
    GoesThrough(trace, t, x, p, i, j);
  }

  /** Then the call returns, and only the slot's lock is given back. */
  lemma AccessReturns<D>(d: SharedCache<D>, t: Tid, sees: bool)
    requires CacheInv(d) && Possible(d, Work(t, sees)) && d.c.pc[t].Using? && d.stage[t] == Out
    ensures var d', k := Act(d, Work(t, sees)), d.c.pc[t].k;
      && k < |d.c.holder| && d'.c.pc == d.c.pc[t := Idle] && d'.c.holder == d.c.holder[k := None]
      && d'.data == d.data && d'.dirty == d.dirty && d'.device == d.device && d'.last == d.last
  {
    assert PcOk(d.c, d.c.pc[t]);
  }

  /** A free slot that is taken is dirty at once exactly if it is to be stored into. */
  lemma FillMarks<D>(d: SharedCache<D>, t: Tid, sees: bool)
    requires CacheInv(d) && Possible(d, Work(t, sees)) && d.c.pc[t].Searching? && d.c.pc[t].i == |d.c.lru| < CACHE_SIZE
    ensures var d' := Act(d, Work(t, sees));
      d'.dirty == d.dirty[|d.c.lru| := d.put[t].Some?] && d'.data == d.data && d'.device == d.device
  {
    assert PcOk(d.c, d.c.pc[t]);
  }

  // ----- flushing -----

  /** A thread is in a flush of `n` slots. */
  predicate InFlush(pc: Pc, n: nat) { (pc.Flushing? || pc.FlushTaking? || pc.FlushUsing?) && pc.size == n }

  /** The slots that the flush is done with; all of them once it has returned. */
  function Done(pc: Pc, n: nat): nat { if InFlush(pc, n) then pc.i else n }

  /** The way of a flush: it goes from slot to slot, takes the lock of each that it sees dirty, and ends after all. */
  ghost predicate FlushMoves(pc: Pc, sees: bool, pc': Pc)
    requires pc.Flushing? || pc.FlushTaking? || pc.FlushUsing?
  {
    match pc
    case Flushing(i, n) =>
      pc' == if i >= n then Idle else if sees then FlushTaking(i, n) else Flushing(i + 1, n)
    case FlushTaking(i, n) => pc' == FlushUsing(i, n)
    case FlushUsing(i, n) => pc' == Flushing(i + 1, n)
  }

  lemma FlushStep(s: State, t: Tid, sees: bool)
    requires Inv(s) && Enabled(s, Go(t, sees))
    ensures var s' := Do(s, Go(t, sees));
      && t < |s'.pc|
      && (s.pc[t] == Entering(FlushAll) ==> s'.pc[t] == Flushing(0, |s.lru|))
      && (s.pc[t].Flushing? || s.pc[t].FlushTaking? || s.pc[t].FlushUsing? ==> FlushMoves(s.pc[t], sees, s'.pc[t]))
  {
    DoList(s, Go(t, sees));
    assert PcOk(s, s.pc[t]);
  }

  /** What a flush does to the data: a slot that it takes is written to the device and is clean, and nothing else
      changes. */
  lemma FlushWrites<D>(d: SharedCache<D>, t: Tid, sees: bool)
    requires CacheInv(d) && Possible(d, Work(t, sees)) && d.c.pc[t].FlushUsing?
    ensures var d', i := Act(d, Work(t, sees)), d.c.pc[t].i;
      && i < |d.dirty| && d'.dirty == d.dirty[i := false] && d'.data == d.data && d'.last == d.last
      && forall x :: d'.device(x) == if x == d.c.tags[i] then d.data[i] else d.device(x)
  {
    assert PcOk(d.c, d.c.pc[t]);
  }

  /** Slot `i` is clean, or some thread holds its lock. */
  ghost predicate NotLeftDirty<D>(d: SharedCache<D>, i: nat) {
    i < |d.dirty| && i < |d.c.holder| && (!d.dirty[i] || d.c.holder[i].Some?)
  }

  lemma ActPlaces<D>(d: SharedCache<D>, a: Action<D>, t: Tid)
    requires CacheInv(d) && Possible(d, a) && t < |d.c.pc|
    requires d.c.pc[t].Flushing? || d.c.pc[t].FlushTaking? || d.c.pc[t].FlushUsing?
    ensures |Act(d, a).c.pc| == |d.c.pc|
    ensures a.t != t ==> Act(d, a).c.pc[t] == d.c.pc[t]
    ensures a.t == t ==> a.Work? && FlushMoves(d.c.pc[t], a.sees, Act(d, a).c.pc[t])
  {
    ActKeeps(d, a);
    if a.Work? {
      assert PcOk(d.c, d.c.pc[a.t]);
      if a.t == t { FlushStep(d.c, t, a.sees); }
    }
  }

  /** A step takes a flush past at most one slot, which is not left dirty. */
  ghost predicate Passes<D>(d: SharedCache<D>, d': SharedCache<D>, t: Tid, n: nat) {
    && t < |d.c.pc| && t < |d'.c.pc|
    && (InFlush(d'.c.pc[t], n) || d'.c.pc[t] == Idle)
    && (|| Done(d'.c.pc[t], n) == Done(d.c.pc[t], n)
        || (Done(d'.c.pc[t], n) == Done(d.c.pc[t], n) + 1 &&
            (NotLeftDirty(d, Done(d.c.pc[t], n)) || NotLeftDirty(d', Done(d.c.pc[t], n)))))
  }

  lemma FlushPasses<D>(d: SharedCache<D>, a: Action<D>, t: Tid, n: nat)
    requires CacheInv(d) && Possible(d, a) && t < |d.c.pc| && InFlush(d.c.pc[t], n)
    ensures Passes(d, Act(d, a), t, n)
  {
    ActPlaces(d, a, t);
    assert PcOk(d.c, d.c.pc[t]);
    if a.t == t && d.c.pc[t].FlushUsing? { FlushWrites(d, t, a.sees); }
  }

  /** From the beginning of a flush at state `a` on up to state `j`. */
  ghost predicate FlushFrom<D>(trace: seq<SharedCache<D>>, t: Tid, n: nat, a: nat, j: nat) {
    && a <= j < |trace| && t < |trace[a].c.pc| && trace[a].c.pc[t] == Flushing(0, n)
    && forall r :: a <= r < j ==> t < |trace[r].c.pc| && InFlush(trace[r].c.pc[t], n)
  }

  lemma RunPasses<D>(trace: seq<SharedCache<D>>, acts: seq<Action<D>>, t: Tid, n: nat, r: nat)
    requires IsCacheRun(trace, acts) && r < |acts| && t < |trace[r].c.pc| && InFlush(trace[r].c.pc[t], n)
    ensures Passes(trace[r], trace[r + 1], t, n)
  {
    FlushPasses(trace[r], acts[r], t, n);
  }

  lemma {:induction false} PassesAll<D>(trace: seq<SharedCache<D>>, t: Tid, n: nat, a: nat, j: nat, i: nat)
    requires FlushFrom(trace, t, n, a, j)
    requires forall r :: a <= r < j ==> Passes(trace[r], trace[r + 1], t, n)
    ensures t < |trace[j].c.pc| && (InFlush(trace[j].c.pc[t], n) || trace[j].c.pc[t] == Idle)
    ensures i < Done(trace[j].c.pc[t], n) ==> exists r :: a <= r <= j && NotLeftDirty(trace[r], i)
    decreases j
  {
    if j > a {
      PassesAll(trace, t, n, a, j - 1, i);
      assert Passes(trace[j - 1], trace[j - 1 + 1], t, n);
    }
  }

  /** In every interleaving, a flush has gone past only slots that were clean, or in use by another thread, at some
      time since it began; when it returns it has gone past all. */
  lemma FlushLooksAtAll<D>(trace: seq<SharedCache<D>>, acts: seq<Action<D>>, t: Tid, n: nat, a: nat, j: nat, i: nat)
    requires IsCacheRun(trace, acts) && FlushFrom(trace, t, n, a, j)
    ensures t < |trace[j].c.pc| && (InFlush(trace[j].c.pc[t], n) || trace[j].c.pc[t] == Idle)
    ensures i < Done(trace[j].c.pc[t], n) ==> exists r :: a <= r <= j && NotLeftDirty(trace[r], i)
  {
    forall r | a <= r < j ensures Passes(trace[r], trace[r + 1], t, n) { RunPasses(trace, acts, t, n, r); }
    PassesAll(trace, t, n, a, j, i);
  }

  // ----- a flush alone -----

  lemma AloneHoldsNothing<D>(d: SharedCache<D>, t: Tid, i: nat)
    requires CacheInv(d) && Alone(d, t) && t < |d.c.pc| && d.c.pc[t].Flushing? && i < CACHE_SIZE
    ensures d.c.holder[i].None?
  {
    forall u | 0 <= u < |d.c.pc| ensures d.c.holder[i] != Some(u) { assert SlotOk(d.c, u, i); }
  }

  /** The first `m` slots are clean. */
  ghost predicate CleanTo<D>(d: SharedCache<D>, m: nat) {
    m <= |d.dirty| && forall k :: 0 <= k < m ==> !d.dirty[k]
  }

  lemma FlushAloneStep<D>(d: SharedCache<D>, a: Action<D>, t: Tid, n: nat)
    requires CacheInv(d) && Possible(d, a) && Alone(d, a.t) && t < |d.c.pc|
    requires InFlush(d.c.pc[t], n) && CleanTo(d, Done(d.c.pc[t], n))
    ensures a.t == t && |Act(d, a).c.pc| == |d.c.pc| && Alone(Act(d, a), t)
    ensures CleanTo(Act(d, a), Done(Act(d, a).c.pc[t], n)) && Act(d, a).c.lru == d.c.lru
  {
    assert a.t == t;
    ActPlaces(d, a, t);
    assert PcOk(d.c, d.c.pc[t]);
    if d.c.pc[t].FlushUsing? { FlushWrites(d, t, a.sees); }
    if d.c.pc[t].Flushing? && d.c.pc[t].i < n { AloneHoldsNothing(d, t, d.c.pc[t].i); }
  }

  /** A flush of `n` slots by thread `t`, alone, has left those that it is done with clean. */
  ghost predicate FlushingAlone<D>(d: SharedCache<D>, t: Tid, n: nat) {
    CacheInv(d) && t < |d.c.pc| && Alone(d, t) && |d.c.lru| == n && CleanTo(d, Done(d.c.pc[t], n))
  }

  lemma RunFlushesAlone<D>(trace: seq<SharedCache<D>>, acts: seq<Action<D>>, t: Tid, n: nat, r: nat)
    requires IsCacheRun(trace, acts) && r < |acts| && FlushingAlone(trace[r], t, n) && Alone(trace[r], acts[r].t)
    requires InFlush(trace[r].c.pc[t], n)
    ensures FlushingAlone(trace[r + 1], t, n)
  {
    FlushAloneStep(trace[r], acts[r], t, n);
  }

  /** What every step keeps holds all along. */
  lemma {:induction false} StaysAlone<D>(trace: seq<SharedCache<D>>, t: Tid, n: nat, a: nat, j: nat)
    requires a <= j < |trace| && FlushingAlone(trace[a], t, n)
    requires forall r :: a <= r < j ==> FlushingAlone(trace[r], t, n) ==> FlushingAlone(trace[r + 1], t, n)
    ensures FlushingAlone(trace[j], t, n)
    decreases j
  {
    if j > a {
      StaysAlone(trace, t, n, a, j - 1);
      assert FlushingAlone(trace[j - 1], t, n) ==> FlushingAlone(trace[j - 1 + 1], t, n);
    }
  }

  lemma FlushAlone<D>(trace: seq<SharedCache<D>>, acts: seq<Action<D>>, t: Tid, n: nat, a: nat, j: nat)
    requires IsCacheRun(trace, acts) && FlushFrom(trace, t, n, a, j) && FlushingAlone(trace[a], t, n)
    requires forall r :: a <= r < j ==> Alone(trace[r], acts[r].t)
    ensures FlushingAlone(trace[j], t, n)
  {
    forall r | a <= r < j && FlushingAlone(trace[r], t, n) ensures FlushingAlone(trace[r + 1], t, n) {
      RunFlushesAlone(trace, acts, t, n, r);
    }
    StaysAlone(trace, t, n, a, j);
  }

  lemma CleanIsOnDevice<D>(d: SharedCache<D>, x: Sector)
    requires CacheInv(d) && Safe(d, x) && CleanTo(d, |d.c.lru|)
    requires forall t :: 0 <= t < |d.c.pc| ==> d.c.pc[t].Idle?
    ensures d.device(x) == d.last(x)
  {
  }

  /** When calls do not overlap, a flush that returns leaves the last write of every sector on the device. */
  lemma SerialFlush<D>(trace: seq<SharedCache<D>>, acts: seq<Action<D>>, t: Tid, n: nat, a: nat, b: nat, x: Sector)
    requires IsCacheRun(trace, acts) && Starts(trace[0]) && a < b < |trace|
    requires forall i :: 0 <= i < b ==> Alone(trace[i], acts[i].t)
    requires FlushFrom(trace, t, n, a, b) && t < |trace[b].c.pc| && trace[b].c.pc[t] == Idle
    ensures trace[b].device(x) == trace[b].last(x)
  {
    assert Alone(trace[a], acts[a].t) && PcOk(trace[a].c, trace[a].c.pc[t]);
    FlushAlone(trace, acts, t, n, a, b);
    SerialRun(trace, acts, x, b);
    CleanIsOnDevice(trace[b], x);
  }
}
