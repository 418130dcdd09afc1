/** Two runs of the buffer cache, from the empty cache on, in which two overlapping calls go wrong. */
module CacheRace {

  import opened Basics
  import opened BufferCache
  import opened CacheLocks
  import opened CacheData
  import opened CacheCoherence

  // ----- states that runs reach -----

  ghost predicate RunsTo(trace: seq<SharedCache<bool>>, acts: seq<Action<bool>>, d: SharedCache<bool>) {
    IsCacheRun(trace, acts) && Starts(trace[0]) && trace[|acts|] == d
  }

  /** Some run from the empty cache leads to `d`. */
  ghost predicate Reached(d: SharedCache<bool>)
    ensures Reached(d) ==> CacheInv(d)
  {
    exists trace: seq<SharedCache<bool>>, acts: seq<Action<bool>> :: RunsTo(trace, acts, d)
  }

  lemma OneMore(d: SharedCache<bool>, a: Action<bool>)
    requires Reached(d) && Possible(d, a)
    ensures Reached(Act(d, a))
  {
    var trace: seq<SharedCache<bool>>, acts: seq<Action<bool>> :| RunsTo(trace, acts, d);
    ActKeeps(d, a);
    var e := Act(d, a);
    var trace', acts' := trace + [e], acts + [a];
    forall i | 0 <= i < |acts'| ensures Possible(trace'[i], acts'[i]) && trace'[i + 1] == Act(trace'[i], acts'[i]) {
      if i < |acts| { assert trace'[i] == trace[i] && trace'[i + 1] == trace[i + 1]; }
    }
    assert RunsTo(trace', acts', e);
  }

  /** A lock that no thread is in a place to hold is free. */
  lemma SlotFree(c: State, k: nat)
    requires Inv(c) && k < CACHE_SIZE && forall t :: 0 <= t < |c.pc| ==> !HoldsSlot(c.pc[t], k)
    ensures c.holder[k].None?
  {
    forall t | 0 <= t < |c.pc| ensures c.holder[k] != Some(t) { assert SlotOk(c, t, k); }
  }

  lemma LruFree(c: State)
    requires Inv(c) && forall t :: 0 <= t < |c.pc| ==> !HoldsLru(c.pc[t])
    ensures c.lruHolder.None?
  {
    forall t | 0 <= t < |c.pc| ensures c.lruHolder != Some(t) { assert LruOk(c, t); }
  }

  // ----- parts of a call, taken without interruption -----

  function Wish(req: Request<bool>): Option<bool> { if req.Write? then Some(req.v) else None }

  /** A call, up to its search. */
  ghost function Entered(d: SharedCache<bool>, t: Tid, req: Request<bool>): SharedCache<bool>
    requires t < |d.c.pc| && t < |d.put|
  {
    var pc := if req.Flush? then Flushing(0, |d.c.lru|) else Searching(req.x, 0, |d.c.lru|);
    d.(c := d.c.(lruHolder := Some(t), pc := d.c.pc[t := pc]), put := d.put[t := Wish(req)])
  }

  lemma Enter(d: SharedCache<bool>, t: Tid, req: Request<bool>)
    requires Reached(d) && t < |d.c.pc| && d.c.pc[t].Idle? && d.c.lruHolder.None?
    ensures Reached(Entered(d, t, req))
  {
    NoSlotNoStage(d, t);
    OneMore(d, Call(t, req));
    var d1 := Act(d, Call(t, req));
    OneMore(d1, Work(t, false));
    var d2 := Act(d1, Work(t, false));
    assert d2.c.pc == Entered(d, t, req).c.pc && d2.stage == d.stage;
    assert d2 == Entered(d, t, req);
  }

  /** The search goes past slots with other tags. */
  lemma {:induction false} Miss(d: SharedCache<bool>, t: Tid, x: Sector, i: nat)
    requires Reached(d) && t < |d.c.pc| && d.c.pc[t] == Searching(x, i, |d.c.lru|) && i <= |d.c.lru|
    requires Absent(d.c, x, |d.c.lru|)
    ensures Reached(d.(c := Put(d.c, t, Searching(x, |d.c.lru|, |d.c.lru|))))
    decreases |d.c.lru| - i
  {
    var n := |d.c.lru|;
    if i == n {
      assert d.c.pc[t := Searching(x, n, n)] == d.c.pc;
    } else {
      OneMore(d, Work(t, false));
      var e := Act(d, Work(t, false));
      assert e.stage == d.stage && e == d.(c := Put(d.c, t, Searching(x, i + 1, n)));
      Miss(e, t, x, i + 1);
      assert e.c.pc[t := Searching(x, n, n)] == d.c.pc[t := Searching(x, n, n)];
    }
  }

  /** A call whose search has found nothing. */
  ghost function Missed(d: SharedCache<bool>, t: Tid, req: Request<bool>): SharedCache<bool>
    requires t < |d.c.pc| && t < |d.put| && !req.Flush?
  {
    d.(c := d.c.(lruHolder := Some(t), pc := d.c.pc[t := Searching(req.x, |d.c.lru|, |d.c.lru|)]),
       put := d.put[t := Wish(req)])
  }

  lemma EnterAndMiss(d: SharedCache<bool>, t: Tid, req: Request<bool>)
    requires Reached(d) && t < |d.c.pc| && d.c.pc[t].Idle? && d.c.lruHolder.None? && !req.Flush?
    requires Absent(d.c, req.x, |d.c.lru|)
    ensures Reached(Missed(d, t, req))
  {
    Enter(d, t, req);
    var e := Entered(d, t, req);
    Miss(e, t, req.x, 0);
    assert e.c.pc[t := Searching(req.x, |d.c.lru|, |d.c.lru|)] == Missed(d, t, req).c.pc;
  }

  /** After a miss with a free slot: up to the use of the slot. */
  ghost function GotFree(d: SharedCache<bool>, t: Tid, req: Request<bool>): SharedCache<bool>
    requires Sizes(d) && Shape(d.c) && t < |d.c.pc| && !req.Flush? && |d.c.lru| < CACHE_SIZE
  {
    var n := |d.c.lru|;
    d.(c := d.c.(holder := d.c.holder[n := Some(t)], tags := d.c.tags[n := req.x], lru := [n] + d.c.lru,
                 pc := d.c.pc[t := Using(req.x, n)]),
       put := d.put[t := Wish(req)], owed := d.owed[n := Some(t)], dirty := d.dirty[n := req.Write?],
       stage := d.stage[t := if req.Write? then Fresh else Load])
  }

  lemma TakeFree(d: SharedCache<bool>, t: Tid, req: Request<bool>)
    requires Reached(d) && t < |d.c.pc| && d.c.pc[t].Idle? && d.c.lruHolder.None? && !req.Flush?
    requires |d.c.lru| < CACHE_SIZE && Absent(d.c, req.x, |d.c.lru|) && d.c.holder[|d.c.lru|].None?
    ensures Reached(GotFree(d, t, req))
  {
    EnterAndMiss(d, t, req);
    var n := |d.c.lru|;
    var d1, a := Missed(d, t, req), Work(t, false);
    OneMore(d1, a);
    var d2 := Act(d1, a);
    assert d2.c.pc == d.c.pc[t := Taking(req.x, n, false)];
    OneMore(d2, a);
    var d3 := Act(d2, a);
    assert d3.c.pc == d.c.pc[t := Handing(req.x, n, false)] && d3.stage == d2.stage;
    OneMore(d3, a);
    var d4 := Act(d3, a);
    assert d4.c.pc == d.c.pc[t := Using(req.x, n)] && d4.stage == d2.stage;
    assert d4 == GotFree(d, t, req);
  }

  /** After a miss without a free slot: the last slot of the list goes to its front. */
  ghost function LastChosen(d: SharedCache<bool>, t: Tid, req: Request<bool>): SharedCache<bool>
    requires Sizes(d) && t < |d.c.pc| && !req.Flush? && |d.c.lru| == CACHE_SIZE
  {
    var k := d.c.lru[CACHE_SIZE - 1];
    d.(c := d.c.(lruHolder := Some(t), lru := [k] + d.c.lru[..CACHE_SIZE - 1],
                 pc := d.c.pc[t := Taking(req.x, k, true)]),
       put := d.put[t := Wish(req)])
  }

  lemma ChooseLast(d: SharedCache<bool>, t: Tid, req: Request<bool>)
    requires Reached(d) && t < |d.c.pc| && d.c.pc[t].Idle? && d.c.lruHolder.None? && !req.Flush?
    requires |d.c.lru| == CACHE_SIZE && Absent(d.c, req.x, CACHE_SIZE)
    ensures Reached(LastChosen(d, t, req))
  {
    EnterAndMiss(d, t, req);
    var d1 := Missed(d, t, req);
    OneMore(d1, Work(t, false));
    var d2 := Act(d1, Work(t, false));
    assert d2.c.pc == LastChosen(d, t, req).c.pc && d2.stage == d.stage;
    assert d2 == LastChosen(d, t, req);
  }

  /** Up to the drop of the old tag. */
  ghost function GotLast(d: SharedCache<bool>, t: Tid, req: Request<bool>): SharedCache<bool>
    requires Sizes(d) && Inv(d.c) && t < |d.c.pc| && !req.Flush? && |d.c.lru| == CACHE_SIZE
  {
    var k := d.c.lru[CACHE_SIZE - 1];
    d.(c := d.c.(holder := d.c.holder[k := Some(t)], tags := d.c.tags[k := req.x],
                 lru := [k] + d.c.lru[..CACHE_SIZE - 1], pc := d.c.pc[t := Using(req.x, k)]),
       put := d.put[t := Wish(req)], owed := d.owed[k := Some(t)], stage := d.stage[t := Back(d.c.tags[k])])
  }

  lemma TakeLast(d: SharedCache<bool>, t: Tid, req: Request<bool>)
    requires Reached(d) && t < |d.c.pc| && d.c.pc[t].Idle? && d.c.lruHolder.None? && !req.Flush?
    requires |d.c.lru| == CACHE_SIZE && Absent(d.c, req.x, CACHE_SIZE)
    requires d.c.holder[d.c.lru[CACHE_SIZE - 1]].None?
    ensures Reached(GotLast(d, t, req))
  {
    ChooseLast(d, t, req);
    var k := d.c.lru[CACHE_SIZE - 1];
    var d2, a := LastChosen(d, t, req), Work(t, false);
    OneMore(d2, a);
    var d3 := Act(d2, a);
    assert d3.c.pc == d.c.pc[t := Handing(req.x, k, true)] && d3.stage == d.stage;
    OneMore(d3, a);
    var d4 := Act(d3, a);
    assert d4.c.pc == d.c.pc[t := Using(req.x, k)];
    assert d4 == GotLast(d, t, req);
  }

  /** A thread that has only to leave its slot leaves it. */
  ghost function Gone(d: SharedCache<bool>, t: Tid, k: nat): SharedCache<bool>
    requires Sizes(d) && Shape(d.c) && t < |d.c.pc| && k < CACHE_SIZE
  {
    d.(c := d.c.(holder := d.c.holder[k := None], pc := d.c.pc[t := Idle]), stage := d.stage[t := Out])
  }

  lemma Leave(d: SharedCache<bool>, t: Tid, x: Sector, k: nat)
    requires Reached(d) && t < |d.c.pc| && d.c.pc[t] == Using(x, k) && k < CACHE_SIZE && d.stage[t].Out?
    ensures Reached(Gone(d, t, k))
  {
    OneMore(d, Work(t, false));
  }

  lemma LoadOne(d: SharedCache<bool>, t: Tid, x: Sector, k: nat)
    requires Reached(d) && t < |d.c.pc| && d.c.pc[t] == Using(x, k) && k < CACHE_SIZE && d.stage[t].Load?
    ensures Reached(Loaded(d, t, x, k))
  {
    OneMore(d, Work(t, false));
    assert Act(d, Work(t, false)) == Loaded(d, t, x, k);
  }

  /** The rest of a read whose slot is to be loaded. */
  ghost function AfterLoad(d: SharedCache<bool>, t: Tid, x: Sector, k: nat): SharedCache<bool>
    requires Sizes(d) && Shape(d.c) && t < |d.c.pc| && k < CACHE_SIZE
  {
    Gone(d, t, k).(data := d.data[k := d.device(x)], owed := d.owed[k := None])
  }

  lemma FinishLoad(d: SharedCache<bool>, t: Tid, x: Sector, k: nat)
    requires Reached(d) && t < |d.c.pc| && d.c.pc[t] == Using(x, k) && k < CACHE_SIZE && d.stage[t].Load?
    ensures Reached(AfterLoad(d, t, x, k))
  {
    LoadOne(d, t, x, k);
    var d1 := Loaded(d, t, x, k);
    assert StageOk(d, t);
    OneMore(d1, Work(t, false));
    var d2 := Act(d1, Work(t, false));
    Leave(d2, t, x, k);
    assert d2.stage[t := Out] == d.stage[t := Out];
    assert Gone(d2, t, k) == AfterLoad(d, t, x, k);
  }

  /** The rest of a write whose slot is all its own. */
  ghost function AfterStore(d: SharedCache<bool>, t: Tid, x: Sector, k: nat, v: bool): SharedCache<bool>
    requires Sizes(d) && Shape(d.c) && t < |d.c.pc| && k < CACHE_SIZE
  {
    Gone(d, t, k).(data := d.data[k := v], dirty := d.dirty[k := true], owed := d.owed[k := None],
                   last := With(d.last, x, v))
  }

  lemma FinishStore(d: SharedCache<bool>, t: Tid, x: Sector, k: nat, v: bool)
    requires Reached(d) && t < |d.c.pc| && d.c.pc[t] == Using(x, k) && k < CACHE_SIZE && d.stage[t].Fresh?
    requires d.put[t] == Some(v)
    ensures Reached(AfterStore(d, t, x, k, v))
  {
    OneMore(d, Work(t, false));
    var d1 := Act(d, Work(t, false));
    assert d1 == Stored(d, t, x, k);
    Leave(d1, t, x, k);
    assert d1.stage[t := Out] == d.stage[t := Out];
    assert Gone(d1, t, k) == AfterStore(d, t, x, k, v);
  }

  /** The write-back after a drop finds the slot clean. */
  lemma BackClean(d: SharedCache<bool>, t: Tid, x: Sector, k: nat)
    requires Reached(d) && t < |d.c.pc| && d.c.pc[t] == Using(x, k) && k < CACHE_SIZE && d.stage[t].Back? && !d.dirty[k]
    ensures Reached(d.(stage := d.stage[t := if d.put[t].None? then Load else Fresh]))
  {
    OneMore(d, Work(t, false));
    assert d.dirty[k := false] == d.dirty;
    assert Act(d, Work(t, false)) == d.(stage := d.stage[t := if d.put[t].None? then Load else Fresh]);
  }

  // ----- a cache full of clean sectors, but for one -----

  /** Two threads, neither of them in a call. */
  ghost predicate Quiet(d: SharedCache<bool>) {
    Reached(d) && d.c.pc == [Idle, Idle] && d.stage == [Out, Out]
  }

  lemma QuietLocks(d: SharedCache<bool>, k: nat)
    requires Quiet(d) && k < CACHE_SIZE
    ensures d.c.lruHolder.None? && d.c.holder[k].None?
  {
    LruFree(d.c);
    SlotFree(d.c, k);
  }

  /** The first `n` slots have been filled by reads. */
  ghost predicate FilledTo(d: SharedCache<bool>, n: nat) {
    && Quiet(d) && n == |d.c.lru| <= CACHE_SIZE
    && (forall i :: 0 <= i < n ==> d.c.lru[i] == n - 1 - i)
    && (forall k :: 0 <= k < n ==> d.c.tags[k] == k + 10 && d.owed[k].None? && !d.dirty[k])
    && !d.device(5)
  }

  lemma FillOne(d: SharedCache<bool>, n: nat) returns (e: SharedCache<bool>)
    requires FilledTo(d, n) && n < CACHE_SIZE
    ensures FilledTo(e, n + 1)
  {
    QuietLocks(d, n);
    TakeFree(d, 0, Read(n + 10));
    var d1 := GotFree(d, 0, Read(n + 10));
    FinishLoad(d1, 0, n + 10, n);
    e := AfterLoad(d1, 0, n + 10, n);
    assert e.c.pc == [Idle, Idle] && e.stage == [Out, Out];
  }

  /** The cache as cache_init leaves it, over a device of zeros. */
  ghost function Empty(): SharedCache<bool> {
    var zeros := (_: Sector) => false;
    SharedCache(State(None, seq(CACHE_SIZE, _ => None), seq(CACHE_SIZE, _ => 0), [], [Idle, Idle]),
                seq(CACHE_SIZE, _ => false), seq(CACHE_SIZE, _ => false), seq(CACHE_SIZE, _ => None),
                zeros, zeros, [None, None], [Out, Out])
  }

  lemma {:induction false} Fill(n: nat) returns (d: SharedCache<bool>)
    requires n <= CACHE_SIZE
    ensures FilledTo(d, n)
  {
    if n == 0 {
      d := Empty();
      StartsSafe(d, 0);
      assert RunsTo([d], [], d);
    } else {
      var d0 := Fill(n - 1);
      d := FillOne(d0, n - 1);
    }
  }

  /** Slot `k` holds the only copy of what was written to sector 5. */
  ghost predicate Written(d: SharedCache<bool>, k: nat) {
    && Sizes(d) && Shape(d.c) && k < CACHE_SIZE
    && d.c.tags[k] == 5 && d.owed[k].None? && d.dirty[k] && d.data[k] && !d.device(5) && d.last(5)
  }

  /** All slots are in use. Sector 5, in the last slot, has been written; the first `m` others have been used again
      since, for other sectors. */
  ghost predicate Rotated(d: SharedCache<bool>, m: nat) {
    && Quiet(d) && m < CACHE_SIZE == |d.c.lru|
    && (forall i :: 0 <= i < CACHE_SIZE ==> d.c.lru[i] == if i < m then m - 1 - i else CACHE_SIZE - 1 - (i - m))
    && (forall k :: 0 <= k < CACHE_SIZE - 1 ==>
          d.c.tags[k] == (if k < m then k + 100 else k + 10) && d.owed[k].None? && !d.dirty[k])
    && Written(d, CACHE_SIZE - 1)
  }

  lemma WriteFive() returns (d: SharedCache<bool>)
    ensures Rotated(d, 0)
  {
    var n := CACHE_SIZE - 1;
    var d0 := Fill(n);
    QuietLocks(d0, n);
    TakeFree(d0, 0, Write(5, true));
    var d1 := GotFree(d0, 0, Write(5, true));
    FinishStore(d1, 0, 5, n, true);
    d := AfterStore(d1, 0, 5, n, true);
    assert d.c.pc == [Idle, Idle] && d.stage == [Out, Out];
  }

  lemma RotateOne(d: SharedCache<bool>, m: nat) returns (e: SharedCache<bool>)
    requires Rotated(d, m) && m + 1 < CACHE_SIZE
    ensures Rotated(e, m + 1)
  {
    QuietLocks(d, m);
    assert d.c.lru[CACHE_SIZE - 1] == m;
    var req := Read(m + 100);
    TakeLast(d, 0, req);
    var d1 := GotLast(d, 0, req);
    BackClean(d1, 0, m + 100, m);
    var d2 := d1.(stage := d1.stage[0 := Load]);
    FinishLoad(d2, 0, m + 100, m);
    e := AfterLoad(d2, 0, m + 100, m);
    assert e.c.pc == [Idle, Idle] && e.stage == [Out, Out];
    assert e.c.lru == [m] + d.c.lru[..CACHE_SIZE - 1];
  }

  lemma {:induction false} Rotate(m: nat) returns (d: SharedCache<bool>)
    requires m < CACHE_SIZE
    ensures Rotated(d, m)
  {
    if m == 0 {
      d := WriteFive();
    } else {
      var d0 := Rotate(m - 1);
      d := RotateOne(d0, m - 1);
    }
  }

  // ----- the race -----

  /** Thread 0 has dropped sector 5 from the last slot and has yet to write it back; slot 0 is next to go. */
  ghost predicate Racing(d: SharedCache<bool>) {
    && Reached(d) && d.c.pc == [Using(200, CACHE_SIZE - 1), Idle] && d.stage == [Back(5), Out]
    && |d.c.lru| == CACHE_SIZE && d.c.lru[CACHE_SIZE - 1] == 0
    && (forall k :: 0 <= k < CACHE_SIZE - 1 ==> d.c.tags[k] == k + 100 && !d.dirty[k])
    && d.dirty[CACHE_SIZE - 1] && d.data[CACHE_SIZE - 1] && !d.device(5) && d.last(5)
  }

  lemma Race() returns (d: SharedCache<bool>)
    ensures Racing(d)
  {
    var n := CACHE_SIZE - 1;
    var d0 := Rotate(n);
    QuietLocks(d0, n);
    assert d0.c.lru[n] == n && d0.c.lru[n - 1] == 0;
    TakeLast(d0, 0, Read(200));
    d := GotLast(d0, 0, Read(200));
    assert d.c.lru == [n] + d0.c.lru[..n];
    assert d.c.pc == [Using(200, n), Idle] && d.stage == [Back(5), Out];
  }

  lemma RacingLocks(d: SharedCache<bool>)
    requires Racing(d)
    ensures d.c.lruHolder.None? && d.c.holder[0].None? && Absent(d.c, 5, CACHE_SIZE)
  {
    LruFree(d.c);
    SlotFree(d.c, 0);
    assert PcOk(d.c, d.c.pc[0]);
  }

  /** Thread 1 has got slot 0 for sector 5 while thread 0 has yet to write the sector back. */
  lemma Overtake(d: SharedCache<bool>, req: Request<bool>) returns (e: SharedCache<bool>)
    requires Racing(d) && !req.Flush? && req.x == 5
    ensures Reached(e) && e.c.pc == [Using(200, CACHE_SIZE - 1), Using(5, 0)]
    ensures e.stage == [Back(5), if req.Read? then Load else Fresh] && |e.put| == 2 && e.put[1] == Wish(req)
    ensures e.data == d.data && e.dirty == d.dirty && e.device == d.device && e.last == d.last
    ensures |e.c.lru| == CACHE_SIZE
  {
    RacingLocks(d);
    TakeLast(d, 1, req);
    var d1 := GotLast(d, 1, req);
    assert d1.c.pc == [Using(200, CACHE_SIZE - 1), Using(5, 0)];
    BackClean(d1, 1, 5, 0);
    e := d1.(stage := d1.stage[1 := if d1.put[1].None? then Load else Fresh]);
  }

  /** A run from the empty cache in which a read of sector 5, which overlaps with another thread's eviction of it,
      returns what was there before the last write. */
  lemma StaleRead() returns (trace: seq<SharedCache<bool>>, acts: seq<Action<bool>>, k: nat)
    ensures IsCacheRun(trace, acts) && Starts(trace[0])
    ensures var d := trace[|acts|]; Reads(d, 1, 5, k) && d.data[k] != d.last(5)
    ensures !ReadsLast(trace, acts, 5, |acts|)
  {
    var d0 := Race();
    var d1 := Overtake(d0, Read(5));
    assert StageOk(d1, 1);
    LoadOne(d1, 1, 5, 0);
    var d := Loaded(d1, 1, 5, 0);
    k := 0;
    assert Reads(d, 1, 5, 0);
    trace, acts :| RunsTo(trace, acts, d);
  }

  /** A newer write of sector 5 is in slot 0, and thread 1 is about to flush that slot. */
  ghost predicate Rewritten(d: SharedCache<bool>) {
    && Reached(d) && d.c.pc == [Using(200, CACHE_SIZE - 1), Flushing(0, CACHE_SIZE)] && d.stage == [Back(5), Out]
    && |d.c.lru| == CACHE_SIZE && d.c.tags[0] == 5 && d.dirty[0] && !d.data[0] && !d.last(5)
    && d.dirty[CACHE_SIZE - 1] && d.data[CACHE_SIZE - 1]
  }

  lemma StoreNewer(d: SharedCache<bool>) returns (e: SharedCache<bool>)
    requires Reached(d) && d.c.pc == [Using(200, CACHE_SIZE - 1), Using(5, 0)] && d.stage == [Back(5), Fresh]
    requires d.put[1] == Some(false) && |d.c.lru| == CACHE_SIZE
    ensures Reached(e) && e.c.pc == [Using(200, CACHE_SIZE - 1), Idle] && e.stage == [Back(5), Out]
    ensures e.c.lru == d.c.lru && e.c.tags[0] == 5 && e.data == d.data[0 := false] && e.dirty == d.dirty[0 := true]
    ensures !e.last(5)
  {
    assert PcOk(d.c, d.c.pc[1]);
    FinishStore(d, 1, 5, 0, false);
    e := AfterStore(d, 1, 5, 0, false);
  }

  lemma BeginFlush(d: SharedCache<bool>) returns (e: SharedCache<bool>)
    requires Reached(d) && d.c.pc == [Using(200, CACHE_SIZE - 1), Idle] && d.stage == [Back(5), Out]
    requires |d.c.lru| == CACHE_SIZE && d.c.tags[0] == 5 && d.dirty[0] && !d.data[0] && !d.last(5)
    requires d.dirty[CACHE_SIZE - 1] && d.data[CACHE_SIZE - 1]
    ensures Rewritten(e)
  {
    LruFree(d.c);
    Enter(d, 1, Flush);
    e := Entered(d, 1, Flush);
    assert e.c.pc == [Using(200, CACHE_SIZE - 1), Flushing(0, CACHE_SIZE)];
  }

  lemma Rewrite() returns (d: SharedCache<bool>)
    ensures Rewritten(d)
  {
    var d0 := Race();
    var d1 := Overtake(d0, Write(5, false));
    var d2 := StoreNewer(d1);
    d := BeginFlush(d2);
  }

  lemma FlushTakes(d: SharedCache<bool>) returns (e: SharedCache<bool>)
    requires Rewritten(d)
    ensures Reached(e) && e.c.pc == [Using(200, CACHE_SIZE - 1), FlushUsing(0, CACHE_SIZE)] && e.stage == d.stage
    ensures e.c.tags == d.c.tags && e.data == d.data && e.last == d.last && e.dirty == d.dirty
  {
    SlotFree(d.c, 0);
    OneMore(d, Work(1, true));
    var d1 := Act(d, Work(1, true));
    assert d1.c.pc == [Using(200, CACHE_SIZE - 1), FlushTaking(0, CACHE_SIZE)] && d1.stage == d.stage;
    OneMore(d1, Work(1, true));
    e := Act(d1, Work(1, true));
    assert e.stage == d.stage;
  }

  lemma FlushFirst(d: SharedCache<bool>) returns (e: SharedCache<bool>)
    requires Rewritten(d)
    ensures Reached(e) && e.c.pc == [Using(200, CACHE_SIZE - 1), Flushing(1, CACHE_SIZE)] && e.stage == d.stage
    ensures e.c.tags == d.c.tags && e.data == d.data && e.last == d.last && e.dirty == d.dirty[0 := false]
  {
    var d1 := FlushTakes(d);
    OneMore(d1, Work(1, true));
    e := Act(d1, Work(1, true));
    assert e.stage == d.stage;
  }

  /** A run from the empty cache in which a late write-back puts older contents over a write that has been flushed:
      then neither the device nor a dirty slot nor a thread has the last write any more. */
  lemma LostWrite() returns (trace: seq<SharedCache<bool>>, acts: seq<Action<bool>>)
    ensures IsCacheRun(trace, acts) && Starts(trace[0])
    ensures var d := trace[|acts|]; d.device(5) != d.last(5) && !HeldDirty(d, 5) && !PendingLast(d, 5)
    ensures !NeverBroken(trace, acts, 5, |acts|)
  {
    var d0 := Rewrite();
    var d1 := FlushFirst(d0);
    OneMore(d1, Work(0, false));
    var d := Act(d1, Work(0, false));
    assert d == WroteBack(d1, 0, CACHE_SIZE - 1, 5);
    assert PcOk(d1.c, d1.c.pc[0]);
    forall k: nat | k < CACHE_SIZE && Holding(d, k, 5) ensures k == 0 { assert d.c.tags[0] == 5; }
    trace, acts :| RunsTo(trace, acts, d);
    RunIff(trace, acts, 5, |acts|);
    assert !Safe(d, 5);
  }
}
