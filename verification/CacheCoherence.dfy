/** When overlapping calls of the buffer cache read what was written last, and when they do not. */
module CacheCoherence {

  import opened Basics
  import opened BufferCache
  import opened CacheLocks
  import opened CacheData

  // ----- where the contents of a sector are -----

  /** Slot `k` holds the contents of sector `x`. */
  ghost predicate Holding<D>(d: SharedCache<D>, k: nat, x: Sector)
    requires Sizes(d) && Shape(d.c)
  {
    k < |d.c.lru| && d.c.tags[k] == x && d.owed[k].None?
  }

  /** Thread `t` has dropped the tag of `x` from its slot and has yet to write the contents back. */
  ghost predicate Pending<D>(d: SharedCache<D>, t: Tid, x: Sector)
    requires Sizes(d)
  {
    t < |d.stage| && d.stage[t] == Back(x) && d.c.pc[t].Using? && d.c.pc[t].k < CACHE_SIZE && d.dirty[d.c.pc[t].k]
  }

  /** What it is going to write back is the last write. */
  ghost predicate PendingWith<D>(d: SharedCache<D>, t: Tid, x: Sector)
    requires Sizes(d)
  {
    Pending(d, t, x) && d.data[d.c.pc[t].k] == d.last(x)
  }

  ghost predicate PendingLast<D>(d: SharedCache<D>, x: Sector)
    requires Sizes(d)
  {
    exists t: Tid :: t < |d.stage| && PendingWith(d, t, x)
  }

  ghost predicate HeldDirty<D>(d: SharedCache<D>, x: Sector)
    requires Sizes(d) && Shape(d.c)
  {
    exists k: nat :: k < CACHE_SIZE && Holding(d, k, x) && d.dirty[k]
  }

  /** Who finds `x` in the cache finds the last write. */
  ghost predicate SlotsLast<D>(d: SharedCache<D>, x: Sector)
    requires Sizes(d) && Shape(d.c)
  {
    forall k: nat :: k < CACHE_SIZE && Holding(d, k, x) ==> d.data[k] == d.last(x)
  }

  /** And the last write will not be lost: the device has it, or a dirty slot does, or a thread that is about to
      write it back. */
  ghost predicate Safe<D>(d: SharedCache<D>, x: Sector)
    requires Sizes(d) && Shape(d.c)
  {
    SlotsLast(d, x) && (d.device(x) == d.last(x) || HeldDirty(d, x) || PendingLast(d, x))
  }

  // ----- the steps that matter -----

  /** The step reads `x` from the device into a slot. */
  ghost predicate Loads<D>(d: SharedCache<D>, a: Action<D>, x: Sector)
    requires CacheInv(d) && Possible(d, a)
  {
    a.Work? && d.c.pc[a.t].Using? && d.c.pc[a.t].sector == x && d.stage[a.t].Load?
  }

  /** The step stores a caller's bytes to `x`. */
  ghost predicate StoresTo<D>(d: SharedCache<D>, a: Action<D>, x: Sector)
    requires CacheInv(d) && Possible(d, a)
  {
    a.Work? && d.c.pc[a.t].Using? && d.c.pc[a.t].sector == x && Stores(d, a.t)
  }

  /** The step writes back contents of `x` whose tag was dropped before. */
  ghost predicate WritesBack<D>(d: SharedCache<D>, a: Action<D>, x: Sector)
    requires CacheInv(d) && Possible(d, a)
  {
    a.Work? && Pending(d, a.t, x)
  }

  /** A load of something else than the last write. */
  ghost predicate LoadsStale<D>(d: SharedCache<D>, a: Action<D>, x: Sector)
    requires CacheInv(d) && Possible(d, a)
  {
    Loads(d, a, x) && d.device(x) != d.last(x)
  }

  /** Either a load overtakes the write-back that would bring the last write to the device, or a write-back of older
      contents overwrites the only copy of the last write that was not in a clean slot. */
  ghost predicate Breaks<D>(d: SharedCache<D>, a: Action<D>, x: Sector)
    requires CacheInv(d) && Possible(d, a)
  {
    || (Loads(d, a, x) && PendingLast(d, x) && d.device(x) != d.last(x))
    || (WritesBack(d, a, x) && d.data[d.c.pc[a.t].k] != d.last(x) && !HeldDirty(d, x) && !PendingLast(d, x))
  }

  // ----- frames -----

  /** `e` has the same slots as `d`, but for slot `k`, and the same pending threads, but for `t`. */
  ghost predicate SameBut<D>(d: SharedCache<D>, e: SharedCache<D>, t: Tid, k: nat) {
    && Sizes(d) && Sizes(e) && |e.stage| == |d.stage| && Shape(d.c) && Shape(e.c)
    && (forall u :: 0 <= u < |d.stage| && u != t ==> e.stage[u] == d.stage[u] && e.c.pc[u] == d.c.pc[u])
    && (forall j :: 0 <= j < CACHE_SIZE && j != k ==>
          && (j < |e.c.lru| <==> j < |d.c.lru|) && e.c.tags[j] == d.c.tags[j]
          && e.owed[j] == d.owed[j] && e.dirty[j] == d.dirty[j] && e.data[j] == d.data[j])
  }

  /** What another thread has pending is not in the slot that changes. */
  lemma OtherPending<D>(d: SharedCache<D>, e: SharedCache<D>, t: Tid, k: nat, u: Tid, x: Sector)
    requires CacheInv(d) && t < |d.c.pc| && u < |d.c.pc| && u != t && SameBut(d, e, t, k)
    requires (k < CACHE_SIZE ==> MayChange(d, t, k)) && e.last(x) == d.last(x)
    ensures Pending(e, u, x) <==> Pending(d, u, x)
    ensures PendingWith(e, u, x) <==> PendingWith(d, u, x)
  {
    if k < CACHE_SIZE { ChangesApart(d, t, u, k); }
  }

  /** Outside slot `k` and thread `t`, all that concerns sector `x` is as it was. */
  ghost predicate OthersSame<D>(d: SharedCache<D>, e: SharedCache<D>, t: Tid, k: nat, x: Sector)
    requires Sizes(d) && Sizes(e) && Shape(d.c) && Shape(e.c) && |e.stage| == |d.stage|
  {
    && e.last(x) == d.last(x)
    && (forall j: nat :: j < CACHE_SIZE && j != k ==> (Holding(e, j, x) <==> Holding(d, j, x)))
    && (forall j: nat :: j < CACHE_SIZE && j != k ==> e.data[j] == d.data[j] && e.dirty[j] == d.dirty[j])
    && (forall u: Tid :: u < |d.stage| && u != t ==> (PendingWith(e, u, x) <==> PendingWith(d, u, x)))
  }

  lemma OthersStay<D>(d: SharedCache<D>, e: SharedCache<D>, t: Tid, k: nat, x: Sector)
    requires CacheInv(d) && t < |d.c.pc| && SameBut(d, e, t, k) && (k < CACHE_SIZE ==> MayChange(d, t, k))
    requires e.last(x) == d.last(x)
    ensures OthersSame(d, e, t, k, x)
  {
    forall u: Tid | u < |d.stage| && u != t ensures PendingWith(e, u, x) <==> PendingWith(d, u, x) {
      OtherPending(d, e, t, k, u, x);
    }
    forall j: nat | j < CACHE_SIZE && j != k ensures Holding(e, j, x) <==> Holding(d, j, x) {}
  }

  /** The contents of `x` that slot `k` had are still in it, on the device, or pending with thread `t`. */
  ghost predicate Harmless<D>(d: SharedCache<D>, e: SharedCache<D>, t: Tid, k: nat, x: Sector)
    requires Sizes(d) && Sizes(e) && Shape(d.c) && Shape(e.c) && |e.stage| == |d.stage| && t < |d.stage|
  {
    && OthersSame(d, e, t, k, x) && !Pending(d, t, x)
    && (k < CACHE_SIZE && Holding(e, k, x) ==> Holding(d, k, x) && e.data[k] == d.data[k])
    && (e.device(x) == d.device(x) || (k < CACHE_SIZE && Holding(d, k, x) && e.device(x) == d.data[k]))
    && (k < CACHE_SIZE && Holding(d, k, x) && d.dirty[k] ==>
          || e.device(x) == d.data[k]
          || (Holding(e, k, x) && e.dirty[k])
          || (Pending(e, t, x) && e.data[e.c.pc[t].k] == d.data[k]))
  }

  lemma HarmlessSlots<D>(d: SharedCache<D>, e: SharedCache<D>, t: Tid, k: nat, x: Sector)
    requires Sizes(d) && Sizes(e) && Shape(d.c) && Shape(e.c) && |e.stage| == |d.stage| && t < |d.stage|
    requires Harmless(d, e, t, k, x) && SlotsLast(d, x)
    ensures SlotsLast(e, x)
  {
  }

  lemma HarmlessSafe<D>(d: SharedCache<D>, e: SharedCache<D>, t: Tid, k: nat, x: Sector)
    requires Sizes(d) && Sizes(e) && Shape(d.c) && Shape(e.c) && |e.stage| == |d.stage| && t < |d.stage|
    requires Harmless(d, e, t, k, x) && Safe(d, x)
    ensures Safe(e, x)
  {
    HarmlessSlots(d, e, t, k, x);
    if HeldDirty(d, x) {
      var j: nat :| j < CACHE_SIZE && Holding(d, j, x) && d.dirty[j];
      if j != k {
        assert Holding(e, j, x) && e.dirty[j];
      } else if Pending(e, t, x) && e.data[e.c.pc[t].k] == d.data[k] {
        assert PendingWith(e, t, x);
      }
    }
    if PendingLast(d, x) {
      var u: Tid :| u < |d.stage| && PendingWith(d, u, x);
      assert PendingWith(e, u, x);
    }
  }

  // ----- the effect of each step -----

  lemma Unaffected<D>(d: SharedCache<D>, e: SharedCache<D>, t: Tid, x: Sector)
    requires CacheInv(d) && t < |d.c.pc| && SameBut(d, e, t, CACHE_SIZE)
    requires e.device == d.device && e.last == d.last && !d.stage[t].Back?
    ensures Harmless(d, e, t, CACHE_SIZE, x)
  {
    OthersStay(d, e, t, CACHE_SIZE, x);
  }

  lemma MovedHarmless<D>(d: SharedCache<D>, t: Tid, sees: bool, st: Stage, x: Sector)
    requires CacheInv(d) && Enabled(d.c, Go(t, sees)) && Plain(d.c, t)
    requires (st == d.stage[t] || st.Copy?) && (d.c.pc[t].Using? ==> d.stage[t].Out?)
    ensures Inv(Moved(d, t, sees, st).c) && Sizes(Moved(d, t, sees, st))
    ensures Harmless(d, Moved(d, t, sees, st), t, CACHE_SIZE, x)
  {
    assert StageOk(d, t);
    StepKeeps(d.c, Go(t, sees));
    PlainStep(d.c, t, sees);
    Unaffected(d, Moved(d, t, sees, st), t, x);
  }

  lemma FilledHarmless<D>(d: SharedCache<D>, t: Tid, sees: bool, x: Sector)
    requires CacheInv(d) && Enabled(d.c, Go(t, sees)) && d.c.pc[t].Searching?
    requires d.c.pc[t].i == |d.c.lru| < CACHE_SIZE && CacheInv(Filled(d, t, sees, |d.c.lru|))
    ensures |Filled(d, t, sees, |d.c.lru|).stage| == |d.stage|
    ensures Harmless(d, Filled(d, t, sees, |d.c.lru|), t, |d.c.lru|, x)
  {
    var n := |d.c.lru|;
    var e := Filled(d, t, sees, n);
    assert PcOk(d.c, d.c.pc[t]);
    NoSlotNoStage(d, t);
    assert e.c.pc == d.c.pc[t := Taking(d.c.pc[t].sector, n, false)];
    OthersStay(d, e, t, n, x);
  }

  lemma DroppedHarmless<D>(d: SharedCache<D>, t: Tid, sees: bool, x: Sector)
    requires CacheInv(d) && Enabled(d.c, Go(t, sees)) && d.c.pc[t].Handing? && d.c.pc[t].evict
    requires d.c.pc[t].k < |d.c.lru| && CacheInv(Dropped(d, t, sees, d.c.pc[t].k)) && d.owed[d.c.pc[t].k].None?
    ensures |Dropped(d, t, sees, d.c.pc[t].k).stage| == |d.stage|
    ensures Harmless(d, Dropped(d, t, sees, d.c.pc[t].k), t, d.c.pc[t].k, x)
  {
    var k := d.c.pc[t].k;
    var e := Dropped(d, t, sees, k);
    NoSlotNoStage(d, t);
    assert e.c.pc == d.c.pc[t := Using(d.c.pc[t].sector, k)] && e.c.lru == d.c.lru;
    assert e.stage[t] == Back(d.c.tags[k]) && e.data == d.data && e.dirty == d.dirty;
    OthersStay(d, e, t, k, x);
  }

  lemma FlushedHarmless<D>(d: SharedCache<D>, t: Tid, sees: bool, x: Sector)
    requires CacheInv(d) && Enabled(d.c, Go(t, sees)) && d.c.pc[t].FlushUsing? && d.c.pc[t].i < |d.c.lru|
    requires CacheInv(Flushed(d, t, sees, d.c.pc[t].i)) && d.owed[d.c.pc[t].i].None?
    ensures |Flushed(d, t, sees, d.c.pc[t].i).stage| == |d.stage|
    ensures Harmless(d, Flushed(d, t, sees, d.c.pc[t].i), t, d.c.pc[t].i, x)
  {
    var i := d.c.pc[t].i;
    var e := Flushed(d, t, sees, i);
    NoSlotNoStage(d, t);
    PlainStep(d.c, t, sees);
    OthersStay(d, e, t, i, x);
    assert Holding(d, i, d.c.tags[i]);
  }

  /** A write-back of another sector, or of a clean slot. */
  lemma WroteBackHarmless<D>(d: SharedCache<D>, t: Tid, x: Sector)
    requires CacheInv(d) && t < |d.stage| && d.c.pc[t].Using? && d.stage[t].Back? && d.c.pc[t].k < CACHE_SIZE
    requires !Pending(d, t, x)
    ensures Harmless(d, WroteBack(d, t, d.c.pc[t].k, d.stage[t].gone), t, d.c.pc[t].k, x)
  {
    assert StageOk(d, t);
    OthersStay(d, WroteBack(d, t, d.c.pc[t].k, d.stage[t].gone), t, d.c.pc[t].k, x);
  }

  /** Thread `t` is using slot `k` for sector `x`, and has yet to bring, change or copy its contents. */
  ghost predicate InUse<D>(d: SharedCache<D>, t: Tid, x: Sector, k: nat)
    requires Sizes(d)
  {
    t < |d.stage| && d.c.pc[t] == Using(x, k) && k < CACHE_SIZE && !d.stage[t].Out?
  }

  /** No other slot holds a sector that a thread is using. */
  lemma OnlySlot<D>(d: SharedCache<D>, t: Tid, x: Sector, k: nat, j: nat)
    requires CacheInv(d) && InUse(d, t, x, k) && Holding(d, j, x)
    ensures j == k
  {
    assert PcOk(d.c, d.c.pc[t]);
  }

  lemma LoadedHarmless<D>(d: SharedCache<D>, t: Tid, x: Sector, k: nat, y: Sector)
    requires CacheInv(d) && InUse(d, t, x, k) && d.stage[t].Load? && x != y
    ensures Harmless(d, Loaded(d, t, x, k), t, k, y)
  {
    assert PcOk(d.c, d.c.pc[t]);
    OthersStay(d, Loaded(d, t, x, k), t, k, y);
  }

  lemma StoredHarmless<D>(d: SharedCache<D>, t: Tid, x: Sector, k: nat, y: Sector)
    requires CacheInv(d) && InUse(d, t, x, k) && Stores(d, t) && d.put[t].Some? && x != y
    ensures Harmless(d, Stored(d, t, x, k), t, k, y)
  {
    assert PcOk(d.c, d.c.pc[t]);
    OthersStay(d, Stored(d, t, x, k), t, k, y);
  }

  lemma UsedHarmless<D>(d: SharedCache<D>, a: Action<D>, y: Sector) returns (k: nat)
    requires CacheInv(d) && Possible(d, a) && a.Work? && d.c.pc[a.t].Using?
    requires !Loads(d, a, y) && !StoresTo(d, a, y) && !WritesBack(d, a, y) && CacheInv(Used(d, a.t, a.sees))
    ensures |Used(d, a.t, a.sees).stage| == |d.stage| && Harmless(d, Used(d, a.t, a.sees), a.t, k, y)
  {
    var t := a.t;
    assert PcOk(d.c, d.c.pc[t]) && StageOk(d, t);
    k := d.c.pc[t].k;
    if d.stage[t].Out? {
      k := CACHE_SIZE;
      MovedHarmless(d, t, a.sees, Out, y);
    } else if d.stage[t].Back? {
      WroteBackHarmless(d, t, y);
    } else if d.stage[t].Load? {
      LoadedHarmless(d, t, d.c.pc[t].sector, k, y);
    } else if Stores(d, t) {
      StoredHarmless(d, t, d.c.pc[t].sector, k, y);
    } else {
      k := CACHE_SIZE;
      Unaffected(d, d.(stage := d.stage[t := Out]), t, y);
    }
  }

  lemma WorkHarmless<D>(d: SharedCache<D>, a: Action<D>, y: Sector) returns (k: nat)
    requires CacheInv(d) && Possible(d, a) && a.Work? && !d.c.pc[a.t].Using? && CacheInv(Act(d, a))
    ensures |Act(d, a).stage| == |d.stage| && Harmless(d, Act(d, a), a.t, k, y)
  {
    var t, sees, pc, st := a.t, a.sees, d.c.pc[a.t], d.stage[a.t];
    assert PcOk(d.c, pc);
    k := CACHE_SIZE;
    if pc.Searching? {
      if pc.i == pc.size < CACHE_SIZE {
        k := pc.size;
        FilledHarmless(d, t, sees, y);
      } else {
        MovedHarmless(d, t, sees, if pc.i < pc.size && d.c.tags[pc.i] == pc.sector then Copy else st, y);
      }
    } else if pc.Handing? && pc.evict {
      k := pc.k;
      DroppedKeeps(d, t, sees);
      DroppedHarmless(d, t, sees, y);
    } else if pc.FlushUsing? {
      k := pc.i;
      FlushedKeeps(d, t, sees);
      FlushedHarmless(d, t, sees, y);
    } else {
      MovedHarmless(d, t, sees, st, y);
    }
  }

  /** Only loads of a sector, stores to it and late write-backs of it matter to it. */
  lemma ActHarmless<D>(d: SharedCache<D>, a: Action<D>, y: Sector) returns (k: nat)
    requires CacheInv(d) && Possible(d, a) && CacheInv(Act(d, a))
    requires !Loads(d, a, y) && !StoresTo(d, a, y) && !WritesBack(d, a, y)
    ensures |Act(d, a).stage| == |d.stage| && Harmless(d, Act(d, a), a.t, k, y)
  {
    if a.Call? {
      k := CACHE_SIZE;
      NoSlotNoStage(d, a.t);
      Unaffected(d, Act(d, a), a.t, y);
    } else if d.c.pc[a.t].Using? {
      k := UsedHarmless(d, a, y);
    } else {
      k := WorkHarmless(d, a, y);
    }
  }

  // ----- the three kinds of steps that matter -----

  /** While a sector is safe, a load of it that misses the last write overtakes the thread that is about to write
      it back. */
  lemma StaleLoadOvertakes<D>(d: SharedCache<D>, t: Tid, x: Sector, k: nat)
    requires CacheInv(d) && InUse(d, t, x, k) && d.stage[t].Load? && Safe(d, x) && d.device(x) != d.last(x)
    ensures PendingLast(d, x)
  {
    assert StageOk(d, t);
    if HeldDirty(d, x) {
      var j: nat :| j < CACHE_SIZE && Holding(d, j, x) && d.dirty[j];
      OnlySlot(d, t, x, k, j);
    }
  }

  lemma LoadedSlots<D>(d: SharedCache<D>, t: Tid, x: Sector, k: nat)
    requires CacheInv(d) && InUse(d, t, x, k) && d.stage[t].Load?
    ensures SlotsLast(Loaded(d, t, x, k), x) <==> d.device(x) == d.last(x)
  {
    var e := Loaded(d, t, x, k);
    assert PcOk(d.c, d.c.pc[t]);
    assert Holding(e, k, x) && e.data[k] == d.device(x);
    forall j: nat | j < CACHE_SIZE && Holding(e, j, x) ensures j == k {}
  }

  /** A store makes its sector safe, whatever happened before. */
  lemma StoredSafe<D>(d: SharedCache<D>, t: Tid, x: Sector, k: nat)
    requires CacheInv(d) && InUse(d, t, x, k) && Stores(d, t) && d.put[t].Some?
    ensures Safe(Stored(d, t, x, k), x)
  {
    var e := Stored(d, t, x, k);
    assert PcOk(d.c, d.c.pc[t]);
    assert Holding(e, k, x) && e.dirty[k] && e.data[k] == e.last(x);
    forall j: nat | j < CACHE_SIZE && Holding(e, j, x) ensures j == k {}
  }

  lemma SamePending<D>(d: SharedCache<D>, e: SharedCache<D>, t: Tid, x: Sector)
    requires Sizes(d) && Sizes(e) && |e.stage| == |d.stage| && !PendingWith(d, t, x) && !PendingWith(e, t, x)
    requires forall u: Tid :: u < |d.stage| && u != t ==> (PendingWith(e, u, x) <==> PendingWith(d, u, x))
    ensures PendingLast(e, x) <==> PendingLast(d, x)
  {
    if PendingLast(d, x) {
      var u: Tid :| u < |d.stage| && PendingWith(d, u, x);
      assert PendingWith(e, u, x);
    }
    if PendingLast(e, x) {
      var u: Tid :| u < |e.stage| && PendingWith(e, u, x);
      assert PendingWith(d, u, x);
    }
  }

  /** A late write-back: the device gets the contents, and no slot changes. */
  lemma WroteBackEffect<D>(d: SharedCache<D>, t: Tid, x: Sector)
    requires CacheInv(d) && Pending(d, t, x)
    ensures var k := d.c.pc[t].k; var e := WroteBack(d, t, k, x);
      && e.device(x) == d.data[k] && e.last(x) == d.last(x)
      && (SlotsLast(e, x) <==> SlotsLast(d, x)) && (HeldDirty(e, x) <==> HeldDirty(d, x))
      && (d.data[k] != d.last(x) ==> (PendingLast(e, x) <==> PendingLast(d, x)))
  {
    var k := d.c.pc[t].k;
    var e := WroteBack(d, t, k, x);
    assert StageOk(d, t);
    OthersStay(d, e, t, k, x);
    assert !Holding(d, k, x) && !Holding(e, k, x) && !PendingWith(e, t, x);
    if HeldDirty(d, x) {
      var j: nat :| j < CACHE_SIZE && Holding(d, j, x) && d.dirty[j];
      assert Holding(e, j, x) && e.dirty[j];
    }
    if HeldDirty(e, x) {
      var j: nat :| j < CACHE_SIZE && Holding(e, j, x) && e.dirty[j];
      assert Holding(d, j, x) && d.dirty[j];
    }
    if d.data[k] != d.last(x) { SamePending(d, e, t, x); }
  }

  // ----- one step -----

  lemma LoadStep<D>(d: SharedCache<D>, a: Action<D>, x: Sector)
    requires CacheInv(d) && Possible(d, a) && Loads(d, a, x)
    ensures CacheInv(Act(d, a)) && (SlotsLast(Act(d, a), x) <==> d.device(x) == d.last(x))
    ensures Safe(d, x) ==> (Safe(Act(d, a), x) <==> !Breaks(d, a, x))
  {
    var t, k := a.t, d.c.pc[a.t].k;
    ActKeeps(d, a);
    assert PcOk(d.c, d.c.pc[t]) && StageOk(d, t) && Act(d, a) == Loaded(d, t, x, k);
    LoadedSlots(d, t, x, k);
    if Safe(d, x) && d.device(x) != d.last(x) { StaleLoadOvertakes(d, t, x, k); }
  }

  lemma StoreStep<D>(d: SharedCache<D>, a: Action<D>, x: Sector)
    requires CacheInv(d) && Possible(d, a) && StoresTo(d, a, x)
    ensures CacheInv(Act(d, a)) && Safe(Act(d, a), x) && !Loads(d, a, x) && !WritesBack(d, a, x)
  {
    var t, k := a.t, d.c.pc[a.t].k;
    ActKeeps(d, a);
    assert PcOk(d.c, d.c.pc[t]) && StageOk(d, t) && Act(d, a) == Stored(d, t, x, k);
    StoredSafe(d, t, x, k);
  }

  lemma WriteBackStep<D>(d: SharedCache<D>, a: Action<D>, x: Sector)
    requires CacheInv(d) && Possible(d, a) && WritesBack(d, a, x)
    ensures CacheInv(Act(d, a)) && (SlotsLast(Act(d, a), x) <==> SlotsLast(d, x)) && !Loads(d, a, x)
    ensures Safe(d, x) ==> (Safe(Act(d, a), x) <==> !Breaks(d, a, x))
  {
    ActKeeps(d, a);
    assert Act(d, a) == WroteBack(d, a.t, d.c.pc[a.t].k, x);
    WroteBackEffect(d, a.t, x);
  }

  /** A sector that is safe stays safe in a step exactly if the step does not break it. */
  lemma ActIff<D>(d: SharedCache<D>, a: Action<D>, x: Sector)
    requires CacheInv(d) && Possible(d, a) && Safe(d, x)
    ensures CacheInv(Act(d, a)) && (Safe(Act(d, a), x) <==> !Breaks(d, a, x))
  {
    if Loads(d, a, x) {
      LoadStep(d, a, x);
    } else if StoresTo(d, a, x) {
      StoreStep(d, a, x);
    } else if WritesBack(d, a, x) {
      WriteBackStep(d, a, x);
    } else {
      ActKeeps(d, a);
      var k := ActHarmless(d, a, x);
      HarmlessSafe(d, Act(d, a), a.t, k, x);
    }
  }

  /** Only a load of something else than the last write puts something else in the cache. */
  lemma SlotsIff<D>(d: SharedCache<D>, a: Action<D>, x: Sector)
    requires CacheInv(d) && Possible(d, a) && SlotsLast(d, x)
    ensures CacheInv(Act(d, a)) && (SlotsLast(Act(d, a), x) <==> !LoadsStale(d, a, x))
  {
    if Loads(d, a, x) {
      LoadStep(d, a, x);
    } else if StoresTo(d, a, x) {
      StoreStep(d, a, x);
    } else if WritesBack(d, a, x) {
      WriteBackStep(d, a, x);
    } else {
      ActKeeps(d, a);
      var k := ActHarmless(d, a, x);
      HarmlessSlots(d, Act(d, a), a.t, k, x);
    }
  }

  // ----- runs -----

  lemma StartsSafe<D>(d: SharedCache<D>, x: Sector)
    requires Starts(d)
    ensures CacheInv(d) && Safe(d, x)
  {
  }

  /** What starts out right, and goes wrong exactly where it is spoiled, is right throughout if never spoiled. */
  lemma {:induction false} RightIff(right: seq<bool>, spoiled: seq<bool>, n: nat)
    requires |right| == |spoiled| + 1 && n < |right| && right[0]
    requires forall i: nat :: i < |spoiled| && right[i] ==> (right[i + 1] <==> !spoiled[i])
    ensures (forall i: nat :: i <= n ==> right[i]) <==> (forall i: nat :: i < n ==> !spoiled[i])
  {
    if n > 0 {
      RightIff(right, spoiled, n - 1);
      if forall i: nat :: i <= n - 1 ==> right[i] {
        assert right[n - 1];
        assert right[n - 1 + 1] <==> !spoiled[n - 1];
      } else {
        var i: nat :| i <= n - 1 && !right[i];
        var j: nat :| j < n - 1 && spoiled[j];
      }
    }
  }

  ghost predicate SafeThroughout<D>(trace: seq<SharedCache<D>>, acts: seq<Action<D>>, x: Sector, n: nat)
    requires IsCacheRun(trace, acts) && n < |trace|
  {
    forall i: nat :: i <= n ==> Safe(trace[i], x)
  }

  ghost predicate NeverBroken<D>(trace: seq<SharedCache<D>>, acts: seq<Action<D>>, x: Sector, n: nat)
    requires IsCacheRun(trace, acts) && n < |trace|
  {
    forall i: nat :: i < n ==> !Breaks(trace[i], acts[i], x)
  }

  lemma SafeAt<D>(trace: seq<SharedCache<D>>, acts: seq<Action<D>>, x: Sector, i: nat)
    requires IsCacheRun(trace, acts) && i < |acts| && Safe(trace[i], x)
    ensures Safe(trace[i + 1], x) <==> !Breaks(trace[i], acts[i], x)
  {
    ActIff(trace[i], acts[i], x);
  }

  /** A sector is safe in all states of a run exactly if no step breaks it. */
  lemma RunIff<D>(trace: seq<SharedCache<D>>, acts: seq<Action<D>>, x: Sector, n: nat)
    requires IsCacheRun(trace, acts) && Starts(trace[0]) && n < |trace|
    ensures SafeThroughout(trace, acts, x, n) <==> NeverBroken(trace, acts, x, n)
  {
    var right := seq(|trace|, i requires 0 <= i < |trace| => Safe(trace[i], x));
    var spoiled := seq(|acts|, i requires 0 <= i < |acts| => Breaks(trace[i], acts[i], x));
    StartsSafe(trace[0], x);
    forall i: nat | i < |spoiled| && right[i] ensures right[i + 1] <==> !spoiled[i] { SafeAt(trace, acts, x, i); }
    RightIff(right, spoiled, n);
    if forall i: nat :: i <= n ==> right[i] {
      forall i: nat | i <= n ensures Safe(trace[i], x) { assert right[i]; }
      forall i: nat | i < n ensures !Breaks(trace[i], acts[i], x) { assert !spoiled[i]; }
    } else {
      var i: nat :| i <= n && !right[i];
      var j: nat :| j < n && spoiled[j];
      assert !Safe(trace[i], x) && Breaks(trace[j], acts[j], x);
    }
  }

  // ----- reads -----

  /** Thread `t` is about to copy sector `x` from slot `k` to its caller. */
  ghost predicate Reads<D>(d: SharedCache<D>, t: Tid, x: Sector, k: nat)
    requires Sizes(d)
  {
    InUse(d, t, x, k) && d.stage[t].Copy? && d.put[t].None?
  }

  /** No read of `x` up to state `n` returns anything but the last write. */
  ghost predicate ReadsLast<D>(trace: seq<SharedCache<D>>, acts: seq<Action<D>>, x: Sector, n: nat)
    requires IsCacheRun(trace, acts) && n < |trace|
  {
    forall i: nat, t: Tid, k: nat :: i <= n && Reads(trace[i], t, x, k) ==> trace[i].data[k] == trace[i].last(x)
  }

  ghost predicate NeverStale<D>(trace: seq<SharedCache<D>>, acts: seq<Action<D>>, x: Sector, n: nat)
    requires IsCacheRun(trace, acts) && n < |trace|
  {
    forall i: nat :: i < n ==> !LoadsStale(trace[i], acts[i], x)
  }

  lemma SlotsAt<D>(trace: seq<SharedCache<D>>, acts: seq<Action<D>>, x: Sector, i: nat)
    requires IsCacheRun(trace, acts) && i < |acts| && SlotsLast(trace[i], x)
    ensures SlotsLast(trace[i + 1], x) <==> !LoadsStale(trace[i], acts[i], x)
  {
    SlotsIff(trace[i], acts[i], x);
  }

  lemma SlotsThroughout<D>(trace: seq<SharedCache<D>>, acts: seq<Action<D>>, x: Sector, n: nat)
    requires IsCacheRun(trace, acts) && Starts(trace[0]) && n < |trace| && NeverStale(trace, acts, x, n)
    ensures forall i: nat :: i <= n ==> SlotsLast(trace[i], x)
  {
    var right := seq(|trace|, i requires 0 <= i < |trace| => SlotsLast(trace[i], x));
    var spoiled := seq(|acts|, i requires 0 <= i < |acts| => LoadsStale(trace[i], acts[i], x));
    StartsSafe(trace[0], x);
    forall i: nat | i < |spoiled| && right[i] ensures right[i + 1] <==> !spoiled[i] { SlotsAt(trace, acts, x, i); }
    assert forall i: nat :: i < n ==> !spoiled[i];
    RightIff(right, spoiled, n);
    forall i: nat | i <= n ensures SlotsLast(trace[i], x) { assert right[i]; }
  }

  lemma ReadIsSlot<D>(d: SharedCache<D>, t: Tid, x: Sector, k: nat)
    requires CacheInv(d) && Reads(d, t, x, k) && SlotsLast(d, x)
    ensures d.data[k] == d.last(x)
  {
    assert StageOk(d, t) && PcOk(d.c, d.c.pc[t]);
    assert Holding(d, k, x);
  }

  /** A thread that has loaded something else than the last write reads it next. */
  lemma StaleLoadIsRead<D>(d: SharedCache<D>, a: Action<D>, x: Sector)
    requires CacheInv(d) && Possible(d, a) && LoadsStale(d, a, x)
    ensures var e := Act(d, a); var k := d.c.pc[a.t].k;
      CacheInv(e) && Reads(e, a.t, x, k) && e.data[k] != e.last(x)
  {
    ActKeeps(d, a);
    assert PcOk(d.c, d.c.pc[a.t]) && StageOk(d, a.t);
    assert Act(d, a) == Loaded(d, a.t, x, d.c.pc[a.t].k);
  }

  /** In every run, all reads of a sector return its last write exactly if the device had the last write at every
      load of it. */
  lemma ReadsIff<D>(trace: seq<SharedCache<D>>, acts: seq<Action<D>>, x: Sector, n: nat)
    requires IsCacheRun(trace, acts) && Starts(trace[0]) && n < |trace|
    ensures ReadsLast(trace, acts, x, n) <==> NeverStale(trace, acts, x, n)
  {
    if NeverStale(trace, acts, x, n) {
      SlotsThroughout(trace, acts, x, n);
      forall i: nat, t: Tid, k: nat | i <= n && Reads(trace[i], t, x, k)
        ensures trace[i].data[k] == trace[i].last(x)
      {
        ReadIsSlot(trace[i], t, x, k);
      }
    } else {
      var i: nat :| i < n && LoadsStale(trace[i], acts[i], x);
      StaleLoadIsRead(trace[i], acts[i], x);
      assert i + 1 <= n && Reads(trace[i + 1], acts[i].t, x, trace[i].c.pc[acts[i].t].k);
    }
  }

  /** As long as no step has broken a sector, whatever the overlap, every read of it returns the last write. */
  lemma ReadsLastWrite<D>(trace: seq<SharedCache<D>>, acts: seq<Action<D>>, n: nat, t: Tid, x: Sector, k: nat)
    requires IsCacheRun(trace, acts) && Starts(trace[0]) && n < |trace| && NeverBroken(trace, acts, x, n)
    requires Reads(trace[n], t, x, k)
    ensures trace[n].data[k] == trace[n].last(x)
  {
    RunIff(trace, acts, x, n);
    assert Safe(trace[n], x);
    ReadIsSlot(trace[n], t, x, k);
  }

  // ----- calls that do not overlap -----

  /** At most one thread is in a call. */
  ghost predicate Alone<D>(d: SharedCache<D>, t: Tid) { forall u :: 0 <= u < |d.c.pc| && u != t ==> d.c.pc[u].Idle? }

  /** What is pending is the last write. */
  ghost predicate PendingRight<D>(d: SharedCache<D>, x: Sector)
    requires Sizes(d)
  {
    forall t: Tid :: t < |d.stage| && Pending(d, t, x) ==> PendingWith(d, t, x)
  }

  lemma AlonePending<D>(d: SharedCache<D>, t: Tid, u: Tid, x: Sector)
    requires CacheInv(d) && Alone(d, t) && u < |d.stage| && u != t
    ensures !Pending(d, u, x)
  {
  }

  /** A thread that is alone breaks nothing. */
  lemma AloneBreaksNothing<D>(d: SharedCache<D>, a: Action<D>, x: Sector)
    requires CacheInv(d) && Possible(d, a) && Alone(d, a.t) && PendingRight(d, x)
    ensures !Breaks(d, a, x)
  {
    forall u: Tid | u < |d.stage| && u != a.t ensures !PendingWith(d, u, x) { AlonePending(d, a.t, u, x); }
  }

  lemma OwnPending<D>(d: SharedCache<D>, a: Action<D>, x: Sector)
    requires CacheInv(d) && Possible(d, a) && SlotsLast(d, x) && CacheInv(Act(d, a)) && |Act(d, a).stage| == |d.stage|
    requires Pending(Act(d, a), a.t, x)
    ensures PendingWith(Act(d, a), a.t, x)
  {
    if a.Call? {
      NoSlotNoStage(d, a.t);
    } else {
      var pc := d.c.pc[a.t];
      assert PcOk(d.c, pc) && StageOk(d, a.t);
      if pc.Handing? && pc.evict {
        DroppedKeeps(d, a.t, a.sees);
        assert Holding(d, pc.k, d.c.tags[pc.k]);
      }
    }
  }

  lemma ActOthers<D>(d: SharedCache<D>, a: Action<D>)
    requires CacheInv(d) && Possible(d, a)
    ensures Sizes(Act(d, a)) && |Act(d, a).stage| == |d.stage|
    ensures forall u :: 0 <= u < |d.stage| && u != a.t ==> Act(d, a).stage[u] == d.stage[u]
  {
    ActKeeps(d, a);
    if a.Work? { assert PcOk(d.c, d.c.pc[a.t]); }
  }

  lemma AloneStep<D>(d: SharedCache<D>, a: Action<D>, x: Sector)
    requires CacheInv(d) && Possible(d, a) && Alone(d, a.t) && Safe(d, x) && PendingRight(d, x)
    ensures CacheInv(Act(d, a)) && Safe(Act(d, a), x) && PendingRight(Act(d, a), x)
  {
    AloneBreaksNothing(d, a, x);
    ActIff(d, a, x);
    var e := Act(d, a);
    ActOthers(d, a);
    forall u: Tid | u < |e.stage| && Pending(e, u, x) ensures PendingWith(e, u, x) {
      if u == a.t {
        OwnPending(d, a, x);
      } else {
        AlonePending(d, a.t, u, x);
        NoSlotNoStage(d, u);
      }
    }
  }

  /** When calls do not overlap, no step breaks any sector. */
  lemma {:induction false} SerialRun<D>(trace: seq<SharedCache<D>>, acts: seq<Action<D>>, x: Sector, n: nat)
    requires IsCacheRun(trace, acts) && Starts(trace[0]) && n < |trace|
    requires forall i :: 0 <= i < n ==> Alone(trace[i], acts[i].t)
    ensures Safe(trace[n], x) && PendingRight(trace[n], x)
  {
    if n == 0 {
      StartsSafe(trace[0], x);
    } else {
      SerialRun(trace, acts, x, n - 1);
      AloneStep(trace[n - 1], acts[n - 1], x);
    }
  }

  /** Then every read returns the last write. */
  lemma SerialReadsLastWrite<D>(trace: seq<SharedCache<D>>, acts: seq<Action<D>>, n: nat, t: Tid, x: Sector, k: nat)
    requires IsCacheRun(trace, acts) && Starts(trace[0]) && n < |trace|
    requires (forall i :: 0 <= i < n ==> Alone(trace[i], acts[i].t)) && Reads(trace[n], t, x, k)
    ensures trace[n].data[k] == trace[n].last(x)
  {
    SerialRun(trace, acts, x, n);
    ReadIsSlot(trace[n], t, x, k);
  }
}
