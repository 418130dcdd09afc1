/** What overlapping calls of the buffer cache do to the data, on top of the locking. An evicting thread drops
    the old tag of its slot before it has written the old data back. */
module CacheData {

  import opened Basics
  import opened BufferCache
  import opened CacheLocks

  datatype Request<D> = Read(x: Sector) | Write(x: Sector, v: D) | Flush

  /** What a thread still has to do with the slot it has found: nothing (more), write back the contents of the
      sector dropped from it, read the sector from the device, store the caller's bytes over the whole of it,
      or copy from or to contents that are the sector's. */
  datatype Stage = Out | Back(gone: Sector) | Load | Fresh | Copy

  /** `owed` names the thread that has to bring a slot the contents of its tag, `put` holds what a thread is to
      write, none if it reads, and `last` is what was written last to each sector. */
  datatype SharedCache<D> = SharedCache(
    c: State,
    data: seq<D>,
    dirty: seq<bool>,
    owed: seq<Option<Tid>>,
    device: Sector -> D,
    last: Sector -> D,
    put: seq<Option<D>>,
    stage: seq<Stage>)

  datatype Action<D> = Call(t: Tid, req: Request<D>) | Work(t: Tid, sees: bool)

  ghost function With<D>(f: Sector -> D, x: Sector, v: D): Sector -> D { (s: Sector) => if s == x then v else f(s) }

  /** The slot that a thread has found for its sector. */
  function SlotOf(pc: Pc): Option<nat> {
    match pc
    case Taking(_, k, evict) => if evict then None else Some(k)
    case Handing(_, k, evict) => if evict then None else Some(k)
    case Using(_, k) => Some(k)
    case _ => None
  }

  predicate Brings(st: Stage) { st.Back? || st.Load? || st.Fresh? }

  ghost predicate Sizes<D>(d: SharedCache<D>) {
    && |d.data| == |d.dirty| == |d.owed| == CACHE_SIZE
    && |d.put| == |d.stage| == |d.c.pc|
  }

  /** Where thread `t` is fits what it has to do. */
  ghost predicate StageOk<D>(d: SharedCache<D>, t: Tid)
    requires Sizes(d) && t < |d.stage|
  {
    var pc, slot := d.c.pc[t], SlotOf(d.c.pc[t]);
    match d.stage[t]
    case Out => true
    case Back(gone) => pc.Using? && gone != pc.sector && pc.k < CACHE_SIZE && d.owed[pc.k] == Some(t)
    case Load =>
      slot.Some? && slot.value < CACHE_SIZE && d.owed[slot.value] == Some(t) && !d.dirty[slot.value] && d.put[t].None?
    case Fresh => slot.Some? && slot.value < CACHE_SIZE && d.owed[slot.value] == Some(t) && d.put[t].Some?
    case Copy => slot.Some? && slot.value < CACHE_SIZE && (pc.Using? ==> d.owed[slot.value].None?)
  }

  /** A slot in use that lacks its contents is some thread's to fill. */
  ghost predicate OwedOk<D>(d: SharedCache<D>, k: nat)
    requires Sizes(d) && k < CACHE_SIZE
  {
    d.owed[k].Some? ==>
      && d.owed[k].value < |d.stage| && Brings(d.stage[d.owed[k].value])
      && SlotOf(d.c.pc[d.owed[k].value]) == Some(k)
  }

  ghost predicate CacheInv<D>(d: SharedCache<D>) {
    && Inv(d.c) && Sizes(d)
    && (forall t :: 0 <= t < |d.stage| ==> StageOk(d, t))
    && (forall k :: 0 <= k < |d.c.lru| ==> OwedOk(d, k))
  }

  // ----- steps -----

  function LockCall<D>(req: Request<D>): CacheLocks.Call {
    match req
    case Read(x) => Access(x)
    case Write(x, _) => Access(x)
    case Flush => FlushAll
  }

  /** A flush looks at a dirty bit without the slot's lock, so what it sees while another thread holds that
      lock is left open. */
  ghost predicate Possible<D>(d: SharedCache<D>, a: Action<D>)
    requires Sizes(d) && Shape(d.c)
  {
    match a
    case Call(t, req) => Enabled(d.c, Begin(t, LockCall(req)))
    case Work(t, sees) =>
      && Enabled(d.c, Go(t, sees))
      && (d.c.pc[t].Flushing? && d.c.pc[t].i < d.c.pc[t].size <= CACHE_SIZE && d.c.holder[d.c.pc[t].i].None? ==>
            sees == d.dirty[d.c.pc[t].i])
  }

  /** A step of the locking; what there is left to do becomes `st`. */
  ghost function Moved<D>(d: SharedCache<D>, t: Tid, sees: bool, st: Stage): SharedCache<D>
    requires CacheInv(d) && Enabled(d.c, Go(t, sees))
  {
    d.(c := Do(d.c, Go(t, sees)), stage := d.stage[t := st])
  }

  /** The search has missed and takes the next free slot `n`. */
  ghost function Filled<D>(d: SharedCache<D>, t: Tid, sees: bool, n: nat): SharedCache<D>
    requires CacheInv(d) && Enabled(d.c, Go(t, sees)) && n < CACHE_SIZE
  {
    Moved(d, t, sees, if d.put[t].None? then Load else Fresh)
      .(owed := d.owed[n := Some(t)], dirty := d.dirty[n := d.put[t].Some?])
  }

  /** The slot `k` of an eviction gets its new tag. */
  ghost function Dropped<D>(d: SharedCache<D>, t: Tid, sees: bool, k: nat): SharedCache<D>
    requires CacheInv(d) && Enabled(d.c, Go(t, sees)) && k < CACHE_SIZE
  {
    Moved(d, t, sees, Back(d.c.tags[k])).(owed := d.owed[k := Some(t)])
  }

  /** The contents of the dropped sector are written back if they are dirty. */
  ghost function WroteBack<D>(d: SharedCache<D>, t: Tid, k: nat, gone: Sector): SharedCache<D>
    requires Sizes(d) && t < |d.stage| && k < CACHE_SIZE
  {
    d.(device := if d.dirty[k] then With(d.device, gone, d.data[k]) else d.device,
       dirty := if d.put[t].None? then d.dirty[k := false] else d.dirty,
       stage := d.stage[t := if d.put[t].None? then Load else Fresh])
  }

  ghost function Loaded<D>(d: SharedCache<D>, t: Tid, x: Sector, k: nat): SharedCache<D>
    requires Sizes(d) && t < |d.stage| && k < CACHE_SIZE
  {
    d.(data := d.data[k := d.device(x)], owed := d.owed[k := None], stage := d.stage[t := Copy])
  }

  ghost function Stored<D>(d: SharedCache<D>, t: Tid, x: Sector, k: nat): SharedCache<D>
    requires Sizes(d) && t < |d.stage| && k < CACHE_SIZE && d.put[t].Some?
  {
    d.(data := d.data[k := d.put[t].value], dirty := d.dirty[k := true], owed := d.owed[k := None],
       last := With(d.last, x, d.put[t].value), stage := d.stage[t := Out])
  }

  ghost function Flushed<D>(d: SharedCache<D>, t: Tid, sees: bool, i: nat): SharedCache<D>
    requires CacheInv(d) && Enabled(d.c, Go(t, sees)) && i < CACHE_SIZE
  {
    Moved(d, t, sees, d.stage[t]).(device := With(d.device, d.c.tags[i], d.data[i]), dirty := d.dirty[i := false])
  }

  /** Thread `t` stores the caller's bytes in its next step. */
  ghost predicate Stores<D>(d: SharedCache<D>, t: Tid)
    requires Sizes(d) && t < |d.stage|
  {
    d.stage[t].Fresh? || (d.stage[t].Copy? && d.put[t].Some?)
  }

  ghost function Used<D>(d: SharedCache<D>, t: Tid, sees: bool): SharedCache<D>
    requires CacheInv(d) && Enabled(d.c, Go(t, sees)) && d.c.pc[t].Using?
  {
    assert PcOk(d.c, d.c.pc[t]) && StageOk(d, t);
    var x, k := d.c.pc[t].sector, d.c.pc[t].k;
    match d.stage[t]
    case Out => Moved(d, t, sees, Out)
    case Back(gone) => WroteBack(d, t, k, gone)
    case Load => Loaded(d, t, x, k)
    case Fresh => Stored(d, t, x, k)
    case Copy => if d.put[t].Some? then Stored(d, t, x, k) else d.(stage := d.stage[t := Out])
  }

  ghost function Act<D>(d: SharedCache<D>, a: Action<D>): SharedCache<D>
    requires CacheInv(d) && Possible(d, a)
  {
    match a
    case Call(t, req) =>
      d.(c := Do(d.c, Begin(t, LockCall(req))), put := d.put[t := if req.Write? then Some(req.v) else None])
    case Work(t, sees) =>
      assert PcOk(d.c, d.c.pc[t]);
      match d.c.pc[t]
      case Searching(x, i, n) =>
        if i < n then Moved(d, t, sees, if d.c.tags[i] == x then Copy else d.stage[t])
        else if n < CACHE_SIZE then Filled(d, t, sees, n)
        else Moved(d, t, sees, d.stage[t])
      case Handing(x, k, evict) => if evict then Dropped(d, t, sees, k) else Moved(d, t, sees, d.stage[t])
      case Using(x, k) => Used(d, t, sees)
      case FlushUsing(i, n) => Flushed(d, t, sees, i)
      case _ => Moved(d, t, sees, d.stage[t])
  }

  /** Every step takes one step of the locking or none. */
  lemma ActLocks<D>(d: SharedCache<D>, a: Action<D>)
    requires CacheInv(d) && Possible(d, a)
    ensures var c' := Act(d, a).c;
      c' == d.c ||
      (a.Work? && c' == Do(d.c, Go(a.t, a.sees))) ||
      (a.Call? && c' == Do(d.c, Begin(a.t, LockCall(a.req))))
  {
    if a.Work? { assert PcOk(d.c, d.c.pc[a.t]); }
  }

  // ----- every step keeps the invariant -----

  /** Whoever else has to bring a slot its contents is using it, or holds LRU_lock. */
  lemma BringerHolds<D>(d: SharedCache<D>, u: Tid, k: nat)
    requires u < |d.c.pc| && SlotOf(d.c.pc[u]) == Some(k)
    ensures HoldsLru(d.c.pc[u]) || HoldsSlot(d.c.pc[u], k)
  {
  }

  /** A slot whose lock and LRU_lock a thread holds has its contents, unless they are the thread's to bring. */
  lemma HeldIsFilled<D>(d: SharedCache<D>, t: Tid, k: nat)
    requires CacheInv(d) && t < |d.c.pc| && k < |d.c.lru| && HoldsLru(d.c.pc[t]) && HoldsSlot(d.c.pc[t], k)
    ensures d.owed[k].None? || d.owed[k] == Some(t)
  {
    assert OwedOk(d, k) && LruOk(d.c, t) && SlotOk(d.c, t, k);
    if d.owed[k].Some? {
      var u := d.owed[k].value;
      BringerHolds(d, u, k);
      assert LruOk(d.c, u) && SlotOk(d.c, u, k);
    }
  }

  /** A thread that may change a slot: it uses it, or holds its lock and LRU_lock, or fills it anew. */
  ghost predicate MayChange<D>(d: SharedCache<D>, t: Tid, k: nat)
    requires Sizes(d) && t < |d.stage|
  {
    || (d.c.pc[t].Using? && d.c.pc[t].k == k && !d.stage[t].Out?)
    || (HoldsLru(d.c.pc[t]) && HoldsSlot(d.c.pc[t], k))
    || (HoldsLru(d.c.pc[t]) && k >= |d.c.lru|)
  }

  /** Thread `u` has something left to do that depends on slot `k`. */
  ghost predicate Busy<D>(d: SharedCache<D>, u: Tid, k: nat)
    requires Sizes(d) && u < |d.stage|
  {
    SlotOf(d.c.pc[u]) == Some(k) && !d.stage[u].Out? && (d.stage[u].Copy? ==> d.c.pc[u].Using?)
  }

  /** No slot that one thread may change matters to another. */
  lemma ChangesApart<D>(d: SharedCache<D>, t: Tid, u: Tid, k: nat)
    requires CacheInv(d) && t < |d.c.pc| && u < |d.c.pc| && t != u && k < CACHE_SIZE && MayChange(d, t, k)
    ensures !Busy(d, u, k)
  {
    assert StageOk(d, t) && StageOk(d, u) && PcOk(d.c, d.c.pc[u]) && PcOk(d.c, d.c.pc[t]);
    assert LruOk(d.c, t) && LruOk(d.c, u) && SlotOk(d.c, t, k) && SlotOk(d.c, u, k);
  }

  /** `e` differs from `d` in what concerns thread `t`, and in slot `k`. */
  ghost predicate ChangedBy<D>(d: SharedCache<D>, e: SharedCache<D>, t: Tid, k: nat) {
    && Sizes(d) && Sizes(e) && |e.stage| == |d.stage|
    && (forall u :: 0 <= u < |d.stage| && u != t ==>
          e.stage[u] == d.stage[u] && e.c.pc[u] == d.c.pc[u] && e.put[u] == d.put[u])
    && (forall j :: 0 <= j < CACHE_SIZE && j != k ==> e.owed[j] == d.owed[j] && e.dirty[j] == d.dirty[j])
  }

  lemma OtherStage<D>(d: SharedCache<D>, e: SharedCache<D>, t: Tid, k: nat, u: Tid)
    requires CacheInv(d) && t < |d.c.pc| && u < |d.c.pc| && t != u && ChangedBy(d, e, t, k)
    requires k < CACHE_SIZE ==> MayChange(d, t, k)
    ensures StageOk(e, u)
  {
    assert StageOk(d, u);
    if k < CACHE_SIZE { ChangesApart(d, t, u, k); }
  }

  /** What the thread itself must show for the invariant to hold again. */
  ghost predicate OwnOk<D>(d: SharedCache<D>, e: SharedCache<D>, t: Tid, k: nat)
    requires Sizes(d) && Sizes(e) && t < |d.stage| == |e.stage|
  {
    && StageOk(e, t)
    && (Brings(d.stage[t]) && SlotOf(d.c.pc[t]) != Some(k) ==>
          Brings(e.stage[t]) && SlotOf(e.c.pc[t]) == SlotOf(d.c.pc[t]))
    && (k < CACHE_SIZE ==> OwedOk(e, k))
  }

  lemma OtherOwed<D>(d: SharedCache<D>, e: SharedCache<D>, t: Tid, k: nat, j: nat)
    requires CacheInv(d) && t < |d.c.pc| && ChangedBy(d, e, t, k) && OwnOk(d, e, t, k)
    requires j < |d.c.lru| && j != k
    ensures OwedOk(e, j)
  {
    assert OwedOk(d, j);
  }

  lemma Restored<D>(d: SharedCache<D>, e: SharedCache<D>, t: Tid, k: nat)
    requires CacheInv(d) && t < |d.c.pc| && Inv(e.c) && ChangedBy(d, e, t, k) && OwnOk(d, e, t, k)
    requires k < CACHE_SIZE ==> MayChange(d, t, k)
    requires |e.c.lru| == |d.c.lru| || (k == |d.c.lru| && |e.c.lru| == k + 1)
    ensures CacheInv(e)
  {
    forall u | 0 <= u < |e.stage| ensures StageOk(e, u) {
      if u != t { OtherStage(d, e, t, k, u); }
    }
    forall j | 0 <= j < |e.c.lru| ensures OwedOk(e, j) {
      if j != k { OtherOwed(d, e, t, k, j); }
    }
  }

  /** A step of the locking that neither fills a slot nor gives one another tag. */
  ghost predicate Plain(c: State, t: Tid) {
    t < |c.pc| && !(c.pc[t].Handing? && c.pc[t].evict) &&
    !(c.pc[t].Searching? && c.pc[t].i >= |c.lru| && |c.lru| < CACHE_SIZE)
  }

  lemma PlainStep(c: State, t: Tid, sees: bool)
    requires Inv(c) && Enabled(c, Go(t, sees)) && Plain(c, t)
    ensures var c' := Do(c, Go(t, sees));
      |c'.pc| == |c.pc| && |c'.lru| == |c.lru| && c'.tags == c.tags && c'.pc == c.pc[t := c'.pc[t]]
  {
    assert PcOk(c, c.pc[t]);
    if c.pc[t].Searching? && c.pc[t].i < |c.lru| {
      TouchPermutes(c.lru, c.pc[t].i);
      assert c.pc[t].i in c.lru;
    }
  }

  /** A thread that has not found a slot has nothing to do with one. */
  lemma NoSlotNoStage<D>(d: SharedCache<D>, t: Tid)
    requires CacheInv(d) && t < |d.stage| && SlotOf(d.c.pc[t]).None?
    ensures d.stage[t].Out?
  {
    assert StageOk(d, t);
  }

  lemma MovedOwn<D>(d: SharedCache<D>, t: Tid, sees: bool, st: Stage)
    requires CacheInv(d) && Enabled(d.c, Go(t, sees)) && Plain(d.c, t) && |Do(d.c, Go(t, sees)).pc| == |d.c.pc|
    requires st == d.stage[t] || (st.Copy? && d.c.pc[t].Searching? && Do(d.c, Go(t, sees)).pc[t].Taking?
                                  && !Do(d.c, Go(t, sees)).pc[t].evict && d.c.pc[t].i < |d.c.lru|)
    requires d.c.pc[t].Using? ==> d.stage[t].Out?
    ensures OwnOk(d, Moved(d, t, sees, st), t, CACHE_SIZE)
  {
    assert StageOk(d, t) && PcOk(d.c, d.c.pc[t]);
    if SlotOf(d.c.pc[t]).None? { NoSlotNoStage(d, t); }
    if d.c.pc[t].Handing? && d.stage[t].Copy? {
      HeldIsFilled(d, t, d.c.pc[t].k);
      assert OwedOk(d, d.c.pc[t].k);
    }
  }

  lemma MovedKeeps<D>(d: SharedCache<D>, t: Tid, sees: bool, st: Stage)
    requires CacheInv(d) && Enabled(d.c, Go(t, sees)) && Plain(d.c, t) && |Do(d.c, Go(t, sees)).pc| == |d.c.pc|
    requires st == d.stage[t] || (st.Copy? && d.c.pc[t].Searching? && Do(d.c, Go(t, sees)).pc[t].Taking?
                                  && !Do(d.c, Go(t, sees)).pc[t].evict && d.c.pc[t].i < |d.c.lru|)
    requires d.c.pc[t].Using? ==> d.stage[t].Out?
    ensures CacheInv(Moved(d, t, sees, st))
  {
    var e := Moved(d, t, sees, st);
    StepKeeps(d.c, Go(t, sees));
    PlainStep(d.c, t, sees);
    MovedOwn(d, t, sees, st);
    Restored(d, e, t, CACHE_SIZE);
  }

  lemma FilledKeeps<D>(d: SharedCache<D>, t: Tid, sees: bool)
    requires CacheInv(d) && Enabled(d.c, Go(t, sees)) && d.c.pc[t].Searching?
    requires d.c.pc[t].i == |d.c.lru| < CACHE_SIZE
    ensures CacheInv(Filled(d, t, sees, |d.c.lru|))
  {
    var n := |d.c.lru|;
    var e := Filled(d, t, sees, n);
    assert PcOk(d.c, d.c.pc[t]);
    StepKeeps(d.c, Go(t, sees));
    NoSlotNoStage(d, t);
    assert e.c.pc == d.c.pc[t := Taking(d.c.pc[t].sector, n, false)];
    Restored(d, e, t, n);
  }

  lemma DroppedKeeps<D>(d: SharedCache<D>, t: Tid, sees: bool)
    requires CacheInv(d) && Enabled(d.c, Go(t, sees)) && d.c.pc[t].Handing? && d.c.pc[t].evict
    requires d.c.pc[t].k < CACHE_SIZE
    ensures CacheInv(Dropped(d, t, sees, d.c.pc[t].k)) && d.owed[d.c.pc[t].k].None? && d.c.pc[t].k < |d.c.lru|
  {
    var x, k := d.c.pc[t].sector, d.c.pc[t].k;
    var e := Dropped(d, t, sees, k);
    assert PcOk(d.c, d.c.pc[t]);
    StepKeeps(d.c, Go(t, sees));
    NoSlotNoStage(d, t);
    HeldIsFilled(d, t, k);
    assert OwedOk(d, k);
    assert e.c.pc == d.c.pc[t := Using(x, k)] && e.c.lru == d.c.lru;
    Restored(d, e, t, k);
  }

  lemma WroteBackKeeps<D>(d: SharedCache<D>, t: Tid)
    requires CacheInv(d) && t < |d.stage| && d.c.pc[t].Using? && d.stage[t].Back? && d.c.pc[t].k < CACHE_SIZE
    ensures CacheInv(WroteBack(d, t, d.c.pc[t].k, d.stage[t].gone))
  {
    var k := d.c.pc[t].k;
    assert StageOk(d, t);
    Restored(d, WroteBack(d, t, k, d.stage[t].gone), t, k);
  }

  lemma LoadedKeeps<D>(d: SharedCache<D>, t: Tid)
    requires CacheInv(d) && t < |d.stage| && d.c.pc[t].Using? && d.stage[t].Load? && d.c.pc[t].k < CACHE_SIZE
    ensures CacheInv(Loaded(d, t, d.c.pc[t].sector, d.c.pc[t].k))
  {
    assert StageOk(d, t);
    Restored(d, Loaded(d, t, d.c.pc[t].sector, d.c.pc[t].k), t, d.c.pc[t].k);
  }

  lemma StoredKeeps<D>(d: SharedCache<D>, t: Tid)
    requires CacheInv(d) && t < |d.stage| && d.c.pc[t].Using? && Stores(d, t) && d.put[t].Some?
    requires d.c.pc[t].k < CACHE_SIZE
    ensures CacheInv(Stored(d, t, d.c.pc[t].sector, d.c.pc[t].k))
  {
    assert StageOk(d, t);
    Restored(d, Stored(d, t, d.c.pc[t].sector, d.c.pc[t].k), t, d.c.pc[t].k);
  }

  lemma FlushedKeeps<D>(d: SharedCache<D>, t: Tid, sees: bool)
    requires CacheInv(d) && Enabled(d.c, Go(t, sees)) && d.c.pc[t].FlushUsing? && d.c.pc[t].i < CACHE_SIZE
    ensures CacheInv(Flushed(d, t, sees, d.c.pc[t].i)) && d.owed[d.c.pc[t].i].None? && d.c.pc[t].i < |d.c.lru|
  {
    var i := d.c.pc[t].i;
    var e := Flushed(d, t, sees, i);
    assert PcOk(d.c, d.c.pc[t]);
    StepKeeps(d.c, Go(t, sees));
    PlainStep(d.c, t, sees);
    NoSlotNoStage(d, t);
    HeldIsFilled(d, t, i);
    assert OwedOk(d, i);
    Restored(d, e, t, i);
  }

  lemma CalledKeeps<D>(d: SharedCache<D>, a: Action<D>)
    requires CacheInv(d) && Possible(d, a) && a.Call?
    ensures CacheInv(Act(d, a))
  {
    StepKeeps(d.c, Begin(a.t, LockCall(a.req)));
    NoSlotNoStage(d, a.t);
    Restored(d, Act(d, a), a.t, CACHE_SIZE);
  }

  lemma ReadOutKeeps<D>(d: SharedCache<D>, t: Tid)
    requires CacheInv(d) && t < |d.stage| && d.c.pc[t].Using? && d.stage[t].Copy?
    ensures CacheInv(d.(stage := d.stage[t := Out]))
  {
    assert StageOk(d, t);
    Restored(d, d.(stage := d.stage[t := Out]), t, CACHE_SIZE);
  }

  lemma UsedKeeps<D>(d: SharedCache<D>, t: Tid, sees: bool)
    requires CacheInv(d) && Enabled(d.c, Go(t, sees)) && d.c.pc[t].Using?
    ensures CacheInv(Used(d, t, sees))
  {
    assert PcOk(d.c, d.c.pc[t]) && StageOk(d, t);
    match d.stage[t]
    case Out => MovedKeeps(d, t, sees, Out);
    case Back(_) => WroteBackKeeps(d, t);
    case Load => LoadedKeeps(d, t);
    case Fresh => StoredKeeps(d, t);
    case Copy => if d.put[t].Some? { StoredKeeps(d, t); } else { ReadOutKeeps(d, t); }
  }

  lemma WorkKeeps<D>(d: SharedCache<D>, a: Action<D>)
    requires CacheInv(d) && Possible(d, a) && a.Work?
    ensures CacheInv(Act(d, a))
  {
    var t, sees, pc, st := a.t, a.sees, d.c.pc[a.t], d.stage[a.t];
    assert PcOk(d.c, pc);
    if pc.Searching? {
      if pc.i == pc.size < CACHE_SIZE {
        FilledKeeps(d, t, sees);
      } else {
        MovedKeeps(d, t, sees, if pc.i < pc.size && d.c.tags[pc.i] == pc.sector then Copy else st);
      }
    } else if pc.Handing? && pc.evict {
      DroppedKeeps(d, t, sees);
    } else if pc.Using? {
      UsedKeeps(d, t, sees);
    } else if pc.FlushUsing? {
      FlushedKeeps(d, t, sees);
    } else {
      MovedKeeps(d, t, sees, st);
    }
  }

  /** Every step keeps the invariant, races or not. */
  lemma ActKeeps<D>(d: SharedCache<D>, a: Action<D>)
    requires CacheInv(d) && Possible(d, a)
    ensures CacheInv(Act(d, a))
  {
    if a.Call? { CalledKeeps(d, a); } else { WorkKeeps(d, a); }
  }

  // ----- runs -----

  /** The invariant, which every step keeps, is what the steps are defined on. */
  ghost predicate IsCacheRun<D>(trace: seq<SharedCache<D>>, acts: seq<Action<D>>) {
    && |trace| == |acts| + 1
    && (forall i :: 0 <= i < |trace| ==> CacheInv(trace[i]))
    && forall i :: 0 <= i < |acts| ==> Possible(trace[i], acts[i]) && trace[i + 1] == Act(trace[i], acts[i])
  }

  /** As cache_init leaves it, with what the device holds as the last contents of every sector. */
  ghost predicate Starts<D>(d: SharedCache<D>) {
    && Initial(d.c) && Sizes(d) && d.last == d.device
    && forall t :: 0 <= t < |d.stage| ==> d.stage[t].Out?
  }

  /** As far as the locks go, a run up to state `n` is one of the runs of the locking. */
  lemma {:induction false} RunIsLockRun<D>(trace: seq<SharedCache<D>>, acts: seq<Action<D>>, n: nat)
    returns (steps: seq<Step>)
    requires IsCacheRun(trace, acts) && n < |trace|
    ensures IsRun(trace[0].c, steps) && After(trace[0].c, steps) == trace[n].c
  {
    if n == 0 {
      steps := [];
    } else {
      var d, a := trace[n - 1], acts[n - 1];
      steps := RunIsLockRun(trace, acts, n - 1);
      ActLocks(d, a);
      if trace[n].c != d.c {
        var step := if a.Work? then Go(a.t, a.sees) else Begin(a.t, LockCall(a.req));
        RunNext(trace[0].c, steps, step);
        steps := steps + [step];
      }
    }
  }

  /** So no sector is cached twice, whoever is doing what, and no chain of waiting threads is a cycle. */
  lemma RunIsCoherent<D>(trace: seq<SharedCache<D>>, acts: seq<Action<D>>, n: nat, chain: seq<Tid>)
    requires IsCacheRun(trace, acts) && Starts(trace[0]) && n < |trace|
    requires WaitChain(trace[n].c, chain) && |chain| >= 2
    ensures TagsDistinct(trace[n].c) && |chain| <= 3 && chain[0] != chain[|chain| - 1]
  {
    var steps := RunIsLockRun(trace, acts, n);
    NoWaitCycle(trace[0].c, steps, chain);
  }

  // ----- every call ends -----

  /** The steps left with the contents of the slot. */
  function StageLeft(st: Stage): nat {
    match st
    case Out => 0
    case Back(_) => 3
    case Load => 2
    case Fresh => 1
    case Copy => 1
  }

  function TotalStages(sts: seq<Stage>): nat {
    if sts == [] then 0 else StageLeft(sts[0]) + TotalStages(sts[1..])
  }

  lemma {:induction false} StagesAfterPut(sts: seq<Stage>, t: nat, st: Stage)
    requires t < |sts|
    ensures TotalStages(sts[t := st]) == TotalStages(sts) - StageLeft(sts[t]) + StageLeft(st)
  {
    if t > 0 {
      assert sts[t := st][1..] == sts[1..][t - 1 := st];
      StagesAfterPut(sts[1..], t - 1, st);
    } else {
      assert sts[t := st][1..] == sts[1..];
    }
  }

  /** A step of the locking may add up to three steps on the contents. */
  ghost function WorkLeft<D>(d: SharedCache<D>): int { 4 * TotalLeft(d.c.pc) + TotalStages(d.stage) }

  lemma MovedGetsOn<D>(d: SharedCache<D>, t: Tid, sees: bool, e: SharedCache<D>)
    requires CacheInv(d) && Enabled(d.c, Go(t, sees)) && e.c == Do(d.c, Go(t, sees))
    requires t < |e.stage| && e.stage == d.stage[t := e.stage[t]]
    requires StageLeft(e.stage[t]) <= StageLeft(d.stage[t]) + 3
    ensures WorkLeft(e) < WorkLeft(d)
  {
    GoGetsOn(d.c, t, sees);
    StagesAfterPut(d.stage, t, e.stage[t]);
  }

  lemma UsedGetsOn<D>(d: SharedCache<D>, t: Tid, sees: bool)
    requires CacheInv(d) && Enabled(d.c, Go(t, sees)) && d.c.pc[t].Using?
    ensures WorkLeft(Used(d, t, sees)) < WorkLeft(d)
  {
    assert PcOk(d.c, d.c.pc[t]) && StageOk(d, t);
    var e := Used(d, t, sees);
    if d.stage[t].Out? {
      MovedGetsOn(d, t, sees, e);
    } else {
      StagesAfterPut(d.stage, t, e.stage[t]);
    }
  }

  lemma WorkGetsOn<D>(d: SharedCache<D>, a: Action<D>)
    requires CacheInv(d) && Possible(d, a) && a.Work?
    ensures WorkLeft(Act(d, a)) < WorkLeft(d)
  {
    assert PcOk(d.c, d.c.pc[a.t]) && StageOk(d, a.t);
    if d.c.pc[a.t].Using? { UsedGetsOn(d, a.t, a.sees); } else { MovedGetsOn(d, a.t, a.sees, Act(d, a)); }
  }

  lemma WorkAt<D>(trace: seq<SharedCache<D>>, acts: seq<Action<D>>, i: nat)
    requires IsCacheRun(trace, acts) && i < |acts| && acts[i].Work?
    ensures WorkLeft(trace[i + 1]) < WorkLeft(trace[i])
  {
    WorkGetsOn(trace[i], acts[i]);
  }

  lemma {:induction false} GoesDown(left: seq<int>, n: nat)
    requires n < |left| && forall i: nat :: i + 1 < |left| ==> left[i + 1] < left[i]
    ensures n + left[n] <= left[0]
  {
    if n > 0 {
      GoesDown(left, n - 1);
      assert left[n - 1 + 1] < left[n - 1];
    }
  }

  lemma WorkRunsEnd<D>(trace: seq<SharedCache<D>>, acts: seq<Action<D>>, n: nat)
    requires IsCacheRun(trace, acts) && n < |trace| && forall i :: 0 <= i < |acts| ==> acts[i].Work?
    ensures n + WorkLeft(trace[n]) <= WorkLeft(trace[0])
  {
    var left := seq(|trace|, i requires 0 <= i < |trace| => WorkLeft(trace[i]));
    forall i: nat | i + 1 < |left| ensures left[i + 1] < left[i] { WorkAt(trace, acts, i); }
    GoesDown(left, n);
  }

  lemma WorkNonNegative<D>(d: SharedCache<D>)
    requires CacheInv(d)
    ensures WorkLeft(d) >= 0
  {
    TotalNonNegative(d.c, 0);
    assert d.c.pc[0..] == d.c.pc;
  }

  /** Whoever can go on with the locking can go on here. */
  lemma SomeWork<D>(d: SharedCache<D>, t: Tid) returns (a: Action<D>)
    requires CacheInv(d) && t < |d.c.pc| && !d.c.pc[t].Idle?
    ensures a.Work? && Possible(d, a)
  {
    var u := Unblocked(d.c, t);
    var pc := d.c.pc[u];
    assert PcOk(d.c, pc);
    a := Work(u, if pc.Flushing? && pc.i < pc.size then d.dirty[pc.i] else false);
  }

  /** However the threads are interleaved, a run without new calls has at most the work left, and where it cannot
      be continued every thread is idle. */
  lemma EveryDataCallReturns<D>(trace: seq<SharedCache<D>>, acts: seq<Action<D>>)
    requires IsCacheRun(trace, acts) && forall i :: 0 <= i < |acts| ==> acts[i].Work?
    ensures |acts| <= WorkLeft(trace[0])
    ensures var d := trace[|acts|];
      (forall a: Action<D> :: a.Work? ==> !Possible(d, a)) ==> forall t :: 0 <= t < |d.c.pc| ==> d.c.pc[t].Idle?
  {
    var d := trace[|acts|];
    WorkRunsEnd(trace, acts, |acts|);
    WorkNonNegative(d);
    forall t | 0 <= t < |d.c.pc| && !d.c.pc[t].Idle? ensures exists a: Action<D> :: a.Work? && Possible(d, a) {
      var a := SomeWork(d, t);
    }
  }
}
