/** The write-back buffer cache, for calls that do not overlap: 64 blocks, a list of the slots in use
    from most to least recently used, and the block device underneath. */
module BufferCache {

  import opened Basics
  import opened Sequences

  const CACHE_SIZE: nat := 64

  datatype Block<D> = Block(tag: Sector, data: D, dirty: bool)

  // ----- the sectors as the callers see them -----

  ghost predicate DistinctTags<D>(bs: seq<Block<D>>) {
    forall i, j :: 0 <= i < j < |bs| ==> bs[i].tag != bs[j].tag
  }

  ghost predicate Cached<D>(bs: seq<Block<D>>, s: Sector) {
    exists i :: 0 <= i < |bs| && bs[i].tag == s
  }

  /** The contents of sector `s`: what its slot holds, or else what the device holds. */
  ghost function Contents<D>(bs: seq<Block<D>>, device: map<Sector, D>, s: Sector): D
    requires s in device
  {
    if Cached(bs, s) then
      var i :| 0 <= i < |bs| && bs[i].tag == s;
      bs[i].data
    else device[s]
  }

  lemma CachedContents<D>(bs: seq<Block<D>>, device: map<Sector, D>, i: nat)
    requires DistinctTags(bs) && i < |bs| && bs[i].tag in device
    ensures Contents(bs, device, bs[i].tag) == bs[i].data
  {
  }

  /** The plain array of sectors that the cache stands for. */
  ghost function Sectors<D>(bs: seq<Block<D>>, device: map<Sector, D>): map<Sector, D> {
    map s | s in device :: Contents(bs, device, s)
  }

  ghost predicate Fits<D>(b: Block<D>, device: map<Sector, D>) {
    b.tag in device && (!b.dirty ==> b.data == device[b.tag])
  }

  /** No sector is cached twice, every cached sector exists, and a clean block agrees with the device. */
  ghost predicate Coherent<D>(bs: seq<Block<D>>, device: map<Sector, D>) {
    && DistinctTags(bs)
    && forall i :: 0 <= i < |bs| ==> Fits(bs[i], device)
  }

  /** The device a slot's new contents may be stored over: only the sector the slot held may differ, and it
      holds that sector's contents if the slot is given to another one. */
  ghost predicate Released<D>(held: Block<D>, b: Block<D>, device: map<Sector, D>, device': map<Sector, D>) {
    && device'.Keys == device.Keys
    && (forall s :: s in device && s != held.tag ==> device'[s] == device[s])
    && (b.tag != held.tag && held.tag in device' ==> device'[held.tag] == held.data)
  }

  lemma StoreCoherent<D>(bs: seq<Block<D>>, device: map<Sector, D>, i: nat, b: Block<D>, device': map<Sector, D>)
    requires Coherent(bs, device) && i < |bs| && (b.tag == bs[i].tag || !Cached(bs, b.tag))
    requires Fits(b, device') && Released(bs[i], b, device, device')
    ensures Coherent(bs[i := b], device')
  {
    var bs' := bs[i := b];
    forall j | 0 <= j < |bs'| ensures Fits(bs'[j], device') {
      if j != i { assert Fits(bs[j], device) && bs[j].tag != bs[i].tag; }
    }
  }

  lemma StoreContents<D>(bs: seq<Block<D>>, device: map<Sector, D>, i: nat, b: Block<D>, device': map<Sector, D>,
                         s: Sector)
    requires DistinctTags(bs) && i < |bs| && DistinctTags(bs[i := b])
    requires Released(bs[i], b, device, device') && s in device
    ensures Contents(bs[i := b], device', s) == if s == b.tag then b.data else Contents(bs, device, s)
  {
    var bs' := bs[i := b];
    if s == b.tag {
      CachedContents(bs', device', i);
    } else if s == bs[i].tag {
      CachedContents(bs, device, i);
      assert !Cached(bs', s);
    } else if Cached(bs, s) {
      var k :| 0 <= k < |bs| && bs[k].tag == s;
      CachedContents(bs, device, k);
      CachedContents(bs', device', k);
    } else {
      assert !Cached(bs', s);
    }
  }

  /** Storing into a slot in use changes the sector stored and no other. */
  lemma Store<D>(bs: seq<Block<D>>, device: map<Sector, D>, i: nat, b: Block<D>, device': map<Sector, D>)
    requires Coherent(bs, device) && i < |bs| && (b.tag == bs[i].tag || !Cached(bs, b.tag))
    requires Fits(b, device') && Released(bs[i], b, device, device')
    ensures Coherent(bs[i := b], device')
    ensures Sectors(bs[i := b], device') == Sectors(bs, device)[b.tag := b.data]
  {
    StoreCoherent(bs, device, i, b, device');
    forall s | s in device
      ensures Contents(bs[i := b], device', s) == if s == b.tag then b.data else Contents(bs, device, s)
    {
      StoreContents(bs, device, i, b, device', s);
    }
  }

  lemma FillContents<D>(bs: seq<Block<D>>, device: map<Sector, D>, b: Block<D>, s: Sector)
    requires DistinctTags(bs + [b]) && s in device
    ensures Contents(bs + [b], device, s) == if s == b.tag then b.data else Contents(bs, device, s)
  {
    var bs' := bs + [b];
    assert forall k :: 0 <= k < |bs| ==> bs'[k] == bs[k];
    if s == b.tag {
      assert bs'[|bs|] == b;
      CachedContents(bs', device, |bs|);
    } else if Cached(bs, s) {
      var k :| 0 <= k < |bs| && bs[k].tag == s;
      CachedContents(bs, device, k);
      CachedContents(bs', device, k);
    } else {
      assert !Cached(bs', s);
    }
  }

  /** So does filling the next free slot. */
  lemma Fill<D>(bs: seq<Block<D>>, device: map<Sector, D>, b: Block<D>)
    requires Coherent(bs, device) && !Cached(bs, b.tag) && Fits(b, device)
    ensures Coherent(bs + [b], device)
    ensures Sectors(bs + [b], device) == Sectors(bs, device)[b.tag := b.data]
  {
    var bs' := bs + [b];
    forall s | s in device
      ensures Contents(bs', device, s) == if s == b.tag then b.data else Contents(bs, device, s)
    {
      FillContents(bs, device, b, s);
    }
  }

  lemma UncachedIsOnDevice<D>(bs: seq<Block<D>>, device: map<Sector, D>, s: Sector)
    requires s in device && !Cached(bs, s)
    ensures Sectors(bs, device)[s] == device[s]
    ensures Sectors(bs, device)[s := device[s]] == Sectors(bs, device)
  {
  }

  lemma HitContents<D>(bs: seq<Block<D>>, device: map<Sector, D>, i: nat)
    requires Coherent(bs, device) && i < |bs|
    ensures Fits(bs[i], device) && Sectors(bs, device)[bs[i].tag] == bs[i].data
    ensures Sectors(bs, device)[bs[i].tag := bs[i].data] == Sectors(bs, device)
  {
    assert Fits(bs[i], device);
    CachedContents(bs, device, i);
  }

  /** Writing a block back changes no sector. */
  lemma WriteBack<D>(bs: seq<Block<D>>, device: map<Sector, D>, i: nat)
    requires Coherent(bs, device) && i < |bs|
    ensures Coherent(bs[i := bs[i].(dirty := false)], device[bs[i].tag := bs[i].data])
    ensures Sectors(bs[i := bs[i].(dirty := false)], device[bs[i].tag := bs[i].data]) == Sectors(bs, device)
  {
    HitContents(bs, device, i);
    Store(bs, device, i, bs[i].(dirty := false), device[bs[i].tag := bs[i].data]);
  }

  /** Once every block is clean the device itself is the array of sectors. */
  lemma AllClean<D>(bs: seq<Block<D>>, device: map<Sector, D>)
    requires Coherent(bs, device) && forall i :: 0 <= i < |bs| ==> !bs[i].dirty
    ensures device == Sectors(bs, device)
  {
    forall s | s in device ensures Contents(bs, device, s) == device[s] {
      if Cached(bs, s) {
        var k :| 0 <= k < |bs| && bs[k].tag == s;
        CachedContents(bs, device, k);
        assert Fits(bs[k], device);
      }
    }
  }

  // ----- which sectors are cached -----

  /** The first position of `x` in `s`, or the length of `s`. */
  function Position<T(==)>(s: seq<T>, x: T): (p: nat)
    ensures p <= |s|
    ensures p < |s| ==> s[p] == x
    ensures x !in s[..p]
  {
    if s == [] then 0
    else if s[0] == x then 0
    else
      var p := Position(s[1..], x);
      assert s[..p + 1] == [s[0]] + s[1..][..p];
      p + 1
  }

  /** `x` moves, or is added, to the front. */
  function Touch<T(==)>(s: seq<T>, x: T): (t: seq<T>)
    ensures |t| == if x in s then |s| else |s| + 1
  {
    var p := Position(s, x);
    [x] + s[..p] + if p < |s| then s[p + 1..] else []
  }

  /** The distinct sectors of a trace of accesses, most recently used first. */
  ghost function Recent(trace: seq<Sector>): seq<Sector> {
    if trace == [] then [] else Touch(Recent(trace[..|trace| - 1]), trace[|trace| - 1])
  }

  lemma TouchKeeps<T>(s: seq<T>, x: T)
    ensures forall y :: y in Touch(s, x) <==> y == x || y in s
  {
    var p := Position(s, x);
    var t := Touch(s, x);
    forall i | 0 <= i < |s| ensures s[i] in t {
      if i < p { assert t[i + 1] == s[i]; } else { assert t[if i == p then 0 else i] == s[i]; }
    }
  }

  lemma TouchDistinct<T>(s: seq<T>, x: T)
    requires Distinct(s)
    ensures Distinct(Touch(s, x))
  {
  }

  lemma {:induction false} RecentDistinct(trace: seq<Sector>)
    ensures Distinct(Recent(trace))
    ensures forall s :: s in Recent(trace) <==> s in trace
  {
    if trace != [] {
      var n := |trace| - 1;
      RecentDistinct(trace[..n]);
      TouchDistinct(Recent(trace[..n]), trace[n]);
      TouchKeeps(Recent(trace[..n]), trace[n]);
      assert trace == trace[..n] + [trace[n]];
    }
  }

  /** The sectors accessed after the last access to `s`. */
  ghost function UsedSince(trace: seq<Sector>, s: Sector): set<Sector>
    requires s in trace
  {
    var n := |trace| - 1;
    if trace[n] == s then {} else
    assert trace == trace[..n] + [trace[n]];
    UsedSince(trace[..n], s) + {trace[n]}
  }

  lemma PositionIs<T>(t: seq<T>, s: T, q: nat)
    requires q < |t| && t[q] == s && s !in t[..q]
    ensures Position(t, s) == q
  {
  }

  lemma FrontMoved<T>(r: seq<T>, p: nat, q: nat)
    requires p < q < |r|
    ensures var t := [r[p]] + r[..p] + r[p + 1..];
      |t| == |r| && t[..q] == [r[p]] + r[..p] + r[p + 1..q] && t[q] == r[q]
    ensures r[..q] == r[..p] + [r[p]] + r[p + 1..q]
  {
  }

  lemma SameSet<T>(x: T, front: seq<T>, mid: seq<T>)
    ensures ToSet([x] + front + mid) == ToSet(front + [x] + mid)
  {
  }

  lemma NotAmong<T>(s: T, x: T, front: seq<T>, mid: seq<T>)
    requires s !in front + [x] + mid
    ensures s !in [x] + front + mid
  {
    assert x in front + [x] + mid by { assert (front + [x] + mid)[|front|] == x; }
    SameSet(x, front, mid);
    assert s in [x] + front + mid <==> s in ToSet([x] + front + mid);
    assert s in front + [x] + mid <==> s in ToSet(front + [x] + mid);
  }

  lemma BehindIs<T>(r: seq<T>, x: T, s: T)
    requires s in r && s != x && Position(r, x) < Position(r, s)
    ensures var p, q, t := Position(r, x), Position(r, s), Touch(r, x);
      && Position(t, s) == q <= |t| && t[..q] == [x] + r[..p] + r[p + 1..q] && r[..q] == r[..p] + [x] + r[p + 1..q]
  {
    var p, q, t := Position(r, x), Position(r, s), Touch(r, x);
    FrontMoved(r, p, q);
    NotAmong(s, x, r[..p], r[p + 1..q]);
    PositionIs(t, s, q);
  }

  lemma TouchedBehind<T>(r: seq<T>, x: T, s: T)
    requires s in r && s != x && Position(r, x) < Position(r, s)
    ensures ToSet(Touch(r, x)[..Position(Touch(r, x), s)]) == ToSet(r[..Position(r, s)])
  {
    var p, q := Position(r, x), Position(r, s);
    BehindIs(r, x, s);
    SameSet(x, r[..p], r[p + 1..q]);
  }

  lemma TouchedAhead<T>(r: seq<T>, x: T, s: T)
    requires s in r && s != x && Position(r, x) > Position(r, s)
    ensures ToSet(Touch(r, x)[..Position(Touch(r, x), s)]) == ToSet(r[..Position(r, s)]) + {x}
  {
    var q, t := Position(r, s), Touch(r, x);
    assert t[..q + 1] == [x] + r[..q];
    PositionIs(t, s, q + 1);
  }

  lemma AheadOfTouch<T>(r: seq<T>, x: T, s: T)
    requires s in r && s != x
    ensures ToSet(Touch(r, x)[..Position(Touch(r, x), s)]) == ToSet(r[..Position(r, s)]) + {x}
  {
    var p, q := Position(r, x), Position(r, s);
    if p < q {
      TouchedBehind(r, x, s);
      assert r[..q][p] == x;
    } else {
      TouchedAhead(r, x, s);
    }
  }

  /** The sectors ahead of `s` in the order are those used since `s` was. */
  lemma {:induction false} AheadIsSince(trace: seq<Sector>, s: Sector)
    requires s in trace
    ensures s in Recent(trace)
    ensures ToSet(Recent(trace)[..Position(Recent(trace), s)]) == UsedSince(trace, s)
  {
    var n := |trace| - 1;
    RecentDistinct(trace);
    var r := Recent(trace);
    if trace[n] != s {
      assert trace == trace[..n] + [trace[n]];
      AheadIsSince(trace[..n], s);
      AheadOfTouch(Recent(trace[..n]), trace[n], s);
    } else {
      assert Position(r, s) == 0;
    }
  }

  /** The list of slots orders the cached tags as `r` does, and they are the first `cap` sectors of `r`. */
  ghost predicate Tracks<D>(bs: seq<Block<D>>, lru: seq<nat>, r: seq<Sector>, cap: nat) {
    && |lru| == |bs| == Least(cap, |r|)
    && (forall k :: 0 <= k < |lru| ==> lru[k] < |bs| && bs[lru[k]].tag == r[k])
    && (forall i :: 0 <= i < |bs| ==> i in lru)
  }

  lemma RecentAfter(trace: seq<Sector>, x: Sector)
    ensures Recent(trace + [x]) == Touch(Recent(trace), x)
  {
    assert (trace + [x])[..|trace|] == trace;
  }

  lemma TrackHit<D>(bs: seq<Block<D>>, lru: seq<nat>, r: seq<Sector>, cap: nat, i: nat, b: Block<D>)
    requires Distinct(r) && Tracks(bs, lru, r, cap) && i < |bs| && b.tag == bs[i].tag
    ensures Tracks(bs[i := b], Touch(lru, i), Touch(r, b.tag), cap)
  {
    var p := Position(lru, i);
    assert i in lru;
    PositionIs(r, b.tag, p);
    TouchKeeps(lru, i);
    var bs', lru', r' := bs[i := b], Touch(lru, i), Touch(r, b.tag);
    forall k | 0 <= k < |lru'| ensures lru'[k] < |bs'| && bs'[lru'[k]].tag == r'[k] {
      var j := if k == 0 then p else if k <= p then k - 1 else k;
      assert lru'[k] == lru[j] && r'[k] == r[j];
    }
  }

  lemma AbsentPosition<T>(s: seq<T>, x: T, n: nat)
    requires n <= |s| && forall k :: 0 <= k < n ==> s[k] != x
    ensures Position(s, x) >= n
  {
  }

  /** A sector that is not cached is not among the first of `r`, so touching it shifts those by one. */
  lemma UncachedNotRecent<D>(bs: seq<Block<D>>, lru: seq<nat>, r: seq<Sector>, cap: nat, x: Sector)
    requires Tracks(bs, lru, r, cap) && !Cached(bs, x)
    ensures |Touch(r, x)| >= |lru| && (|lru| < cap ==> |Touch(r, x)| == |lru| + 1)
    ensures forall k :: 0 <= k <= |lru| && k < |Touch(r, x)| ==> Touch(r, x)[k] == if k == 0 then x else r[k - 1]
  {
    forall k | 0 <= k < |lru| ensures r[k] != x {
      assert bs[lru[k]].tag == r[k];
    }
    AbsentPosition(r, x, |lru|);
  }

  lemma TrackFill<D>(bs: seq<Block<D>>, lru: seq<nat>, r: seq<Sector>, cap: nat, b: Block<D>)
    requires Tracks(bs, lru, r, cap) && |bs| < cap && !Cached(bs, b.tag)
    ensures Tracks(bs + [b], [|bs|] + lru, Touch(r, b.tag), cap)
  {
    UncachedNotRecent(bs, lru, r, cap, b.tag);
    var bs', lru', r' := bs + [b], [|bs|] + lru, Touch(r, b.tag);
    forall k | 0 <= k < |lru'| ensures lru'[k] < |bs'| && bs'[lru'[k]].tag == r'[k] {
      if k > 0 { assert lru'[k] == lru[k - 1]; }
    }
    forall j | 0 <= j < |bs'| ensures j in lru' {
      assert j < |bs| ==> j in lru;
      assert lru'[0] == |bs|;
    }
  }

  lemma TrackEvict<D>(bs: seq<Block<D>>, lru: seq<nat>, r: seq<Sector>, cap: nat, b: Block<D>)
    requires Distinct(r) && Tracks(bs, lru, r, cap) && |bs| == cap > 0 && !Cached(bs, b.tag)
    ensures lru[cap - 1] < |bs|
    ensures Tracks(bs[lru[cap - 1] := b], [lru[cap - 1]] + lru[..cap - 1], Touch(r, b.tag), cap)
  {
    var n := cap - 1;
    UncachedNotRecent(bs, lru, r, cap, b.tag);
    var bs', lru', r' := bs[lru[n] := b], [lru[n]] + lru[..n], Touch(r, b.tag);
    forall k | 0 <= k < |lru'| ensures lru'[k] < |bs'| && bs'[lru'[k]].tag == r'[k] {
      if k > 0 { assert lru'[k] == lru[k - 1] && r[k - 1] != r[n]; }
    }
    forall j | 0 <= j < |bs'| ensures j in lru' {
      assert j in lru;
      var k :| 0 <= k < |lru| && lru[k] == j;
      assert lru'[if k == n then 0 else k + 1] == j;
    }
  }

  lemma CachedAt<D>(bs: seq<Block<D>>, lru: seq<nat>, r: seq<Sector>, cap: nat, s: Sector)
    requires Distinct(r) && Tracks(bs, lru, r, cap)
    ensures Cached(bs, s) <==> s in r && Position(r, s) < cap
  {
    var p := Position(r, s);
    if s in r && p < cap {
      assert bs[lru[p]].tag == s;
    }
    if Cached(bs, s) {
      var i :| 0 <= i < |bs| && bs[i].tag == s;
      assert i in lru;
      var k :| 0 <= k < |lru| && lru[k] == i;
      assert r[k] == s;
    }
  }

  /** A sector is cached exactly when it has been accessed and fewer than `cap` other sectors have been
      accessed since. */
  lemma CachedIffRecent<D>(bs: seq<Block<D>>, lru: seq<nat>, trace: seq<Sector>, cap: nat, s: Sector)
    requires Tracks(bs, lru, Recent(trace), cap)
    ensures Cached(bs, s) <==> s in trace && |UsedSince(trace, s)| < cap
  {
    var r := Recent(trace);
    RecentDistinct(trace);
    CachedAt(bs, lru, r, cap, s);
    if s in trace {
      AheadIsSince(trace, s);
      DistinctSize(r[..Position(r, s)]);
    }
  }

  // ----- the cache -----

  /** What holds between calls of the blocks in use, the device, the list of slots and the accesses made. */
  ghost predicate Consistent<D>(bs: seq<Block<D>>, device: map<Sector, D>, lru: seq<nat>, trace: seq<Sector>) {
    Coherent(bs, device) && Tracks(bs, lru, Recent(trace), CACHE_SIZE)
  }

  lemma AfterHit<D>(bs: seq<Block<D>>, device: map<Sector, D>, lru: seq<nat>, trace: seq<Sector>, i: nat, b: Block<D>)
    requires Consistent(bs, device, lru, trace) && i < |bs| && b.tag == bs[i].tag && Fits(b, device)
    ensures i in lru && Consistent(bs[i := b], device, Touch(lru, i), trace + [b.tag])
    ensures Sectors(bs[i := b], device) == Sectors(bs, device)[b.tag := b.data]
  {
    Store(bs, device, i, b, device);
    RecentDistinct(trace);
    TrackHit(bs, lru, Recent(trace), CACHE_SIZE, i, b);
    RecentAfter(trace, b.tag);
  }

  lemma AfterFill<D>(bs: seq<Block<D>>, device: map<Sector, D>, lru: seq<nat>, trace: seq<Sector>, b: Block<D>)
    requires Consistent(bs, device, lru, trace) && |bs| < CACHE_SIZE && !Cached(bs, b.tag) && Fits(b, device)
    ensures Consistent(bs + [b], device, [|bs|] + lru, trace + [b.tag])
    ensures Sectors(bs + [b], device) == Sectors(bs, device)[b.tag := b.data]
  {
    Fill(bs, device, b);
    TrackFill(bs, lru, Recent(trace), CACHE_SIZE, b);
    RecentAfter(trace, b.tag);
  }

  lemma AfterEvict<D>(bs: seq<Block<D>>, device: map<Sector, D>, lru: seq<nat>, trace: seq<Sector>, v: nat, b: Block<D>)
    requires Consistent(bs, device, lru, trace) && |bs| == CACHE_SIZE && !Cached(bs, b.tag) && Fits(b, device)
    requires v == lru[CACHE_SIZE - 1] < |bs| && !bs[v].dirty
    ensures Consistent(bs[v := b], device, [v] + lru[..CACHE_SIZE - 1], trace + [b.tag])
    ensures Sectors(bs[v := b], device) == Sectors(bs, device)[b.tag := b.data]
  {
    assert Fits(bs[v], device);
    Store(bs, device, v, b, device);
    RecentDistinct(trace);
    TrackEvict(bs, lru, Recent(trace), CACHE_SIZE, b);
    RecentAfter(trace, b.tag);
  }

  lemma LeastRecentInUse<D>(bs: seq<Block<D>>, device: map<Sector, D>, lru: seq<nat>, trace: seq<Sector>)
    requires Consistent(bs, device, lru, trace) && |bs| == CACHE_SIZE
    ensures lru[CACHE_SIZE - 1] < |bs| && bs[lru[CACHE_SIZE - 1]].tag in device
  {
    assert Fits(bs[lru[CACHE_SIZE - 1]], device);
  }

  lemma TrackSame<D>(bs: seq<Block<D>>, lru: seq<nat>, r: seq<Sector>, cap: nat, bs': seq<Block<D>>)
    requires Tracks(bs, lru, r, cap) && |bs'| == |bs| && forall i :: 0 <= i < |bs| ==> bs'[i].tag == bs[i].tag
    ensures Tracks(bs', lru, r, cap)
  {
    forall k | 0 <= k < |lru| ensures bs'[lru[k]].tag == r[k] {
      assert bs[lru[k]].tag == r[k];
    }
  }

  lemma SameCached<D>(bs: seq<Block<D>>, i: nat, b: Block<D>)
    requires i < |bs| && b.tag == bs[i].tag
    ensures forall s :: Cached(bs[i := b], s) <==> Cached(bs, s)
  {
    forall s | Cached(bs, s) ensures Cached(bs[i := b], s) {
      var k :| 0 <= k < |bs| && bs[k].tag == s;
      assert bs[i := b][k].tag == s;
    }
  }

  // ----- when the device is written -----

  ghost predicate Dirty<D>(bs: seq<Block<D>>, s: Sector) {
    exists i :: 0 <= i < |bs| && bs[i].tag == s && bs[i].dirty
  }

  /** An access of `x` that turned `bs` into `bs'` has written to the device the sector it dropped, if that was dirty,
      and nothing else, and has made at most `x` dirty. */
  ghost predicate WritesBack<D>(bs: seq<Block<D>>, device: map<Sector, D>, x: Sector, stores: bool, bs': seq<Block<D>>,
                                device': map<Sector, D>)
  {
    && device'.Keys == device.Keys
    && (forall s :: s in device ==>
          device'[s] == if Dirty(bs, s) && !Cached(bs', s) then Contents(bs, device, s) else device[s])
    && (forall s :: Dirty(bs', s) <==> (s == x && stores) || (Dirty(bs, s) && Cached(bs', s)))
  }

  lemma DirtyIsCached<D>(bs: seq<Block<D>>, s: Sector)
    ensures Dirty(bs, s) ==> Cached(bs, s)
  {
  }

  lemma DirtyAfter<D>(bs: seq<Block<D>>, i: nat, b: Block<D>, s: Sector)
    requires DistinctTags(bs) && i < |bs| && DistinctTags(bs[i := b])
    ensures Dirty(bs[i := b], s) <==> if s == b.tag then b.dirty else s != bs[i].tag && Dirty(bs, s)
    ensures Cached(bs[i := b], s) <==> s == b.tag || (s != bs[i].tag && Cached(bs, s))
  {
    var bs' := bs[i := b];
    assert bs'[i] == b && forall j :: 0 <= j < |bs| && j != i ==> bs'[j] == bs[j];
  }

  lemma DirtyFilled<D>(bs: seq<Block<D>>, b: Block<D>, s: Sector)
    requires DistinctTags(bs + [b])
    ensures Dirty(bs + [b], s) <==> if s == b.tag then b.dirty else Dirty(bs, s)
    ensures Cached(bs + [b], s) <==> s == b.tag || Cached(bs, s)
  {
    var bs' := bs + [b];
    assert bs'[|bs|] == b && forall j :: 0 <= j < |bs| ==> bs'[j] == bs[j];
  }

  lemma HitWrites<D>(bs: seq<Block<D>>, device: map<Sector, D>, i: nat, b: Block<D>, stores: bool)
    requires DistinctTags(bs) && i < |bs| && b.tag == bs[i].tag && b.dirty == (stores || bs[i].dirty)
    ensures WritesBack(bs, device, b.tag, stores, bs[i := b], device)
  {
    forall s ensures Dirty(bs[i := b], s) <==> (s == b.tag && stores) || (Dirty(bs, s) && Cached(bs[i := b], s))
      ensures Dirty(bs, s) ==> Cached(bs[i := b], s)
    {
      DirtyAfter(bs, i, b, s);
      DirtyIsCached(bs, s);
    }
  }

  lemma FillWrites<D>(bs: seq<Block<D>>, device: map<Sector, D>, b: Block<D>)
    requires DistinctTags(bs) && !Cached(bs, b.tag)
    ensures WritesBack(bs, device, b.tag, b.dirty, bs + [b], device)
  {
    forall s ensures Dirty(bs + [b], s) <==> (s == b.tag && b.dirty) || (Dirty(bs, s) && Cached(bs + [b], s))
      ensures Dirty(bs, s) ==> Cached(bs + [b], s)
    {
      DirtyFilled(bs, b, s);
      DirtyIsCached(bs, s);
    }
  }

  /** Slot `v` has been written back if it was dirty, and is clean. */
  ghost predicate Cleaned<D>(bs: seq<Block<D>>, device: map<Sector, D>, v: nat, bs': seq<Block<D>>,
                             device': map<Sector, D>)
  {
    && v < |bs| && bs[v].tag in device && bs' == bs[v := bs[v].(dirty := false)]
    && device' == if bs[v].dirty then device[bs[v].tag := bs[v].data] else device
  }

  lemma StillUncached<D>(bs: seq<Block<D>>, v: nat, x: Sector, bs': seq<Block<D>>)
    requires v < |bs| && bs' == bs[v := bs[v].(dirty := false)] && !Cached(bs', x)
    ensures !Cached(bs, x)
  {
    assert forall j :: 0 <= j < |bs| ==> bs'[j].tag == bs[j].tag;
  }

  lemma DirtyEvicted<D>(bs: seq<Block<D>>, v: nat, b: Block<D>, s: Sector)
    requires DistinctTags(bs) && v < |bs| && !Cached(bs, b.tag)
    ensures Dirty(bs[v := b], s) <==> (s == b.tag && b.dirty) || (Dirty(bs, s) && Cached(bs[v := b], s))
    ensures Dirty(bs, s) && !Cached(bs[v := b], s) <==> s == bs[v].tag && bs[v].dirty
  {
    DirtyAfter(bs, v, b, s);
    DirtyIsCached(bs, s);
  }

  lemma EvictWritesOnce<D>(bs: seq<Block<D>>, device: map<Sector, D>, v: nat, b: Block<D>, device': map<Sector, D>)
    requires DistinctTags(bs) && v < |bs| && bs[v].tag in device && !Cached(bs, b.tag)
    requires device' == if bs[v].dirty then device[bs[v].tag := bs[v].data] else device
    ensures WritesBack(bs, device, b.tag, b.dirty, bs[v := b], device')
  {
    forall s ensures Dirty(bs[v := b], s) <==> (s == b.tag && b.dirty) || (Dirty(bs, s) && Cached(bs[v := b], s)) {
      DirtyEvicted(bs, v, b, s);
    }
    forall s | s in device
      ensures device'[s] == if Dirty(bs, s) && !Cached(bs[v := b], s) then Contents(bs, device, s) else device[s]
    {
      DirtyEvicted(bs, v, b, s);
      if s == bs[v].tag { CachedContents(bs, device, v); }
    }
  }

  lemma EvictWrites<D>(bs: seq<Block<D>>, device: map<Sector, D>, v: nat, b: Block<D>, bs': seq<Block<D>>,
                       device': map<Sector, D>)
    requires DistinctTags(bs) && Cleaned(bs, device, v, bs', device') && !Cached(bs', b.tag)
    ensures WritesBack(bs, device, b.tag, b.dirty, bs'[v := b], device')
  {
    StillUncached(bs, v, b.tag, bs');
    assert bs'[v := b] == bs[v := b];
    EvictWritesOnce(bs, device, v, b, device');
  }

  class Cache<D(0)> {
    const blocks: array<Block<D>>

    var lru: seq<nat>
    var device: map<Sector, D>
    ghost var trace: seq<Sector>

    ghost function InUse(): seq<Block<D>>
      requires |lru| <= blocks.Length
      reads this, blocks
    {
      blocks[..|lru|]
    }

    ghost predicate Valid()
      reads this, blocks
    {
      blocks.Length == CACHE_SIZE && |lru| <= CACHE_SIZE && Consistent(InUse(), device, lru, trace)
    }

    /** The array of sectors the callers see. */
    ghost function Logical(): map<Sector, D>
      requires |lru| <= blocks.Length
      reads this, blocks
    {
      Sectors(InUse(), device)
    }

    /** The sectors cached are the 64 most recently used ones. */
    lemma CachedSet(s: Sector)
      requires Valid()
      ensures Cached(InUse(), s) <==> s in trace && |UsedSince(trace, s)| < 64
    {
      CachedIffRecent(InUse(), lru, trace, CACHE_SIZE, s);
    }

    constructor (device: map<Sector, D>)
      ensures Valid() && fresh(blocks)
      ensures this.device == device && Logical() == device && trace == []
    {
      blocks := new Block<D>[CACHE_SIZE];
      lru := [];
      this.device := device;
      trace := [];
      new;
      AllClean(InUse(), device);
    }

    /** The search both operations begin with. */
    method Find(sector: Sector) returns (i: nat)
      requires Valid()
      ensures i <= |lru|
      ensures i < |lru| ==> InUse()[i].tag == sector
      ensures i == |lru| ==> !Cached(InUse(), sector)
    {
      i := 0;
      while i < |lru|
        invariant i <= |lru|
        invariant forall j :: 0 <= j < i ==> blocks[j].tag != sector
      {
        if blocks[i].tag == sector { return; }
        i := i + 1;
      }
    }

    method UseSlot(i: nat, b: Block<D>, ghost stores: bool)
      requires Valid() && i < |lru| && b.tag == InUse()[i].tag && Fits(b, device)
      requires b.dirty == (stores || InUse()[i].dirty)
      modifies this`lru, this`trace, blocks
      ensures Valid() && trace == old(trace) + [b.tag]
      ensures Logical() == old(Logical())[b.tag := b.data]
      ensures WritesBack(old(InUse()), device, b.tag, stores, InUse(), device)
    {
      ghost var bs := InUse();
      AfterHit(InUse(), device, lru, trace, i, b);
      var p := Position(lru, i);
      lru := [i] + lru[..p] + lru[p + 1..];
      blocks[i] := b;
      trace := trace + [b.tag];
      assert InUse() == bs[i := b];
      HitWrites(bs, device, i, b, stores);
    }

    method UseFreeSlot(b: Block<D>)
      requires Valid() && |lru| < CACHE_SIZE && !Cached(InUse(), b.tag) && Fits(b, device)
      modifies this`lru, this`trace, blocks
      ensures Valid() && trace == old(trace) + [b.tag]
      ensures Logical() == old(Logical())[b.tag := b.data]
      ensures WritesBack(old(InUse()), device, b.tag, b.dirty, InUse(), device)
    {
      FillWrites(InUse(), device, b);
      AfterFill(InUse(), device, lru, trace, b);
      blocks[|lru|] := b;
      lru := [|lru|] + lru;
      trace := trace + [b.tag];
      assert InUse() == old(InUse()) + [b];
    }

    method FlushOne(i: nat)
      requires Valid() && i < |lru|
      modifies this`device, blocks
      ensures Valid() && Logical() == old(Logical())
      ensures device == old(device[blocks[i].tag := blocks[i].data]) && device.Keys == old(device.Keys)
      ensures InUse() == old(InUse()[i := blocks[i].(dirty := false)])
    {
      WriteBack(InUse(), device, i);
      device := device[blocks[i].tag := blocks[i].data];
      blocks[i] := blocks[i].(dirty := false);
      ghost var bs := old(InUse());
      assert InUse() == bs[i := bs[i].(dirty := false)];
      TrackSame(bs, lru, Recent(trace), CACHE_SIZE, InUse());
    }

    /** The least recently used block is written back if it is dirty. */
    method WriteBackLast()
      requires Valid() && |lru| == CACHE_SIZE
      modifies this`device, blocks
      ensures Valid() && Logical() == old(Logical()) && device.Keys == old(device.Keys)
      ensures lru[CACHE_SIZE - 1] < CACHE_SIZE && !blocks[lru[CACHE_SIZE - 1]].dirty
      ensures Cleaned(old(InUse()), old(device), lru[CACHE_SIZE - 1], InUse(), device)
      ensures forall s :: Cached(InUse(), s) <==> old(Cached(InUse(), s))
    {
      LeastRecentInUse(InUse(), device, lru, trace);
      var v := lru[CACHE_SIZE - 1];
      if blocks[v].dirty {
        FlushOne(v);
        SameCached(old(InUse()), v, old(blocks[v]).(dirty := false));
      }
    }

    method UseLastSlot(b: Block<D>, ghost bs: seq<Block<D>>, ghost d: map<Sector, D>)
      requires Valid() && |lru| == CACHE_SIZE && !Cached(InUse(), b.tag) && Fits(b, device)
      requires lru[CACHE_SIZE - 1] < CACHE_SIZE && !blocks[lru[CACHE_SIZE - 1]].dirty
      requires DistinctTags(bs) && Cleaned(bs, d, lru[CACHE_SIZE - 1], InUse(), device)
      modifies this`lru, this`trace, blocks
      ensures Valid() && trace == old(trace) + [b.tag]
      ensures Logical() == old(Logical())[b.tag := b.data]
      ensures WritesBack(bs, d, b.tag, b.dirty, InUse(), device)
    {
      var v := lru[CACHE_SIZE - 1];
      EvictWrites(bs, d, v, b, InUse(), device);
      AfterEvict(InUse(), device, lru, trace, v, b);
      lru := [v] + lru[..CACHE_SIZE - 1];
      blocks[v] := b;
      trace := trace + [b.tag];
      assert InUse() == old(InUse())[v := b];
    }

    /** Reads a sector through the cache. */
    method Read(sector: Sector) returns (buffer: D)
      requires Valid() && sector in device
      modifies this, blocks
      ensures Valid() && device.Keys == old(device.Keys) && trace == old(trace) + [sector]
      ensures buffer == old(Logical()[sector])
      ensures Logical() == old(Logical())
      ensures WritesBack(old(InUse()), old(device), sector, false, InUse(), device)
    {
      ghost var bs, d := InUse(), device;
      var i := Find(sector);
      if i < |lru| {
        buffer := blocks[i].data;
        HitContents(InUse(), device, i);
        UseSlot(i, blocks[i], false);
      } else if |lru| < CACHE_SIZE {
        buffer := device[sector];
        UncachedIsOnDevice(InUse(), device, sector);
        UseFreeSlot(Block(sector, buffer, false));
      } else {
        WriteBackLast();
        buffer := device[sector];
        UncachedIsOnDevice(InUse(), device, sector);
        UseLastSlot(Block(sector, buffer, false), bs, d);
      }
    }

    /** Writes a sector into the cache. */
    method Write(sector: Sector, buffer: D)
      requires Valid() && sector in device
      modifies this, blocks
      ensures Valid() && device.Keys == old(device.Keys) && trace == old(trace) + [sector]
      ensures Logical() == old(Logical())[sector := buffer]
      ensures WritesBack(old(InUse()), old(device), sector, true, InUse(), device)
    {
      ghost var bs, d := InUse(), device;
      var i := Find(sector);
      var b := Block(sector, buffer, true);
      if i < |lru| {
        UseSlot(i, b, true);
      } else if |lru| < CACHE_SIZE {
        UseFreeSlot(b);
      } else {
        WriteBackLast();
        UseLastSlot(b, bs, d);
      }
    }

    /** Writes every dirty block back. */
    method Flush()
      requires Valid()
      modifies this`device, blocks
      ensures Valid() && Logical() == old(Logical())
      ensures device == Logical()
      ensures forall i :: 0 <= i < |lru| ==> !blocks[i].dirty
    {
      var i := 0;
      while i < |lru|
        invariant i <= |lru| && Valid() && Logical() == old(Logical())
        invariant forall j :: 0 <= j < i ==> !blocks[j].dirty
      {
        if blocks[i].dirty {
          FlushOne(i);
        }
        i := i + 1;
      }
      AllClean(InUse(), device);
    }
  }
}
