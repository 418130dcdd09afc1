/** The page allocator: two pools of pages, each with a bitmap of the pages in use. Pages are numbered by
    their place in physical memory, whose bytes are `mem`. */
module Palloc {

  import opened Bitmap
  import opened Basics
  import opened SectorWords

  const PGSIZE: nat := 4096
  const FREE_START: nat := 256   // free memory starts at 1 MB

  type Page = nat

  /** `n` bytes from `from` on set to `v`. */
  function Filling(mem: seq<Byte>, from: nat, n: nat, v: Byte): (r: seq<Byte>)
    requires from + n <= |mem|
    ensures |r| == |mem|
    ensures forall i :: 0 <= i < |mem| ==> r[i] == if from <= i < from + n then v else mem[i]
  {
    seq(|mem|, i requires 0 <= i < |mem| => if from <= i < from + n then v else mem[i])
  }

  function DivRoundUp(x: nat, step: nat): nat
    requires step > 0
  {
    (x + step - 1) / step
  }

  /** The pages that the bitmap of a pool of `cnt` pages takes at the start of the pool. */
  function BitmapPages(cnt: nat): nat { DivRoundUp(8 + 4 * ElemCnt(cnt), PGSIZE) }

  /** `n` pages hold the header of a bitmap and a bit for each of `cnt` pages, and fewer pages would not. */
  ghost predicate LeastMap(n: nat, cnt: nat) {
    n >= 1 && cnt <= 8 * (n * PGSIZE - 8) && (n > 1 ==> cnt > 8 * ((n - 1) * PGSIZE - 8))
  }

  lemma BitmapPagesIs(cnt: nat)
    ensures LeastMap(BitmapPages(cnt), cnt)
  {
  }

  /** A pool of `cnt` pages from `start` on: its bitmap in the fewest pages that hold it, then its pages, all free. */
  ghost predicate PoolIs(start: Page, cnt: nat, base: Page, used: seq<bool>) {
    && start < base && base + |used| == start + cnt && LeastMap(base - start, cnt)
    && forall i :: 0 <= i < |used| ==> !used[i]
  }

  /** All of free memory goes to the two pools: the last `user` pages to the user pool, which is half of them, rounded
      down, but no more than the limit, and those before to the kernel pool. */
  ghost predicate Split(ramPages: nat, limit: nat, user: nat, kernelBase: Page, kernelUsed: seq<bool>, userBase: Page,
                        userUsed: seq<bool>)
  {
    && 2 * user <= ramPages - FREE_START && user <= limit
    && (user == limit || ramPages - FREE_START < 2 * user + 2)
    && PoolIs(FREE_START, ramPages - FREE_START - user, kernelBase, kernelUsed)
    && PoolIs(ramPages - user, user, userBase, userUsed)
  }

  class Pool {
    const base: Page
    const usedMap: BitSet

    ghost predicate Valid()
      reads usedMap, usedMap.bits
    {
      usedMap.Valid()
    }

    ghost function Used(): seq<bool>
      reads usedMap
    {
      usedMap.view
    }

    /** The pool of `cnt` pages from `start` on; its bitmap takes the first of them. */
    constructor (start: Page, cnt: nat)
      requires BitmapPages(cnt) <= cnt
      ensures Valid() && fresh(usedMap) && fresh(usedMap.bits)
      ensures PoolIs(start, cnt, base, Used())
    {
      var bmPages := BitmapPages(cnt);
      BitmapPagesIs(cnt);
      base := start + bmPages;
      usedMap := new BitSet(cnt - bmPages);
    }

    /** Page `p` is one of this pool's. */
    predicate Contains(p: Page)
    {
      base <= p < base + usedMap.bitCnt
    }
  }

  /** All of `cnt` pages from `p` on belong to the pool and are in use. */
  ghost predicate InUse(base: Page, used: seq<bool>, p: Page, cnt: nat) {
    base <= p && p + cnt <= base + |used| && AllAre(used, p - base, cnt, true)
  }

  class PageAllocator {
    const kernelPool: Pool
    const userPool: Pool

    var mem: seq<Byte>

    ghost predicate Valid()
      reads this, kernelPool.usedMap, kernelPool.usedMap.bits, userPool.usedMap, userPool.usedMap.bits
    {
      && kernelPool.Valid() && userPool.Valid()
      && kernelPool.usedMap != userPool.usedMap && kernelPool.usedMap.bits != userPool.usedMap.bits
      && kernelPool.base + |kernelPool.Used()| <= userPool.base
      && (userPool.base + |userPool.Used()|) * PGSIZE <= |mem|
    }

    /** Half of free memory, or what the limit allows, goes to the user pool and the rest to the kernel's. */
    constructor (mem: seq<Byte>, ramPages: nat, userPageLimit: nat)
      requires ramPages >= FREE_START && ramPages * PGSIZE == |mem|
      requires var user := Least((ramPages - FREE_START) / 2, userPageLimit);
        BitmapPages(user) <= user && BitmapPages(ramPages - FREE_START - user) <= ramPages - FREE_START - user
      ensures Valid() && fresh(kernelPool.usedMap) && fresh(userPool.usedMap)
      ensures this.mem == mem
      ensures exists user ::
        Split(ramPages, userPageLimit, user, kernelPool.base, kernelPool.Used(), userPool.base, userPool.Used())
    {
      var freePages := ramPages - FREE_START;
      var userPages := freePages / 2;
      if userPages > userPageLimit { userPages := userPageLimit; }
      var kernelPages := freePages - userPages;
      kernelPool := new Pool(FREE_START, kernelPages);
      userPool := new Pool(FREE_START + kernelPages, userPages);
      this.mem := mem;
      new;
      assert Split(ramPages, userPageLimit, userPages,
                   kernelPool.base, kernelPool.Used(), userPool.base, userPool.Used());
    }

    /** A group of contiguous free pages: the first there is in the pool. Without one the kernel panics
        if the caller has set `must`. */
    method GetMultiple(user: bool, zero: bool, must: bool, cnt: nat) returns (r: Option<Page>, panics: bool)
      requires Valid()
      modifies this, kernelPool.usedMap, kernelPool.usedMap.bits, userPool.usedMap, userPool.usedMap.bits
      ensures Valid()
      ensures var pool := if user then userPool else kernelPool; var other := if user then kernelPool else userPool;
        && other.Used() == old(other.Used())
        && (r.None? ==> pool.Used() == old(pool.Used()) && mem == old(mem))
        && (r.None? <==> cnt == 0 || FirstGroup(old(pool.Used()), 0, cnt, false, None))
        && (panics <==> must && cnt > 0 && FirstGroup(old(pool.Used()), 0, cnt, false, None))
        && (r.Some? ==> cnt > 0 && r.value >= pool.base)
        && (r.Some? ==> FirstGroup(old(pool.Used()), 0, cnt, false, Some(r.value - pool.base)))
        && (r.Some? ==> pool.Used() == Filled(old(pool.Used()), r.value - pool.base, cnt, true))
        && (r.Some? ==> (r.value + cnt) * PGSIZE <= |old(mem)|)
        && (r.Some? ==> mem == if zero then Filling(old(mem), r.value * PGSIZE, cnt * PGSIZE, 0) else old(mem))
    {
      if cnt == 0 { return None, false; }
      var pool := if user then userPool else kernelPool;
      var idx := pool.usedMap.ScanAndFlip(0, cnt, false);
      if idx.None? { return None, must; }
      ghost var used := old(pool.Used());
      GroupOrNone(used, cnt, idx.value);
      var p := pool.base + idx.value;
      if zero { mem := Filling(mem, p * PGSIZE, cnt * PGSIZE, 0); }
      return Some(p), false;
    }

    /** Gives pages back to the pool they came from, filled with 0xcc. */
    method FreeMultiple(p: Page, cnt: nat)
      requires Valid()
      requires cnt > 0 ==>
        InUse(kernelPool.base, kernelPool.Used(), p, cnt) || InUse(userPool.base, userPool.Used(), p, cnt)
      modifies this, kernelPool.usedMap, kernelPool.usedMap.bits, userPool.usedMap, userPool.usedMap.bits
      ensures Valid()
      ensures cnt == 0 ==>
        kernelPool.Used() == old(kernelPool.Used()) && userPool.Used() == old(userPool.Used()) && mem == old(mem)
      ensures cnt > 0 && old(InUse(kernelPool.base, kernelPool.Used(), p, cnt)) ==>
        && kernelPool.Used() == Filled(old(kernelPool.Used()), p - kernelPool.base, cnt, false)
        && userPool.Used() == old(userPool.Used())
      ensures cnt > 0 && old(InUse(userPool.base, userPool.Used(), p, cnt)) ==>
        && userPool.Used() == Filled(old(userPool.Used()), p - userPool.base, cnt, false)
        && kernelPool.Used() == old(kernelPool.Used())
      ensures cnt > 0 ==> (p + cnt) * PGSIZE <= |old(mem)| && mem == Filling(old(mem), p * PGSIZE, cnt * PGSIZE, 0xcc)
    {
      if cnt == 0 { return; }
      var pool := if kernelPool.Contains(p) then kernelPool else userPool;
      mem := Filling(mem, p * PGSIZE, cnt * PGSIZE, 0xcc);
      pool.usedMap.SetMultiple(p - pool.base, cnt, false);
    }
  }
}
