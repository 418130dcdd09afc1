/** The block allocator: descriptors with free lists of equal blocks, arenas of one page that hold them, and
    big blocks of whole pages. Arena headers and free-list links are kept here as values; `mem` holds the
    bytes of the blocks. */
module Malloc {

  import opened Bitmap
  import opened Basics
  import opened SectorWords
  import opened Palloc
  import opened Sequences

  type Addr = nat

  const HEADER: nat := 12        // the size of an arena header
  const ROOM: nat := PGSIZE - HEADER

  datatype Desc = Desc(blockSize: nat, freeList: seq<Addr>)

  datatype Arena = Small(desc: nat, freeCnt: nat) | Big(pageCnt: nat)

  datatype Heap = Heap(descs: seq<Desc>, arenas: map<Page, Arena>)

  // ----- addresses -----

  function PageOf(a: Addr): Page { a / PGSIZE }

  function BlocksPerArena(blockSize: nat): nat
    requires blockSize > 0
  {
    ROOM / blockSize
  }

  function Block(p: Page, blockSize: nat, i: nat): Addr { p * PGSIZE + HEADER + i * blockSize }

  lemma Times(i: nat, j: nat, c: nat)
    requires i <= j
    ensures i * c <= j * c
  {
  }

  /** A block lies in its page, after the header. */
  lemma BlockFits(p: Page, blockSize: nat, i: nat)
    requires blockSize > 0 && i < BlocksPerArena(blockSize)
    ensures i * blockSize + blockSize <= ROOM
    ensures PageOf(Block(p, blockSize, i)) == p
    ensures Block(p, blockSize, i) % PGSIZE == HEADER + i * blockSize
  {
    Times(i + 1, BlocksPerArena(blockSize), blockSize);
    assert (i + 1) * blockSize == i * blockSize + blockSize;
    assert BlocksPerArena(blockSize) * blockSize <= ROOM;
  }

  /** An arena has as many blocks as its page has room for, after a header of 12 bytes. */
  lemma ArenaIsFilled(blockSize: nat)
    requires blockSize > 0
    ensures BlocksPerArena(blockSize) * blockSize <= 4096 - 12 < (BlocksPerArena(blockSize) + 1) * blockSize
  {
    var n := BlocksPerArena(blockSize);
    assert n * blockSize + ROOM % blockSize == ROOM;
    assert (n + 1) * blockSize == n * blockSize + blockSize;
  }

  lemma BlocksApart(p: Page, blockSize: nat, i: nat, j: nat)
    requires i < j
    ensures Block(p, blockSize, i) + blockSize <= Block(p, blockSize, j)
  {
    Times(i + 1, j, blockSize);
    assert (i + 1) * blockSize == i * blockSize + blockSize;
  }

  /** The blocks of the arena at page `p`, from the first on. */
  ghost function BlockSeq(p: Page, blockSize: nat, n: nat): (s: seq<Addr>)
    ensures |s| == n && forall i :: 0 <= i < n ==> s[i] == Block(p, blockSize, i)
  {
    seq(n, i requires 0 <= i < n => Block(p, blockSize, i))
  }

  ghost function Blocks(p: Page, blockSize: nat): set<Addr>
    requires blockSize > 0
  {
    ToSet(BlockSeq(p, blockSize, BlocksPerArena(blockSize)))
  }

  lemma BlockPage(a: Addr, p: Page, blockSize: nat)
    requires blockSize > 0 && a in Blocks(p, blockSize)
    ensures PageOf(a) == p && a >= p * PGSIZE + HEADER && a + blockSize <= (p + 1) * PGSIZE
  {
    var s := BlockSeq(p, blockSize, BlocksPerArena(blockSize));
    var i :| 0 <= i < |s| && s[i] == a;
    BlockFits(p, blockSize, i);
  }

  lemma BlockSeqDistinct(p: Page, blockSize: nat, n: nat)
    requires blockSize > 0
    ensures Distinct(BlockSeq(p, blockSize, n))
  {
    var s := BlockSeq(p, blockSize, n);
    forall i, j | 0 <= i < j < n ensures s[i] != s[j] {
      BlocksApart(p, blockSize, i, j);
    }
  }

  lemma BlockCount(p: Page, blockSize: nat)
    requires blockSize > 0
    ensures |Blocks(p, blockSize)| == BlocksPerArena(blockSize)
  {
    BlockSeqDistinct(p, blockSize, BlocksPerArena(blockSize));
    DistinctSize(BlockSeq(p, blockSize, BlocksPerArena(blockSize)));
  }

  lemma TwoBlocksApart(a: Addr, b: Addr, p: Page, blockSize: nat)
    requires blockSize > 0 && a in Blocks(p, blockSize) && b in Blocks(p, blockSize) && a < b
    ensures a + blockSize <= b
  {
    var s := BlockSeq(p, blockSize, BlocksPerArena(blockSize));
    var i :| 0 <= i < |s| && s[i] == a;
    var j :| 0 <= j < |s| && s[j] == b;
    if i < j {
      BlocksApart(p, blockSize, i, j);
    } else if j < i {
      BlocksApart(p, blockSize, j, i);
    }
  }

  // ----- the state between calls -----

  const DESC_CNT: nat := 7

  /** The size of the blocks of descriptor `d`: 16 bytes and its doublings below half a page. */
  function SizeOf(d: nat): nat
    requires d < DESC_CNT
  {
    [16, 32, 64, 128, 256, 512, 1024][d]
  }

  ghost predicate DescsOk(h: Heap) {
    |h.descs| == DESC_CNT && forall d :: 0 <= d < DESC_CNT ==> h.descs[d].blockSize == SizeOf(d) > 0
  }

  function PageCnt(a: Arena): nat { if a.Small? then 1 else a.pageCnt }

  function BigBlock(p: Page): Addr { p * PGSIZE + HEADER }

  /** The blocks of an arena that are on a free list. */
  ghost function FreeIn(list: seq<Addr>, p: Page, blockSize: nat): set<Addr>
    requires blockSize > 0
  {
    set a | a in Blocks(p, blockSize) && a in list
  }

  /** An arena counts its blocks on its descriptor's free list. */
  ghost predicate ArenaOk(h: Heap, p: Page)
    requires DescsOk(h) && p in h.arenas
  {
    match h.arenas[p]
    case Small(d, n) => d < DESC_CNT && n == |FreeIn(h.descs[d].freeList, p, SizeOf(d))|
    case Big(n) => n > 0
  }

  ghost predicate OwnBlock(h: Heap, d: nat, a: Addr)
    requires d < DESC_CNT
  {
    var p := PageOf(a);
    p in h.arenas && h.arenas[p].Small? && h.arenas[p].desc == d && a in Blocks(p, SizeOf(d))
  }

  /** A free list holds blocks of its descriptor's arenas, each once. */
  ghost predicate ListOk(h: Heap, d: nat)
    requires DescsOk(h) && d < DESC_CNT
  {
    Distinct(h.descs[d].freeList) && forall a :: a in h.descs[d].freeList ==> OwnBlock(h, d, a)
  }

  /** Of an arena's blocks exactly those that are not free are in use. */
  ghost predicate LiveOk(h: Heap, live: set<Addr>, p: Page)
    requires DescsOk(h) && p in h.arenas
  {
    match h.arenas[p]
    case Small(d, _) =>
      d < DESC_CNT && forall a :: a in Blocks(p, SizeOf(d)) ==> (a in live <==> a !in h.descs[d].freeList)
    case Big(_) => BigBlock(p) in live
  }

  /** A block in use is a block of an arena. */
  ghost predicate AddrOk(h: Heap, a: Addr) {
    var p := PageOf(a);
    && p in h.arenas
    && match h.arenas[p]
       case Small(d, _) => d < DESC_CNT && a in Blocks(p, SizeOf(d))
       case Big(_) => a == BigBlock(p)
  }

  ghost predicate Apart(h: Heap) {
    forall p, q :: p in h.arenas && q in h.arenas && p < q ==> p + PageCnt(h.arenas[p]) <= q
  }

  ghost predicate Core(h: Heap, live: set<Addr>) {
    && DescsOk(h) && Apart(h)
    && (forall p :: p in h.arenas ==> ArenaOk(h, p) && LiveOk(h, live, p))
    && (forall d :: 0 <= d < DESC_CNT ==> ListOk(h, d))
    && (forall a :: a in live ==> AddrOk(h, a))
  }

  /** The arena at `p` has a block in use. */
  ghost predicate Occupied(h: Heap, p: Page)
    requires p in h.arenas
  {
    match h.arenas[p]
    case Small(d, n) => d < DESC_CNT && n < BlocksPerArena(SizeOf(d))
    case Big(_) => true
  }

  ghost predicate NoneEmpty(h: Heap) {
    forall p :: p in h.arenas ==> Occupied(h, p)
  }

  // ----- what a block is -----

  /** The bytes of a block in use. */
  ghost function Capacity(h: Heap, a: Addr): nat
    requires PageOf(a) in h.arenas
  {
    match h.arenas[PageOf(a)]
    case Small(d, _) => if d < DESC_CNT then SizeOf(d) else 0
    case Big(n) => if n > 0 then n * PGSIZE - HEADER else 0
  }

  /** A block in use lies in its arena's pages, after the header. */
  lemma BlockInside(h: Heap, live: set<Addr>, a: Addr)
    requires Core(h, live) && a in live
    ensures PageOf(a) in h.arenas && a >= PageOf(a) * PGSIZE + HEADER && Capacity(h, a) > 0
    ensures a + Capacity(h, a) <= (PageOf(a) + PageCnt(h.arenas[PageOf(a)])) * PGSIZE
  {
    assert AddrOk(h, a);
    var p := PageOf(a);
    assert ArenaOk(h, p);
    if h.arenas[p].Small? { BlockPage(a, p, SizeOf(h.arenas[p].desc)); }
  }

  /** Different blocks in use have no byte in common. */
  lemma LiveDisjoint(h: Heap, live: set<Addr>, a: Addr, b: Addr)
    requires Core(h, live) && a in live && b in live && a < b
    ensures PageOf(a) in h.arenas && PageOf(b) in h.arenas && a + Capacity(h, a) <= b
  {
    BlockInside(h, live, a);
    BlockInside(h, live, b);
    assert AddrOk(h, a) && AddrOk(h, b);
    var p: Page, q: Page := PageOf(a), PageOf(b);
    if p == q {
      if h.arenas[p].Small? { TwoBlocksApart(a, b, p, SizeOf(h.arenas[p].desc)); }
    } else {
      assert p < q;
      assert p + PageCnt(h.arenas[p]) <= q;
    }
  }

  lemma EitherApart(h: Heap, live: set<Addr>, a: Addr, b: Addr)
    requires Core(h, live) && a in live && b in live && a != b
    ensures PageOf(a) in h.arenas && PageOf(b) in h.arenas
    ensures a + Capacity(h, a) <= b || b + Capacity(h, b) <= a
  {
    if a < b { LiveDisjoint(h, live, a, b); } else { LiveDisjoint(h, live, b, a); }
  }

  /** No block in use reaches into an arena's header. */
  lemma HeadersDisjoint(h: Heap, live: set<Addr>, a: Addr, p: Page)
    requires Core(h, live) && a in live && p in h.arenas
    ensures PageOf(a) in h.arenas && (a + Capacity(h, a) <= p * PGSIZE || a >= p * PGSIZE + HEADER)
  {
    BlockInside(h, live, a);
    var q: Page := PageOf(a);
    if p > q { assert q + PageCnt(h.arenas[q]) <= p; }
  }

  // ----- the steps of the allocator -----

  function WithList(h: Heap, d: nat, list: seq<Addr>): Heap
    requires d < |h.descs|
  {
    h.(descs := h.descs[d := h.descs[d].(freeList := list)])
  }

  function WithArena(h: Heap, p: Page, a: Arena): Heap {
    h.(arenas := h.arenas[p := a])
  }

  /** The first free block of descriptor `d` is handed out. */
  ghost function Popped(h: Heap, d: nat): Heap
    requires DescsOk(h) && d < DESC_CNT && h.descs[d].freeList != []
    requires PageOf(h.descs[d].freeList[0]) in h.arenas && h.arenas[PageOf(h.descs[d].freeList[0])].Small?
    requires h.arenas[PageOf(h.descs[d].freeList[0])].freeCnt > 0
  {
    var list := h.descs[d].freeList;
    var p := PageOf(list[0]);
    WithArena(WithList(h, d, list[1..]), p, Small(d, h.arenas[p].freeCnt - 1))
  }

  lemma FreeInOther(list: seq<Addr>, list': seq<Addr>, p: Page, blockSize: nat)
    requires blockSize > 0 && forall a :: PageOf(a) == p ==> (a in list' <==> a in list)
    ensures FreeIn(list', p, blockSize) == FreeIn(list, p, blockSize)
  {
    forall a | a in Blocks(p, blockSize) ensures a in list' <==> a in list {
      BlockPage(a, p, blockSize);
    }
  }

  /** Two heaps in which everything about the arena at `p` is the same. */
  lemma ArenaSame(h: Heap, h': Heap, live: set<Addr>, live': set<Addr>, p: Page)
    requires DescsOk(h) && DescsOk(h') && p in h.arenas && p in h'.arenas && h'.arenas[p] == h.arenas[p]
    requires ArenaOk(h, p) && LiveOk(h, live, p)
    requires forall a :: PageOf(a) == p ==> (a in live' <==> a in live)
    requires h.arenas[p].Small? ==>
      forall a :: PageOf(a) == p ==>
        (a in h'.descs[h.arenas[p].desc].freeList <==> a in h.descs[h.arenas[p].desc].freeList)
    ensures ArenaOk(h', p) && LiveOk(h', live', p)
  {
    if h.arenas[p].Small? {
      var d := h.arenas[p].desc;
      FreeInOther(h.descs[d].freeList, h'.descs[d].freeList, p, SizeOf(d));
      forall a | a in Blocks(p, SizeOf(d)) ensures PageOf(a) == p {
        BlockPage(a, p, SizeOf(d));
      }
    } else {
      assert PageOf(BigBlock(p)) == p;
    }
  }

  lemma PopReady(h: Heap, live: set<Addr>, d: nat)
    requires Core(h, live) && d < DESC_CNT && h.descs[d].freeList != []
    ensures var a := h.descs[d].freeList[0]; var p := PageOf(a);
      && p in h.arenas && h.arenas[p].Small? && h.arenas[p].desc == d && h.arenas[p].freeCnt > 0
      && a in Blocks(p, SizeOf(d)) && a !in live
  {
    var a := h.descs[d].freeList[0];
    assert ListOk(h, d) && a in h.descs[d].freeList;
    assert OwnBlock(h, d, a);
    var p := PageOf(a);
    assert ArenaOk(h, p) && LiveOk(h, live, p);
    assert a in FreeIn(h.descs[d].freeList, p, SizeOf(d));
  }

  lemma PopList(h: Heap, live: set<Addr>, d: nat, e: nat)
    requires Core(h, live) && d < DESC_CNT && h.descs[d].freeList != [] && e < DESC_CNT
    requires PageOf(h.descs[d].freeList[0]) in h.arenas && h.arenas[PageOf(h.descs[d].freeList[0])].Small?
    requires h.arenas[PageOf(h.descs[d].freeList[0])].desc == d && h.arenas[PageOf(h.descs[d].freeList[0])].freeCnt > 0
    ensures DescsOk(Popped(h, d)) && ListOk(Popped(h, d), e)
  {
    var h', list := Popped(h, d), h.descs[e].freeList;
    assert ListOk(h, e);
    forall a | a in h'.descs[e].freeList ensures OwnBlock(h', e, a) {
      assert a in list;
      assert OwnBlock(h, e, a);
    }
  }

  lemma PopOwn(h: Heap, live: set<Addr>, d: nat, p: Page)
    requires DescsOk(h) && d < DESC_CNT && h.descs[d].freeList != [] && Distinct(h.descs[d].freeList)
    requires p == PageOf(h.descs[d].freeList[0]) && p in h.arenas && h.arenas[p].Small? && h.arenas[p].desc == d
    requires h.arenas[p].freeCnt > 0 && h.descs[d].freeList[0] in Blocks(p, SizeOf(d))
    requires ArenaOk(h, p) && LiveOk(h, live, p)
    ensures DescsOk(Popped(h, d)) && ArenaOk(Popped(h, d), p)
    ensures LiveOk(Popped(h, d), live + {h.descs[d].freeList[0]}, p)
  {
    var list := h.descs[d].freeList;
    assert list == [list[0]] + list[1..];
    assert FreeIn(list[1..], p, SizeOf(d)) == FreeIn(list, p, SizeOf(d)) - {list[0]};
  }

  /** A block taken from a free list: its arena counts one less, and it is in use. */
  lemma PopKeeps(h: Heap, live: set<Addr>, d: nat)
    requires Core(h, live) && d < DESC_CNT && h.descs[d].freeList != []
    requires PageOf(h.descs[d].freeList[0]) in h.arenas && h.arenas[PageOf(h.descs[d].freeList[0])].Small?
    requires h.arenas[PageOf(h.descs[d].freeList[0])].freeCnt > 0
    ensures Core(Popped(h, d), live + {h.descs[d].freeList[0]})
  {
    PopReady(h, live, d);
    var list := h.descs[d].freeList;
    var a := list[0];
    var p, h', live' := PageOf(a), Popped(h, d), live + {a};
    assert ListOk(h, d);
    forall q | q in h'.arenas ensures ArenaOk(h', q) && LiveOk(h', live', q) {
      assert ArenaOk(h, q) && LiveOk(h, live, q);
      if q == p {
        PopOwn(h, live, d, p);
      } else {
        ArenaSame(h, h', live, live', q);
      }
    }
    forall e | 0 <= e < DESC_CNT ensures ListOk(h', e) { PopList(h, live, d, e); }
    forall b | b in live' ensures AddrOk(h', b) {
      if b != a { assert AddrOk(h, b); }
    }
  }

  /** Block `a` is put at the front of its descriptor's free list. */
  ghost function Pushed(h: Heap, a: Addr): Heap
    requires PageOf(a) in h.arenas && h.arenas[PageOf(a)].Small? && h.arenas[PageOf(a)].desc < |h.descs|
  {
    var p := PageOf(a);
    var d := h.arenas[p].desc;
    WithArena(WithList(h, d, [a] + h.descs[d].freeList), p, Small(d, h.arenas[p].freeCnt + 1))
  }

  lemma PushList(h: Heap, live: set<Addr>, a: Addr, e: nat)
    requires Core(h, live) && a in live && AddrOk(h, a) && h.arenas[PageOf(a)].Small? && e < DESC_CNT
    ensures DescsOk(Pushed(h, a)) && ListOk(Pushed(h, a), e)
  {
    var h', d := Pushed(h, a), h.arenas[PageOf(a)].desc;
    assert ListOk(h, e) && LiveOk(h, live, PageOf(a));
    forall b | b in h'.descs[e].freeList ensures OwnBlock(h', e, b) {
      if b != a || e != d { assert b in h.descs[e].freeList; assert OwnBlock(h, e, b); }
    }
  }

  lemma PushOwn(h: Heap, live: set<Addr>, a: Addr)
    requires DescsOk(h) && AddrOk(h, a) && h.arenas[PageOf(a)].Small? && a in live
    requires ArenaOk(h, PageOf(a)) && LiveOk(h, live, PageOf(a))
    ensures DescsOk(Pushed(h, a)) && ArenaOk(Pushed(h, a), PageOf(a)) && LiveOk(Pushed(h, a), live - {a}, PageOf(a))
  {
    var p := PageOf(a);
    var d := h.arenas[p].desc;
    var list := h.descs[d].freeList;
    assert FreeIn([a] + list, p, SizeOf(d)) == FreeIn(list, p, SizeOf(d)) + {a};
  }

  /** A block given back: its arena counts one more, and it is not in use. */
  lemma PushKeeps(h: Heap, live: set<Addr>, a: Addr)
    requires Core(h, live) && a in live && AddrOk(h, a) && h.arenas[PageOf(a)].Small?
    ensures Core(Pushed(h, a), live - {a})
  {
    var p, h', live' := PageOf(a), Pushed(h, a), live - {a};
    var d := h.arenas[p].desc;
    var list := h.descs[d].freeList;
    forall q | q in h'.arenas ensures ArenaOk(h', q) && LiveOk(h', live', q) {
      assert ArenaOk(h, q) && LiveOk(h, live, q);
      if q == p {
        PushOwn(h, live, a);
      } else {
        ArenaSame(h, h', live, live', q);
      }
    }
    forall e | 0 <= e < DESC_CNT ensures ListOk(h', e) { PushList(h, live, a, e); }
    forall b | b in live' ensures AddrOk(h', b) { assert AddrOk(h, b); }
  }

  /** Pages `p` to `p + n` belong to no arena. */
  ghost predicate Unclaimed(h: Heap, p: Page, n: nat) {
    forall q :: q in h.arenas ==> q + PageCnt(h.arenas[q]) <= p || p + n <= q
  }

  /** A new arena whose blocks are all free. */
  ghost function Carved(h: Heap, d: nat, p: Page): Heap
    requires DescsOk(h) && d < DESC_CNT
  {
    var n := BlocksPerArena(SizeOf(d));
    WithArena(WithList(h, d, BlockSeq(p, SizeOf(d), n)), p, Small(d, n))
  }

  lemma CarveList(h: Heap, live: set<Addr>, d: nat, p: Page, e: nat)
    requires Core(h, live) && d < DESC_CNT && p !in h.arenas && e < DESC_CNT
    ensures DescsOk(Carved(h, d, p)) && ListOk(Carved(h, d, p), e)
  {
    var h' := Carved(h, d, p);
    if e == d {
      BlockSeqDistinct(p, SizeOf(d), BlocksPerArena(SizeOf(d)));
      forall a | a in h'.descs[d].freeList ensures OwnBlock(h', d, a) { BlockPage(a, p, SizeOf(d)); }
    } else {
      assert ListOk(h, e);
      forall a | a in h'.descs[e].freeList ensures OwnBlock(h', e, a) { assert OwnBlock(h, e, a); }
    }
  }

  lemma CarveKeeps(h: Heap, live: set<Addr>, d: nat, p: Page)
    requires Core(h, live) && d < DESC_CNT && h.descs[d].freeList == [] && p !in h.arenas && Unclaimed(h, p, 1)
    ensures Core(Carved(h, d, p), live)
  {
    var h', s := Carved(h, d, p), BlockSeq(p, SizeOf(d), BlocksPerArena(SizeOf(d)));
    forall q | q in h'.arenas ensures ArenaOk(h', q) && LiveOk(h', live, q) {
      if q == p {
        assert FreeIn(s, p, SizeOf(d)) == Blocks(p, SizeOf(d));
        BlockCount(p, SizeOf(d));
        forall a | a in Blocks(p, SizeOf(d)) ensures a !in live {
          BlockPage(a, p, SizeOf(d));
        }
      } else {
        assert ArenaOk(h, q) && LiveOk(h, live, q);
        forall a | PageOf(a) == q ensures a !in s {
          if a in s { BlockPage(a, p, SizeOf(d)); }
        }
        ArenaSame(h, h', live, live, q);
      }
    }
    forall e | 0 <= e < DESC_CNT ensures ListOk(h', e) { CarveList(h, live, d, p, e); }
    forall b | b in live ensures AddrOk(h', b) { assert AddrOk(h, b); }
  }

  /** An arena whose blocks are all free is given up; `list` is what is left of its descriptor's free list. */
  ghost function Dropped(h: Heap, p: Page, list: seq<Addr>): Heap
    requires p in h.arenas && h.arenas[p].Small? && h.arenas[p].desc < |h.descs|
  {
    var h1 := WithList(h, h.arenas[p].desc, list);
    h1.(arenas := h1.arenas - {p})
  }

  lemma DropKeeps(h: Heap, live: set<Addr>, p: Page, list: seq<Addr>)
    requires Core(h, live) && p in h.arenas && h.arenas[p].Small?
    requires var d := h.arenas[p].desc;
      && FreeIn(h.descs[d].freeList, p, SizeOf(d)) == Blocks(p, SizeOf(d))
      && Distinct(list) && forall a :: a in list <==> a in h.descs[d].freeList && a !in Blocks(p, SizeOf(d))
    ensures Core(Dropped(h, p, list), live)
  {
    var h', d := Dropped(h, p, list), h.arenas[p].desc;
    assert ListOk(h, d) && LiveOk(h, live, p);
    forall q | q in h'.arenas ensures ArenaOk(h', q) && LiveOk(h', live, q) {
      assert ArenaOk(h, q) && LiveOk(h, live, q);
      forall a | PageOf(a) == q ensures a !in Blocks(p, SizeOf(d)) {
        if a in Blocks(p, SizeOf(d)) { BlockPage(a, p, SizeOf(d)); }
      }
      ArenaSame(h, h', live, live, q);
    }
    forall e | 0 <= e < DESC_CNT ensures ListOk(h', e) {
      assert ListOk(h, e);
      forall a | a in h'.descs[e].freeList ensures OwnBlock(h', e, a) { assert OwnBlock(h, e, a); }
    }
    forall b | b in live ensures AddrOk(h', b) { assert AddrOk(h, b); }
  }

  lemma ListsSame(h: Heap, h': Heap)
    requires DescsOk(h) && h'.descs == h.descs && forall e :: 0 <= e < DESC_CNT ==> ListOk(h, e)
    requires forall q :: q in h.arenas && h.arenas[q].Small? ==> q in h'.arenas && h'.arenas[q] == h.arenas[q]
    ensures forall e :: 0 <= e < DESC_CNT ==> ListOk(h', e)
  {
    forall e | 0 <= e < DESC_CNT ensures ListOk(h', e) {
      assert ListOk(h, e);
      forall a | a in h'.descs[e].freeList ensures OwnBlock(h', e, a) { assert OwnBlock(h, e, a); }
    }
  }

  lemma AddBigArenas(h: Heap, live: set<Addr>, p: Page, n: nat)
    requires Core(h, live) && p !in h.arenas && n > 0
    ensures var h', live' := WithArena(h, p, Big(n)), live + {BigBlock(p)};
      forall q :: q in h'.arenas ==> ArenaOk(h', q) && LiveOk(h', live', q)
  {
    var h', live' := WithArena(h, p, Big(n)), live + {BigBlock(p)};
    assert PageOf(BigBlock(p)) == p;
    forall q | q in h'.arenas ensures ArenaOk(h', q) && LiveOk(h', live', q) {
      if q != p {
        assert ArenaOk(h, q) && LiveOk(h, live, q);
        ArenaSame(h, h', live, live', q);
      }
    }
  }

  lemma AddBigKeeps(h: Heap, live: set<Addr>, p: Page, n: nat)
    requires Core(h, live) && p !in h.arenas && n > 0 && Unclaimed(h, p, n)
    ensures Core(WithArena(h, p, Big(n)), live + {BigBlock(p)}) && BigBlock(p) !in live
  {
    var h', live' := WithArena(h, p, Big(n)), live + {BigBlock(p)};
    assert PageOf(BigBlock(p)) == p;
    AddBigArenas(h, live, p, n);
    ListsSame(h, h');
    forall b | b in live' ensures AddrOk(h', b) {
      if b != BigBlock(p) { assert AddrOk(h, b); }
    }
  }

  lemma DropBigKeeps(h: Heap, live: set<Addr>, p: Page)
    requires Core(h, live) && p in h.arenas && h.arenas[p].Big?
    ensures Core(h.(arenas := h.arenas - {p}), live - {BigBlock(p)})
  {
    var h', live' := h.(arenas := h.arenas - {p}), live - {BigBlock(p)};
    assert PageOf(BigBlock(p)) == p;
    forall q | q in h'.arenas ensures ArenaOk(h', q) && LiveOk(h', live', q) {
      assert ArenaOk(h, q) && LiveOk(h, live, q);
      ArenaSame(h, h', live, live', q);
    }
    ListsSame(h, h');
    forall b | b in live' ensures AddrOk(h', b) { assert AddrOk(h, b); }
  }

  // ----- arenas and pages in use -----

  ghost predicate Claimed(h: Heap, p: Page) {
    exists q :: q in h.arenas && q <= p < q + PageCnt(h.arenas[q])
  }

  /** The pages in use in the pool are those other callers hold and, apart from them, those of the arenas. */
  ghost predicate PagesMatch(h: Heap, base: Page, used: seq<bool>, others: seq<bool>) {
    && |others| == |used|
    && (forall q :: q in h.arenas ==> base <= q && q + PageCnt(h.arenas[q]) <= base + |used|)
    && (forall i :: 0 <= i < |used| ==>
          (used[i] <==> others[i] || Claimed(h, base + i)) && !(others[i] && Claimed(h, base + i)))
  }

  lemma ClaimedSame(h: Heap, h': Heap)
    requires h'.arenas.Keys == h.arenas.Keys
    requires forall q :: q in h.arenas ==> PageCnt(h'.arenas[q]) == PageCnt(h.arenas[q])
    ensures forall p :: Claimed(h', p) <==> Claimed(h, p)
  {
    forall p: Page | Claimed(h, p) ensures Claimed(h', p) {
      var q: Page :| q in h.arenas && q <= p < q + PageCnt(h.arenas[q]);
      assert q in h'.arenas && q <= p < q + PageCnt(h'.arenas[q]);
    }
    forall p: Page | Claimed(h', p) ensures Claimed(h, p) {
      var q: Page :| q in h'.arenas && q <= p < q + PageCnt(h'.arenas[q]);
      assert q in h.arenas && q <= p < q + PageCnt(h.arenas[q]);
    }
  }

  lemma PagesSame(h: Heap, h': Heap, base: Page, used: seq<bool>, others: seq<bool>)
    requires PagesMatch(h, base, used, others)
    requires h'.arenas.Keys == h.arenas.Keys
    requires forall q :: q in h.arenas ==> PageCnt(h'.arenas[q]) == PageCnt(h.arenas[q])
    ensures PagesMatch(h', base, used, others)
  {
    ClaimedSame(h, h');
  }

  lemma FreePageUnclaimed(h: Heap, base: Page, used: seq<bool>, others: seq<bool>, x: Page)
    requires PagesMatch(h, base, used, others) && base <= x < base + |used| && !used[x - base]
    ensures forall q :: q in h.arenas ==> !(q <= x < q + PageCnt(h.arenas[q]))
  {
    var i := x - base;
    assert !used[i] && x == base + i;
    assert !Claimed(h, x);
  }

  /** Free pages belong to no arena. */
  lemma FreePagesUnclaimed(h: Heap, base: Page, used: seq<bool>, others: seq<bool>, p: Page, n: nat)
    requires PagesMatch(h, base, used, others) && p >= base && AllAre(used, p - base, n, false) && n > 0
    requires forall q :: q in h.arenas ==> PageCnt(h.arenas[q]) > 0
    ensures p !in h.arenas && Unclaimed(h, p, n)
  {
    forall q | q in h.arenas ensures q + PageCnt(h.arenas[q]) <= p || p + n <= q {
      if q < p + n && p < q + PageCnt(h.arenas[q]) {
        FreePageUnclaimed(h, base, used, others, if q < p then p else q);
      }
    }
  }

  lemma ClaimedAfter(h: Heap, p: Page, a: Arena, x: Page)
    requires p !in h.arenas
    ensures Claimed(WithArena(h, p, a), x) <==> Claimed(h, x) || p <= x < p + PageCnt(a)
  {
    var h' := WithArena(h, p, a);
    if Claimed(h, x) {
      var q: Page :| q in h.arenas && q <= x < q + PageCnt(h.arenas[q]);
      assert q in h'.arenas && q <= x < q + PageCnt(h'.arenas[q]);
    }
    if p <= x < p + PageCnt(a) { assert p in h'.arenas && p <= x < p + PageCnt(h'.arenas[p]); }
  }

  lemma PagesAdded(h: Heap, base: Page, used: seq<bool>, others: seq<bool>, p: Page, a: Arena)
    requires PagesMatch(h, base, used, others) && p >= base && p !in h.arenas
    requires AllAre(used, p - base, PageCnt(a), false)
    ensures PagesMatch(WithArena(h, p, a), base, Filled(used, p - base, PageCnt(a), true), others)
  {
    var h', used' := WithArena(h, p, a), Filled(used, p - base, PageCnt(a), true);
    forall i | 0 <= i < |used'|
      ensures (used'[i] <==> others[i] || Claimed(h', base + i)) && !(others[i] && Claimed(h', base + i))
    {
      ClaimedAfter(h, p, a, base + i);
      assert used[i] <==> others[i] || Claimed(h, base + i);
    }
  }

  lemma DropClaim(h: Heap, h': Heap, p: Page, x: Page)
    requires p in h.arenas && Apart(h) && h'.arenas == h.arenas - {p}
    ensures Claimed(h, x) <==> Claimed(h', x) || p <= x < p + PageCnt(h.arenas[p])
    ensures Claimed(h', x) ==> !(p <= x < p + PageCnt(h.arenas[p]))
  {
    ClaimedAfter(h', p, h.arenas[p], x);
    var h1 := WithArena(h', p, h.arenas[p]);
    assert h1.arenas == h.arenas;
    ClaimedSame(h, h1);
    if Claimed(h', x) {
      var q: Page :| q in h'.arenas && q <= x < q + PageCnt(h'.arenas[q]);
      assert p < q ==> p + PageCnt(h.arenas[p]) <= q;
      assert q < p ==> q + PageCnt(h.arenas[q]) <= p;
    }
  }

  lemma PagesDropped(h: Heap, base: Page, used: seq<bool>, others: seq<bool>, p: Page, h': Heap)
    requires PagesMatch(h, base, used, others) && p in h.arenas && Apart(h) && h'.arenas == h.arenas - {p}
    ensures InUse(base, used, p, PageCnt(h.arenas[p]))
    ensures PagesMatch(h', base, Filled(used, p - base, PageCnt(h.arenas[p]), false), others)
  {
    var n := PageCnt(h.arenas[p]);
    var used' := Filled(used, p - base, n, false);
    forall i | 0 <= i < |used|
      ensures p <= base + i < p + n ==> used[i]
      ensures (used'[i] <==> others[i] || Claimed(h', base + i)) && !(others[i] && Claimed(h', base + i))
    {
      assert used[i] <==> others[i] || Claimed(h, base + i);
      DropClaim(h, h', p, base + i);
    }
  }

  /** Once every block has been given back every page has been. */
  lemma AllReturned(h: Heap, base: Page, used: seq<bool>, others: seq<bool>)
    requires Core(h, {}) && NoneEmpty(h) && PagesMatch(h, base, used, others)
    ensures h.arenas == map[] && used == others
  {
    forall p | p in h.arenas ensures false {
      assert ArenaOk(h, p) && LiveOk(h, {}, p) && Occupied(h, p);
      if h.arenas[p].Small? {
        var d := h.arenas[p].desc;
        assert FreeIn(h.descs[d].freeList, p, SizeOf(d)) == Blocks(p, SizeOf(d));
        BlockCount(p, SizeOf(d));
      }
    }
  }

  // ----- blocks in use stay as they are -----

  /** The blocks in use are where they were and as big as they were. */
  ghost predicate SameBlocks(h: Heap, live: set<Addr>, h': Heap) {
    forall a :: a in live ==> PageOf(a) in h.arenas && PageOf(a) in h'.arenas && Capacity(h', a) == Capacity(h, a)
  }

  lemma SameBlocksNow(h: Heap, live: set<Addr>)
    requires Core(h, live)
    ensures SameBlocks(h, live, h)
  {
    forall a | a in live ensures PageOf(a) in h.arenas { assert AddrOk(h, a); }
  }

  lemma SameBlocksJoin(h: Heap, live: set<Addr>, h1: Heap, h2: Heap)
    requires SameBlocks(h, live, h1) && SameBlocks(h1, live, h2)
    ensures SameBlocks(h, live, h2)
  {
  }

  ghost predicate KeptBlock(h: Heap, b: Addr, mem: seq<Byte>, mem': seq<Byte>)
    requires |mem'| == |mem|
  {
    PageOf(b) in h.arenas && forall i :: b <= i < b + Capacity(h, b) && i < |mem| ==> mem'[i] == mem[i]
  }

  /** The bytes of the blocks in use are as they were. */
  ghost predicate KeptBytes(h: Heap, live: set<Addr>, mem: seq<Byte>, mem': seq<Byte>) {
    |mem'| == |mem| && forall b :: b in live ==> KeptBlock(h, b, mem, mem')
  }

  lemma KeptJoin(h: Heap, h': Heap, live: set<Addr>, mem: seq<Byte>, mem1: seq<Byte>, mem2: seq<Byte>)
    requires KeptBytes(h, live, mem, mem1) && KeptBytes(h', live, mem1, mem2) && SameBlocks(h, live, h')
    ensures KeptBytes(h', live, mem, mem2)
  {
    forall b | b in live ensures KeptBlock(h', b, mem, mem2) {
      assert KeptBlock(h, b, mem, mem1) && KeptBlock(h', b, mem1, mem2);
    }
  }

  lemma InMemory(h: Heap, live: set<Addr>, base: Page, used: seq<bool>, others: seq<bool>, a: Addr)
    requires Core(h, live) && PagesMatch(h, base, used, others) && a in live
    ensures PageOf(a) in h.arenas && a + Capacity(h, a) <= (base + |used|) * PGSIZE
  {
    BlockInside(h, live, a);
  }

  lemma PageCntPositive(h: Heap, live: set<Addr>)
    requires Core(h, live)
    ensures forall q :: q in h.arenas ==> PageCnt(h.arenas[q]) > 0
  {
    forall q | q in h.arenas ensures PageCnt(h.arenas[q]) > 0 { assert ArenaOk(h, q); }
  }

  lemma AddArenaOccupied(h: Heap, p: Page, a: Arena)
    requires NoneEmpty(h) && a.Big?
    ensures NoneEmpty(WithArena(h, p, a))
  {
    var h' := WithArena(h, p, a);
    forall q | q in h'.arenas ensures Occupied(h', q) {
      if q != p { assert Occupied(h, q); }
    }
  }

  lemma CarvedFirst(h: Heap, live: set<Addr>, d: nat, p: Page)
    requires Core(h, live) && NoneEmpty(h) && d < DESC_CNT && p !in h.arenas
    ensures Carved(h, d, p).descs[d].freeList != [] && PageOf(Carved(h, d, p).descs[d].freeList[0]) == p
    ensures forall q :: q in Carved(h, d, p).arenas && q != p ==> Occupied(Carved(h, d, p), q)
    ensures SameBlocks(h, live, Carved(h, d, p))
  {
    var h' := Carved(h, d, p);
    BlockFits(p, SizeOf(d), 0);
    forall q | q in h'.arenas && q != p ensures Occupied(h', q) { assert Occupied(h, q); }
    forall a | a in live ensures PageOf(a) in h.arenas && PageOf(a) in h'.arenas && Capacity(h', a) == Capacity(h, a) {
      assert AddrOk(h, a);
    }
  }

  /** Every arena has a block in use, but for that of the first free block of `d`. */
  ghost predicate OccupiedButFirst(h: Heap, d: nat)
    requires DescsOk(h) && d < DESC_CNT
  {
    h.descs[d].freeList != [] && forall q :: q in h.arenas && q != PageOf(h.descs[d].freeList[0]) ==> Occupied(h, q)
  }

  lemma CarveReady(h: Heap, live: set<Addr>, base: Page, used: seq<bool>, others: seq<bool>, d: nat, p: Page)
    requires Core(h, live) && NoneEmpty(h) && PagesMatch(h, base, used, others)
    requires d < DESC_CNT && h.descs[d].freeList == [] && p >= base && AllAre(used, p - base, 1, false)
    ensures Core(Carved(h, d, p), live) && SameBlocks(h, live, Carved(h, d, p))
    ensures PagesMatch(Carved(h, d, p), base, Filled(used, p - base, 1, true), others)
    ensures OccupiedButFirst(Carved(h, d, p), d)
  {
    PageCntPositive(h, live);
    FreePagesUnclaimed(h, base, used, others, p, 1);
    CarveKeeps(h, live, d, p);
    var a := Small(d, BlocksPerArena(SizeOf(d)));
    PagesAdded(h, base, used, others, p, a);
    PagesSame(WithArena(h, p, a), Carved(h, d, p), base, Filled(used, p - base, 1, true), others);
    CarvedFirst(h, live, d, p);
  }

  lemma BigReady(h: Heap, live: set<Addr>, base: Page, used: seq<bool>, others: seq<bool>, p: Page, n: nat)
    requires Core(h, live) && NoneEmpty(h) && PagesMatch(h, base, used, others)
    requires n > 0 && p >= base && AllAre(used, p - base, n, false)
    ensures BigBlock(p) !in live && PageOf(BigBlock(p)) == p
    ensures Capacity(WithArena(h, p, Big(n)), BigBlock(p)) == n * PGSIZE - HEADER
    ensures Core(WithArena(h, p, Big(n)), live + {BigBlock(p)}) && NoneEmpty(WithArena(h, p, Big(n)))
    ensures PagesMatch(WithArena(h, p, Big(n)), base, Filled(used, p - base, n, true), others)
    ensures SameBlocks(h, live, WithArena(h, p, Big(n)))
  {
    PageCntPositive(h, live);
    FreePagesUnclaimed(h, base, used, others, p, n);
    AddBigKeeps(h, live, p, n);
    PagesAdded(h, base, used, others, p, Big(n));
    AddArenaOccupied(h, p, Big(n));
    forall a | a in live ensures PageOf(a) in h.arenas && PageOf(a) != p { assert AddrOk(h, a); }
  }

  lemma ReplaceSets(live0: set<Addr>, live: set<Addr>, a: Addr, b: Addr)
    requires a in live0 && b !in live0 && live == live0 + {b} - {a}
    ensures live == live0 - {a} + {b} && live - {b} == live0 - {a}
  {
  }

  function Given(a: Option<Addr>): set<Addr> { if a.Some? then {a.value} else {} }

  /** The first `n` bytes at `to` are those that were at `from`. */
  ghost predicate Moved(mem: seq<Byte>, from: Addr, to: Addr, n: nat, mem': seq<Byte>) {
    && from + n <= |mem| && to + n <= |mem| && |mem'| == |mem|
    && forall i :: to <= i < to + n ==> mem'[i] == mem[from + (i - to)]
  }

  /** memcpy of `n` bytes. */
  function Copying(mem: seq<Byte>, from: Addr, to: Addr, n: nat): (r: seq<Byte>)
    requires from + n <= |mem| && to + n <= |mem|
    ensures |r| == |mem|
    ensures forall i :: 0 <= i < |mem| ==> r[i] == if to <= i < to + n then mem[from + (i - to)] else mem[i]
  {
    seq(|mem|, i requires 0 <= i < |mem| => if to <= i < to + n then mem[from + (i - to)] else mem[i])
  }

  lemma KeptApart(h: Heap, b: Addr, mem: seq<Byte>, mem': seq<Byte>, to: Addr, n: nat)
    requires |mem'| == |mem| && PageOf(b) in h.arenas && (b + Capacity(h, b) <= to || to + n <= b)
    requires forall i :: 0 <= i < |mem| && !(to <= i < to + n) ==> mem'[i] == mem[i]
    ensures KeptBlock(h, b, mem, mem')
  {
  }

  /** Whoever writes only inside a block in use leaves the others alone. */
  lemma KeptOutside(h: Heap, live: set<Addr>, mem: seq<Byte>, mem': seq<Byte>, to: Addr, n: nat)
    requires Core(h, live) && to in live && PageOf(to) in h.arenas && n <= Capacity(h, to) && |mem'| == |mem|
    requires forall i :: 0 <= i < |mem| && !(to <= i < to + n) ==> mem'[i] == mem[i]
    ensures KeptBytes(h, live - {to}, mem, mem')
  {
    forall b | b in live - {to} ensures KeptBlock(h, b, mem, mem') {
      EitherApart(h, live, to, b);
      KeptApart(h, b, mem, mem', to, n);
    }
  }

  lemma CopyKept(h: Heap, live: set<Addr>, base: Page, used: seq<bool>, others: seq<bool>, from: Addr, to: Addr,
                 n: nat, mem: seq<Byte>)
    requires Core(h, live) && PagesMatch(h, base, used, others) && (base + |used|) * PGSIZE <= |mem|
    requires from in live && PageOf(from) in h.arenas && n <= Capacity(h, from)
    requires to in live && PageOf(to) in h.arenas && n <= Capacity(h, to)
    ensures from + n <= |mem| && to + n <= |mem|
    ensures Moved(mem, from, to, n, Copying(mem, from, to, n))
    ensures KeptBytes(h, live - {to}, mem, Copying(mem, from, to, n))
  {
    InMemory(h, live, base, used, others, from);
    InMemory(h, live, base, used, others, to);
    KeptOutside(h, live, mem, Copying(mem, from, to, n), to, n);
  }

  lemma KeptAll(h: Heap, live: set<Addr>, live': set<Addr>, mem: seq<Byte>)
    requires Core(h, live) && live' <= live
    ensures KeptBytes(h, live', mem, mem) && SameBlocks(h, live', h)
  {
    forall b | b in live' ensures KeptBlock(h, b, mem, mem) { assert AddrOk(h, b); }
  }

  lemma MoveKept(h: Heap, h': Heap, live: set<Addr>, mem: seq<Byte>, mem1: seq<Byte>, mem2: seq<Byte>, from: Addr,
                 to: Addr, n: nat)
    requires Moved(mem, from, to, n, mem1) && to in live && PageOf(to) in h.arenas && n <= Capacity(h, to)
    requires KeptBytes(h, live - {to}, mem, mem1) && SameBlocks(h, live, h') && KeptBytes(h', live, mem1, mem2)
    ensures Moved(mem, from, to, n, mem2) && KeptBytes(h', live - {to}, mem, mem2)
  {
    assert KeptBlock(h', to, mem1, mem2);
    KeptJoin(h, h', live - {to}, mem, mem1, mem2);
  }

  lemma PushReady(h: Heap, live: set<Addr>, base: Page, used: seq<bool>, others: seq<bool>, a: Addr, mem: seq<Byte>)
    requires Core(h, live) && NoneEmpty(h) && PagesMatch(h, base, used, others) && (base + |used|) * PGSIZE <= |mem|
    requires a in live && PageOf(a) in h.arenas && h.arenas[PageOf(a)].Small?
    ensures h.arenas[PageOf(a)].desc < DESC_CNT && a + SizeOf(h.arenas[PageOf(a)].desc) <= |mem|
    ensures Core(Pushed(h, a), live - {a}) && PagesMatch(Pushed(h, a), base, used, others)
    ensures forall q :: q in Pushed(h, a).arenas && q != PageOf(a) ==> Occupied(Pushed(h, a), q)
    ensures SameBlocks(h, live - {a}, Pushed(h, a))
    ensures KeptBytes(Pushed(h, a), live - {a}, mem, Filling(mem, a, SizeOf(h.arenas[PageOf(a)].desc), 0xcc))
  {
    assert AddrOk(h, a);
    PushKeeps(h, live, a);
    BlockInside(h, live, a);
    PagesSame(h, Pushed(h, a), base, used, others);
    forall q | q in Pushed(h, a).arenas && q != PageOf(a) ensures Occupied(Pushed(h, a), q) { assert Occupied(h, q); }
    forall b | b in live - {a}
      ensures PageOf(b) in h.arenas && PageOf(b) in Pushed(h, a).arenas && Capacity(Pushed(h, a), b) == Capacity(h, b)
      ensures KeptBlock(Pushed(h, a), b, mem, Filling(mem, a, SizeOf(h.arenas[PageOf(a)].desc), 0xcc))
    {
      EitherApart(h, live, a, b);
    }
  }

  /** Filling an arena's pages changes no block in another arena. */
  lemma PagesKept(h: Heap, live: set<Addr>, p: Page, b: Addr, h': Heap, mem: seq<Byte>, v: Byte)
    requires Core(h, live) && p in h.arenas && b in live && PageOf(b) != p && h'.arenas == h.arenas - {p}
    requires (p + PageCnt(h.arenas[p])) * PGSIZE <= |mem|
    ensures PageOf(b) in h.arenas && PageOf(b) in h'.arenas && Capacity(h', b) == Capacity(h, b)
    ensures KeptBlock(h', b, mem, Filling(mem, p * PGSIZE, PageCnt(h.arenas[p]) * PGSIZE, v))
  {
    BlockInside(h, live, b);
    var q: Page := PageOf(b);
    if q < p {
      assert q + PageCnt(h.arenas[q]) <= p;
    } else {
      assert p + PageCnt(h.arenas[p]) <= q;
    }
  }

  /** `list` holds what is left of `before` when `gone` have been taken off it. */
  ghost predicate LeftAfter(before: seq<Addr>, gone: seq<Addr>, list: seq<Addr>) {
    Distinct(list) && forall a :: a in list <==> a in before && a !in gone
  }

  lemma DropReady(h: Heap, live: set<Addr>, base: Page, used: seq<bool>, others: seq<bool>, p: Page, list: seq<Addr>,
                  mem: seq<Byte>)
    requires Core(h, live) && PagesMatch(h, base, used, others) && (base + |used|) * PGSIZE <= |mem|
    requires p in h.arenas && h.arenas[p].Small? && h.arenas[p].desc < DESC_CNT
    requires forall q :: q in h.arenas && q != p ==> Occupied(h, q)
    requires var d := h.arenas[p].desc;
      && FreeIn(h.descs[d].freeList, p, SizeOf(d)) == Blocks(p, SizeOf(d))
      && LeftAfter(h.descs[d].freeList, BlockSeq(p, SizeOf(d), BlocksPerArena(SizeOf(d))), list)
    ensures Core(Dropped(h, p, list), live) && NoneEmpty(Dropped(h, p, list))
    ensures InUse(base, used, p, 1) && PagesMatch(Dropped(h, p, list), base, Filled(used, p - base, 1, false), others)
    ensures SameBlocks(h, live, Dropped(h, p, list)) && (p + 1) * PGSIZE <= |mem|
    ensures KeptBytes(Dropped(h, p, list), live, mem, Filling(mem, p * PGSIZE, PGSIZE, 0xcc))
  {
    var d, h' := h.arenas[p].desc, Dropped(h, p, list);
    DropKeeps(h, live, p, list);
    PagesDropped(h, base, used, others, p, h');
    forall q | q in h'.arenas ensures Occupied(h', q) { assert Occupied(h, q); }
    forall b | b in live ensures PageOf(b) != p {
      assert AddrOk(h, b) && AddrOk(h', b);
    }
    forall b | b in live
      ensures PageOf(b) in h.arenas && PageOf(b) in h'.arenas && Capacity(h', b) == Capacity(h, b)
      ensures KeptBlock(h', b, mem, Filling(mem, p * PGSIZE, PGSIZE, 0xcc))
    {
      PagesKept(h, live, p, b, h', mem, 0xcc);
    }
  }

  lemma DropBigReady(h: Heap, live: set<Addr>, base: Page, used: seq<bool>, others: seq<bool>, p: Page, mem: seq<Byte>)
    requires Core(h, live) && NoneEmpty(h) && PagesMatch(h, base, used, others) && (base + |used|) * PGSIZE <= |mem|
    requires p in h.arenas && h.arenas[p].Big?
    ensures var h', n := h.(arenas := h.arenas - {p}), h.arenas[p].pageCnt;
      && Core(h', live - {BigBlock(p)}) && NoneEmpty(h')
      && InUse(base, used, p, n) && PagesMatch(h', base, Filled(used, p - base, n, false), others)
      && SameBlocks(h, live - {BigBlock(p)}, h') && (p + n) * PGSIZE <= |mem|
      && KeptBytes(h', live - {BigBlock(p)}, mem, Filling(mem, p * PGSIZE, n * PGSIZE, 0xcc))
  {
    var h', n, live' := h.(arenas := h.arenas - {p}), h.arenas[p].pageCnt, live - {BigBlock(p)};
    DropBigKeeps(h, live, p);
    PagesDropped(h, base, used, others, p, h');
    forall q | q in h'.arenas ensures Occupied(h', q) { assert Occupied(h, q); }
    forall b | b in live'
      ensures PageOf(b) in h.arenas && PageOf(b) in h'.arenas && Capacity(h', b) == Capacity(h, b)
      ensures KeptBlock(h', b, mem, Filling(mem, p * PGSIZE, n * PGSIZE, 0xcc))
    {
      assert AddrOk(h', b);
      PagesKept(h, live, p, b, h', mem, 0xcc);
    }
  }

  /** `s` without its first `x`. */
  function Without(s: seq<Addr>, x: Addr): seq<Addr> {
    if s == [] then [] else if s[0] == x then s[1..] else [s[0]] + Without(s[1..], x)
  }

  lemma {:induction false} WithoutMembers(s: seq<Addr>, x: Addr)
    requires Distinct(s)
    ensures Distinct(Without(s, x)) && forall y :: y in Without(s, x) <==> y in s && y != x
  {
    if s != [] {
      WithoutMembers(s[1..], x);
      assert s == [s[0]] + s[1..];
      var r := Without(s[1..], x);
      forall k | 0 <= k < |r| ensures r[k] != s[0] {
        assert r[k] in r;
        assert r[k] in s[1..];
      }
    }
  }

  lemma RemoveOne(before: seq<Addr>, gone: seq<Addr>, list: seq<Addr>, a: Addr)
    requires LeftAfter(before, gone, list)
    ensures LeftAfter(before, gone + [a], Without(list, a))
  {
    WithoutMembers(list, a);
  }

  lemma PopSame(h: Heap, live: set<Addr>, d: nat)
    requires Core(h, live) && d < DESC_CNT && h.descs[d].freeList != []
    requires PageOf(h.descs[d].freeList[0]) in h.arenas && h.arenas[PageOf(h.descs[d].freeList[0])].Small?
    requires h.arenas[PageOf(h.descs[d].freeList[0])].freeCnt > 0
    ensures SameBlocks(h, live, Popped(h, d))
  {
    PopReady(h, live, d);
    forall a | a in live
      ensures PageOf(a) in h.arenas && PageOf(a) in Popped(h, d).arenas && Capacity(Popped(h, d), a) == Capacity(h, a)
    {
      assert AddrOk(h, a);
    }
  }

  // ----- the allocator -----

  const SIZE_LIMIT: nat := 0x1_0000_0000

  /** The largest request whose sum with the header does not wrap round. */
  const MAX_REQUEST: nat := SIZE_LIMIT - HEADER - 1

  /** DIV_ROUND_UP (size + sizeof *a, PGSIZE) in 32-bit arithmetic. */
  function BigPages(size: nat): nat {
    ((size + HEADER) % SIZE_LIMIT + PGSIZE - 1) % SIZE_LIMIT / PGSIZE
  }

  /** The pages are enough for the request exactly when the sum does not wrap. */
  lemma BigEnough(size: nat)
    requires 0 < size < SIZE_LIMIT && BigPages(size) > 0
    ensures size <= BigPages(size) * PGSIZE - HEADER <==> size <= MAX_REQUEST
  {
  }

  /** `n` pages are the fewest that hold a request and the header of 12 bytes. */
  predicate LeastPages(size: nat, n: nat) { (n - 1) * 4096 < size + 12 <= n * 4096 }

  /** The sizes for which the sum with the header and the rounding stays in range. */
  predicate InRange(size: nat) { size + HEADER + PGSIZE - 1 < SIZE_LIMIT }

  /** A big request is for the fewest pages that hold it, while the sums stay in range. Beyond that it is for no page
      at all, and for one page once its sum with the header wraps. */
  lemma BigPagesIs(size: nat)
    requires 0 < size < SIZE_LIMIT
    ensures InRange(size) ==> BigPages(size) > 0 && LeastPages(size, BigPages(size))
    ensures BigPages(size) == 0 <==> SIZE_LIMIT - HEADER - PGSIZE < size <= SIZE_LIMIT - HEADER
    ensures size > SIZE_LIMIT - HEADER ==> BigPages(size) == 1
  {
  }

  lemma LeastPagesUnique(size: nat, m: nat, n: nat)
    requires LeastPages(size, m) && LeastPages(size, n)
    ensures m == n
  {
  }

  /** An arena counts at most all of its blocks, and all of them only if they are all free. */
  lemma FreeAtMost(h: Heap, p: Page)
    requires DescsOk(h) && p in h.arenas && h.arenas[p].Small? && ArenaOk(h, p)
    ensures h.arenas[p].freeCnt <= BlocksPerArena(SizeOf(h.arenas[p].desc))
    ensures h.arenas[p].freeCnt == BlocksPerArena(SizeOf(h.arenas[p].desc)) ==>
      FreeIn(h.descs[h.arenas[p].desc].freeList, p, SizeOf(h.arenas[p].desc)) == Blocks(p, SizeOf(h.arenas[p].desc))
  {
    var d := h.arenas[p].desc;
    var f, b := FreeIn(h.descs[d].freeList, p, SizeOf(d)), Blocks(p, SizeOf(d));
    BlockCount(p, SizeOf(d));
    SubsetSize(f, b);
    SubsetSize(b - f, b);
    assert |b - f| == |b| - |f|;
  }

  /** Popping leaves no arena without a block in use, if at most the popped block's had none. */
  lemma PopOccupies(h: Heap, live: set<Addr>, d: nat)
    requires Core(h, live) && d < DESC_CNT && h.descs[d].freeList != []
    requires PageOf(h.descs[d].freeList[0]) in h.arenas && h.arenas[PageOf(h.descs[d].freeList[0])].Small?
    requires h.arenas[PageOf(h.descs[d].freeList[0])].freeCnt > 0
    requires forall q :: q in h.arenas && q != PageOf(h.descs[d].freeList[0]) ==> Occupied(h, q)
    ensures NoneEmpty(Popped(h, d))
  {
    PopReady(h, live, d);
    var p, h' := PageOf(h.descs[d].freeList[0]), Popped(h, d);
    FreeAtMost(h, p);
    forall q | q in h'.arenas ensures Occupied(h', q) {
      if q != p { assert Occupied(h, q); }
    }
  }

  /** The least descriptor from `d` on that satisfies a request, or none. */
  function DescFrom(d: nat, size: nat): (r: nat)
    requires d <= DESC_CNT
    ensures d <= r <= DESC_CNT && (r < DESC_CNT ==> SizeOf(r) >= size)
    ensures forall e :: d <= e < r ==> SizeOf(e) < size
    decreases DESC_CNT - d
  {
    if d == DESC_CNT || SizeOf(d) >= size then d else DescFrom(d + 1, size)
  }

  /** The bytes that a request gets. */
  function Granted(size: nat): int {
    var d := DescFrom(0, size);
    if d < DESC_CNT then SizeOf(d) else BigPages(size) * PGSIZE - HEADER
  }

  /** A request of which the sum with the header wraps round gets one page if it gets anything. */
  lemma WrappedRequest(size: nat)
    requires MAX_REQUEST < size < SIZE_LIMIT
    ensures DescFrom(0, size) == DESC_CNT && BigPages(size) <= 1
    ensures BigPages(size) == 1 ==> Granted(size) == ROOM < size
    ensures BigPages(SIZE_LIMIT - 1) == 1
  {
    var d := DescFrom(0, size);
    assert d < DESC_CNT ==> SizeOf(d) <= 1024;
  }

  /** The memcpy of realloc writes past the end of the new block. */
  predicate CopyOverruns(size: nat, oldSize: nat) { size > MAX_REQUEST && oldSize > ROOM }

  /** It does so exactly when as many bytes as both sizes have are more than the new block got; for
      instance when a block of two pages is to get all bytes but one of the address space. */
  lemma OverrunIff(size: nat, oldSize: nat)
    requires 0 < size < SIZE_LIMIT && (DescFrom(0, size) < DESC_CNT || BigPages(size) > 0)
    ensures Least(size, oldSize) > Granted(size) <==> CopyOverruns(size, oldSize)
    ensures CopyOverruns(SIZE_LIMIT - 1, 2 * PGSIZE - HEADER)
  {
    if size > MAX_REQUEST {
      WrappedRequest(size);
    } else if DescFrom(0, size) == DESC_CNT {
      BigEnough(size);
    }
  }

  /** A small request gets a block of the least of the sizes 16, 32, up to 1024 that holds it. */
  lemma SmallGrant(size: nat)
    requires 0 < size <= 1024
    ensures DescFrom(0, size) < DESC_CNT && size <= Granted(size) <= 1024
    ensures Granted(size) == 16 || Granted(size) < 2 * size
  {
    var d := DescFrom(0, size);
    assert SizeOf(6) == 1024;
    if d > 0 { assert SizeOf(d - 1) < size; }
  }

  lemma BigGrant(size: nat)
    requires 1024 < size < SIZE_LIMIT
    ensures DescFrom(0, size) == DESC_CNT && Granted(size) == BigPages(size) * PGSIZE - HEADER
    ensures InRange(size) ==> size <= Granted(size) < size + PGSIZE
  {
    var d := DescFrom(0, size);
    assert d < DESC_CNT ==> SizeOf(d) <= 1024;
    BigPagesIs(size);
  }

  /** A request cannot be satisfied: no block of its size is free and there are no pages for more. */
  ghost predicate OutOfMemory(h: Heap, used: seq<bool>, size: nat)
    requires DescsOk(h)
  {
    var d := DescFrom(0, size);
    if d < DESC_CNT then h.descs[d].freeList == [] && FirstGroup(used, 0, 1, false, None)
    else BigPages(size) == 0 || FirstGroup(used, 0, BigPages(size), false, None)
  }

  /** Which requests above the largest small block fail: those for which the fewest pages that hold them are not
      free in one group, and those just below the wrap, whatever is free. */
  ghost predicate BigFails(used: seq<bool>, size: nat, fails: bool) {
    && (InRange(size) ==> forall n: nat :: LeastPages(size, n) ==> (fails <==> FirstGroup(used, 0, n, false, None)))
    && (SIZE_LIMIT - HEADER - PGSIZE < size <= SIZE_LIMIT - HEADER ==> fails)
    && (size > SIZE_LIMIT - HEADER ==> (fails <==> FirstGroup(used, 0, 1, false, None)))
  }

  lemma BigFailsIs(h: Heap, used: seq<bool>, size: nat)
    requires DescsOk(h) && 1024 < size < SIZE_LIMIT
    ensures BigFails(used, size, OutOfMemory(h, used, size))
  {
    BigGrant(size);
    BigPagesIs(size);
    if InRange(size) {
      forall n: nat | LeastPages(size, n) ensures n == BigPages(size) { LeastPagesUnique(size, n, BigPages(size)); }
    }
  }

  /** The `n` bytes at `a` have been overwritten. */
  ghost predicate Scrubbed(mem: seq<Byte>, a: Addr, n: nat) {
    a + n <= |mem| && forall i :: a <= i < a + n ==> mem[i] == 0xcc
  }

  /** Nothing that was overwritten has become anything else. */
  ghost predicate StaysScrubbed(mem: seq<Byte>, mem': seq<Byte>) {
    |mem'| == |mem| && forall i :: 0 <= i < |mem| && mem[i] == 0xcc ==> mem'[i] == 0xcc
  }

  lemma ScrubbedBig(mem: seq<Byte>, p: Page, n: nat)
    requires n > 0 && (p + n) * PGSIZE <= |mem|
    ensures Scrubbed(Filling(mem, p * PGSIZE, n * PGSIZE, 0xcc), BigBlock(p), n * PGSIZE - HEADER)
  {
  }

  class Allocator {
    const pages: PageAllocator

    var descs: seq<Desc>
    var arenas: map<Page, Arena>
    ghost var live: set<Addr>
    ghost var others: seq<bool>

    ghost function View(): Heap
      reads this
    {
      Heap(descs, arenas)
    }

    ghost predicate Valid()
      reads this, pages, pages.kernelPool.usedMap, pages.kernelPool.usedMap.bits,
            pages.userPool.usedMap, pages.userPool.usedMap.bits
    {
      && pages.Valid()
      && Core(View(), live) && NoneEmpty(View())
      && PagesMatch(View(), pages.kernelPool.base, pages.kernelPool.Used(), others)
    }

    /** No block is in use, and the pages in use are other callers'. */
    constructor (pages: PageAllocator)
      requires pages.Valid()
      ensures Valid() && this.pages == pages && live == {} && others == pages.kernelPool.Used()
    {
      this.pages := pages;
      descs, arenas, live, others := [], map[], {}, pages.kernelPool.Used();
      new;
      var blockSize := 16;
      while blockSize < PGSIZE / 2
        invariant |descs| <= DESC_CNT && (|descs| < DESC_CNT ==> blockSize == SizeOf(|descs|))
        invariant blockSize >= PGSIZE / 2 ==> |descs| == DESC_CNT
        invariant |descs| == DESC_CNT ==> blockSize >= PGSIZE / 2
        invariant forall d :: 0 <= d < |descs| ==> descs[d] == Desc(SizeOf(d), [])
        invariant arenas == map[] && live == {} && others == pages.kernelPool.Used() && pages.Valid()
        decreases PGSIZE - blockSize
      {
        descs := descs + [Desc(blockSize, [])];
        blockSize := blockSize * 2;
      }
    }

    /** The smallest descriptor that satisfies a request, if any does. */
    method FindDesc(size: nat) returns (d: nat)
      requires DescsOk(View())
      ensures d == DescFrom(0, size)
    {
      d := 0;
      while d < |descs|
        invariant d <= DESC_CNT && DescFrom(d, size) == DescFrom(0, size)
      {
        if descs[d].blockSize >= size { return; }
        d := d + 1;
      }
    }

    /** Whole pages for a request too big for any descriptor. */
    method GetBig(cnt: nat) returns (r: Option<Addr>)
      requires Valid()
      modifies this, pages, pages.kernelPool.usedMap, pages.kernelPool.usedMap.bits,
               pages.userPool.usedMap, pages.userPool.usedMap.bits
      ensures Valid() && pages.mem == old(pages.mem) && others == old(others)
      ensures r.None? ==> live == old(live) && View() == old(View())
      ensures r.None? <==> cnt == 0 || FirstGroup(old(pages.kernelPool.Used()), 0, cnt, false, None)
      ensures r.Some? ==> cnt > 0 && r.value !in old(live) && live == old(live) + {r.value}
      ensures r.Some? ==> PageOf(r.value) in arenas && Capacity(View(), r.value) == cnt * PGSIZE - HEADER
      ensures r.Some? ==> SameBlocks(old(View()), old(live), View())
    {
      var p, _ := pages.GetMultiple(false, false, false, cnt);
      if p.None? { return None; }
      ghost var h, base, used := View(), pages.kernelPool.base, old(pages.kernelPool.Used());
      BigReady(h, live, base, used, others, p.value, cnt);
      arenas := arenas[p.value := Big(cnt)];
      live := live + {BigBlock(p.value)};
      assert View() == WithArena(h, p.value, Big(cnt));
      return Some(BigBlock(p.value));
    }

    /** All that holds between calls, but for the arena of the first free block of `d`, which may have no
        block in use yet. */
    ghost predicate Ready(d: nat)
      reads this, pages, pages.kernelPool.usedMap, pages.kernelPool.usedMap.bits,
            pages.userPool.usedMap, pages.userPool.usedMap.bits
    {
      && pages.Valid() && d < DESC_CNT && Core(View(), live)
      && PagesMatch(View(), pages.kernelPool.base, pages.kernelPool.Used(), others)
      && OccupiedButFirst(View(), d)
    }

    /** Puts the blocks of a new arena on the free list, one by one. */
    method AddBlocks(d: nat, p: Page, blockSize: nat, n: nat)
      requires d < |descs| && descs[d].freeList == []
      modifies this`descs
      ensures descs == old(descs)[d := old(descs)[d].(freeList := BlockSeq(p, blockSize, n))]
    {
      var i := 0;
      assert old(descs)[d := old(descs)[d].(freeList := BlockSeq(p, blockSize, 0))] == descs;
      while i < n
        invariant i <= n && descs == old(descs)[d := old(descs)[d].(freeList := BlockSeq(p, blockSize, i))]
      {
        descs := descs[d := descs[d].(freeList := descs[d].freeList + [Block(p, blockSize, i)])];
        i := i + 1;
        assert descs[d].freeList == BlockSeq(p, blockSize, i);
      }
    }

    /** The arena of page `p`, which was free in `used`, with all of its blocks on the free list of `d`. */
    method InstallArena(d: nat, p: Page, ghost used: seq<bool>)
      requires pages.Valid() && Core(View(), live) && NoneEmpty(View()) && d < DESC_CNT && descs[d].freeList == []
      requires PagesMatch(View(), pages.kernelPool.base, used, others)
      requires p >= pages.kernelPool.base && AllAre(used, p - pages.kernelPool.base, 1, false)
      requires pages.kernelPool.Used() == Filled(used, p - pages.kernelPool.base, 1, true)
      modifies this
      ensures Ready(d) && SameBlocks(old(View()), live, View()) && others == old(others) && live == old(live)
    {
      ghost var h := View();
      CarveReady(h, live, pages.kernelPool.base, used, others, d, p);
      var blockSize := descs[d].blockSize;
      var n := BlocksPerArena(blockSize);
      arenas := arenas[p := Small(d, n)];
      AddBlocks(d, p, blockSize, n);
      assert View() == Carved(h, d, p);
    }

    /** A new arena for descriptor `d`, whose free list is empty; false if there is no page. */
    method Carve(d: nat) returns (ok: bool)
      requires Valid() && d < DESC_CNT && descs[d].freeList == []
      modifies this, pages, pages.kernelPool.usedMap, pages.kernelPool.usedMap.bits,
               pages.userPool.usedMap, pages.userPool.usedMap.bits
      ensures pages.mem == old(pages.mem) && others == old(others) && live == old(live)
      ensures !ok ==> Valid() && View() == old(View())
      ensures !ok <==> FirstGroup(old(pages.kernelPool.Used()), 0, 1, false, None)
      ensures ok ==> Ready(d) && SameBlocks(old(View()), live, View())
    {
      ghost var used := pages.kernelPool.Used();
      var p, _ := pages.GetMultiple(false, false, false, 1);
      if p.None? { return false; }
      InstallArena(d, p.value, used);
      return true;
    }

    /** Hands out the first free block of descriptor `d`. */
    method TakeFirst(d: nat) returns (a: Addr)
      requires Ready(d)
      modifies this
      ensures Valid() && others == old(others)
      ensures a !in old(live) && live == old(live) + {a}
      ensures PageOf(a) in arenas && Capacity(View(), a) == SizeOf(d)
      ensures SameBlocks(old(View()), old(live), View())
    {
      a := descs[d].freeList[0];
      ghost var h := View();
      PopReady(h, live, d);
      PopKeeps(h, live, d);
      PopOccupies(h, live, d);
      PagesSame(h, Popped(h, d), pages.kernelPool.base, pages.kernelPool.Used(), others);
      PopSame(h, live, d);
      descs := descs[d := descs[d].(freeList := descs[d].freeList[1..])];
      arenas := arenas[PageOf(a) := arenas[PageOf(a)].(freeCnt := arenas[PageOf(a)].freeCnt - 1)];
      live := live + {a};
    }

    /** A block of descriptor `d`, from a new arena if none is free. */
    method GetSmall(d: nat) returns (r: Option<Addr>)
      requires Valid() && d < DESC_CNT
      modifies this, pages, pages.kernelPool.usedMap, pages.kernelPool.usedMap.bits,
               pages.userPool.usedMap, pages.userPool.usedMap.bits
      ensures Valid() && pages.mem == old(pages.mem) && others == old(others)
      ensures r.None? ==> live == old(live) && View() == old(View())
      ensures r.None? <==> old(descs)[d].freeList == [] && FirstGroup(old(pages.kernelPool.Used()), 0, 1, false, None)
      ensures r.Some? ==> r.value !in old(live) && live == old(live) + {r.value}
      ensures r.Some? ==> PageOf(r.value) in arenas && Capacity(View(), r.value) == SizeOf(d)
      ensures r.Some? ==> SameBlocks(old(View()), old(live), View())
    {
      if descs[d].freeList == [] {
        var ok := Carve(d);
        if !ok { return None; }
      } else {
        SameBlocksNow(View(), live);
      }
      ghost var h := View();
      var a := TakeFirst(d);
      SameBlocksJoin(old(View()), old(live), h, View());
      return Some(a);
    }

    /** A block of at least `size` bytes, if the sum with the header does not wrap; none for no bytes or when
        there are no pages, and then nothing has changed. */
    method Malloc(size: nat) returns (r: Option<Addr>)
      requires Valid() && size < SIZE_LIMIT
      modifies this, pages, pages.kernelPool.usedMap, pages.kernelPool.usedMap.bits,
               pages.userPool.usedMap, pages.userPool.usedMap.bits
      ensures Valid() && pages.mem == old(pages.mem) && others == old(others)
      ensures size == 0 ==> r.None?
      ensures r.None? ==> live == old(live) && View() == old(View())
      ensures size > 0 ==> (r.None? <==> OutOfMemory(old(View()), old(pages.kernelPool.Used()), size))
      ensures r.Some? ==> r.value !in old(live) && live == old(live) + {r.value} && PageOf(r.value) in arenas
      ensures r.Some? ==> Capacity(View(), r.value) == Granted(size) && (size <= Granted(size) <==> size <= MAX_REQUEST)
      ensures r.Some? && size <= 1024 ==>
        var cap := Capacity(View(), r.value); size <= cap <= 1024 && (cap == 16 || cap < 2 * size)
      ensures r.Some? && 1024 < size && InRange(size) ==> size <= Capacity(View(), r.value) < size + PGSIZE
      ensures 1024 < size ==> BigFails(old(pages.kernelPool.Used()), size, r.None?)
      ensures r.Some? ==> SameBlocks(old(View()), old(live), View())
    {
      if size == 0 { return None; }
      if size <= 1024 {
        SmallGrant(size);
      } else {
        BigGrant(size);
        BigFailsIs(View(), pages.kernelPool.Used(), size);
      }
      var d := FindDesc(size);
      if d == DESC_CNT {
        var cnt := BigPages(size);
        r := GetBig(cnt);
        if r.Some? { BigEnough(size); }
        return;
      }
      r := GetSmall(d);
    }

    /** Takes the blocks of an arena off the free list, one by one. */
    method RemoveBlocks(d: nat, p: Page, blockSize: nat, n: nat)
      requires d < |descs| && blockSize > 0 && n == BlocksPerArena(blockSize) && Distinct(descs[d].freeList)
      requires forall a :: a in Blocks(p, blockSize) ==> a in descs[d].freeList
      modifies this`descs
      ensures |descs| == |old(descs)| && descs == old(descs)[d := old(descs)[d].(freeList := descs[d].freeList)]
      ensures LeftAfter(old(descs)[d].freeList, BlockSeq(p, blockSize, n), descs[d].freeList)
    {
      var i := 0;
      ghost var before := descs[d].freeList;
      BlockSeqDistinct(p, blockSize, n);
      while i < n
        invariant i <= n && |descs| == |old(descs)|
        invariant descs == old(descs)[d := old(descs)[d].(freeList := descs[d].freeList)]
        invariant LeftAfter(before, BlockSeq(p, blockSize, i), descs[d].freeList)
      {
        ghost var s, t := BlockSeq(p, blockSize, i), BlockSeq(p, blockSize, n);
        var a := Block(p, blockSize, i);
        assert t[i] == a && a in Blocks(p, blockSize);
        assert forall k :: 0 <= k < i ==> s[k] == t[k];
        RemoveOne(before, s, descs[d].freeList, a);
        descs := descs[d := descs[d].(freeList := Without(descs[d].freeList, a))];
        i := i + 1;
        assert BlockSeq(p, blockSize, i) == s + [a];
      }
    }

    /** All that holds between calls, but for the arena at `p`, which may have no block in use any more. */
    ghost predicate AlmostValid(p: Page)
      reads this, pages, pages.kernelPool.usedMap, pages.kernelPool.usedMap.bits,
            pages.userPool.usedMap, pages.userPool.usedMap.bits
    {
      && pages.Valid() && Core(View(), live)
      && PagesMatch(View(), pages.kernelPool.base, pages.kernelPool.Used(), others)
      && forall q :: q in arenas && q != p ==> Occupied(View(), q)
    }

    /** Fills a block with 0xcc and puts it on its free list. */
    method PushFront(a: Addr)
      requires Valid() && a in live && PageOf(a) in arenas && arenas[PageOf(a)].Small?
      modifies this, pages
      ensures AlmostValid(PageOf(a)) && others == old(others) && live == old(live) - {a}
      ensures SameBlocks(old(View()), live, View()) && KeptBytes(View(), live, old(pages.mem), pages.mem)
      ensures PageOf(a) in arenas && arenas[PageOf(a)].Small?
      ensures Scrubbed(pages.mem, a, old(Capacity(View(), a)))
    {
      ghost var h, mem := View(), pages.mem;
      var p := PageOf(a);
      var d := arenas[p].desc;
      PushReady(h, live, pages.kernelPool.base, pages.kernelPool.Used(), others, a, mem);
      pages.mem := Filling(pages.mem, a, descs[d].blockSize, 0xcc);
      descs := descs[d := descs[d].(freeList := [a] + descs[d].freeList)];
      arenas := arenas[p := Small(d, arenas[p].freeCnt + 1)];
      live := live - {a};
      assert View() == Pushed(h, a);
    }

    /** Gives up an arena all of whose blocks are free. */
    method Dismantle(p: Page)
      requires AlmostValid(p) && p in arenas && arenas[p].Small? && arenas[p].desc < DESC_CNT
      requires arenas[p].freeCnt == BlocksPerArena(SizeOf(arenas[p].desc))
      modifies this, pages, pages.kernelPool.usedMap, pages.kernelPool.usedMap.bits,
               pages.userPool.usedMap, pages.userPool.usedMap.bits
      ensures Valid() && others == old(others) && live == old(live) && StaysScrubbed(old(pages.mem), pages.mem)
      ensures SameBlocks(old(View()), live, View()) && KeptBytes(View(), live, old(pages.mem), pages.mem)
    {
      ghost var h, mem, base, used := View(), pages.mem, pages.kernelPool.base, pages.kernelPool.Used();
      var d := arenas[p].desc;
      var blockSize := descs[d].blockSize;
      assert ArenaOk(h, p) && ListOk(h, d);
      FreeAtMost(h, p);
      RemoveBlocks(d, p, blockSize, BlocksPerArena(blockSize));
      arenas := arenas - {p};
      ghost var list := descs[d].freeList;
      assert View() == Dropped(h, p, list);
      DropReady(h, live, base, used, others, p, list, mem);
      pages.FreeMultiple(p, 1);
    }

    method FreeSmall(a: Addr)
      requires Valid() && a in live && PageOf(a) in arenas && arenas[PageOf(a)].Small?
      modifies this, pages, pages.kernelPool.usedMap, pages.kernelPool.usedMap.bits,
               pages.userPool.usedMap, pages.userPool.usedMap.bits
      ensures Valid() && others == old(others) && live == old(live) - {a}
      ensures SameBlocks(old(View()), live, View()) && KeptBytes(View(), live, old(pages.mem), pages.mem)
      ensures Scrubbed(pages.mem, a, old(Capacity(View(), a)))
    {
      var p := PageOf(a);
      PushFront(a);
      ghost var h, mem := View(), pages.mem;
      assert ArenaOk(h, p);
      FreeAtMost(h, p);
      if arenas[p].freeCnt >= BlocksPerArena(descs[arenas[p].desc].blockSize) {
        Dismantle(p);
        SameBlocksJoin(old(View()), live, h, View());
        KeptJoin(h, View(), live, old(pages.mem), mem, pages.mem);
      }
    }

    /** Gives back the pages of a big block. */
    method FreeBig(p: Page)
      requires Valid() && p in arenas && arenas[p].Big?
      modifies this, pages, pages.kernelPool.usedMap, pages.kernelPool.usedMap.bits,
               pages.userPool.usedMap, pages.userPool.usedMap.bits
      ensures Valid() && others == old(others) && live == old(live) - {BigBlock(p)}
      ensures SameBlocks(old(View()), live, View()) && KeptBytes(View(), live, old(pages.mem), pages.mem)
      ensures Scrubbed(pages.mem, BigBlock(p), old(arenas[p].pageCnt) * PGSIZE - HEADER)
    {
      ghost var h, mem := View(), pages.mem;
      var n := arenas[p].pageCnt;
      DropBigReady(h, live, pages.kernelPool.base, pages.kernelPool.Used(), others, p, mem);
      arenas := arenas - {p};
      live := live - {BigBlock(p)};
      pages.FreeMultiple(p, n);
      ScrubbedBig(mem, p, n);
    }

    /** Gives a block back; the pages of its arena too, if no block there is in use any more. The other blocks
        in use keep their place, their size and their bytes. */
    method Free(a: Option<Addr>)
      requires Valid() && (a.Some? ==> a.value in live)
      modifies this, pages, pages.kernelPool.usedMap, pages.kernelPool.usedMap.bits,
               pages.userPool.usedMap, pages.userPool.usedMap.bits
      ensures Valid() && others == old(others)
      ensures a.None? ==> live == old(live) && View() == old(View()) && pages.mem == old(pages.mem)
      ensures a.Some? ==> live == old(live) - {a.value}
      ensures a.Some? ==> PageOf(a.value) in old(arenas) && Scrubbed(pages.mem, a.value, old(Capacity(View(), a.value)))
      ensures SameBlocks(old(View()), live, View()) && KeptBytes(View(), live, old(pages.mem), pages.mem)
    {
      SameBlocksNow(View(), live);
      if a.Some? {
        var p := PageOf(a.value);
        assert AddrOk(View(), a.value);
        if arenas[p].Small? { FreeSmall(a.value); } else { FreeBig(p); }
      }
    }

    method BlockSize(a: Addr) returns (n: nat)
      requires Valid() && a in live
      ensures PageOf(a) in arenas && n == Capacity(View(), a)
    {
      assert AddrOk(View(), a) && ArenaOk(View(), PageOf(a));
      match arenas[PageOf(a)]
      case Small(d, _) => n := descs[d].blockSize;
      case Big(cnt) => n := PGSIZE * cnt - a % PGSIZE;
    }

    /** Copies the first `n` bytes of one block in use to another. */
    method CopyBlock(from: Addr, to: Addr, n: nat)
      requires Valid() && from in live && to in live && from != to
      requires PageOf(from) in arenas && PageOf(to) in arenas && n <= Capacity(View(), from)
      requires n <= Capacity(View(), to)
      modifies pages
      ensures Valid() && Moved(old(pages.mem), from, to, n, pages.mem)
      ensures KeptBytes(View(), live - {to}, old(pages.mem), pages.mem)
    {
      ghost var h, mem := View(), pages.mem;
      CopyKept(h, live, pages.kernelPool.base, pages.kernelPool.Used(), others, from, to, n, mem);
      pages.mem := Copying(pages.mem, from, to, n);
    }

    /** The second half of realloc: the old block's bytes go to the new one, and the old one is given back. */
    method MoveBlock(from: Addr, to: Addr, n: nat)
      requires Valid() && from in live && to in live && from != to && PageOf(from) in arenas && PageOf(to) in arenas
      requires n <= Capacity(View(), from) && n <= Capacity(View(), to)
      modifies this, pages, pages.kernelPool.usedMap, pages.kernelPool.usedMap.bits,
               pages.userPool.usedMap, pages.userPool.usedMap.bits
      ensures Valid() && others == old(others) && live == old(live) - {from}
      ensures SameBlocks(old(View()), live, View())
      ensures Moved(old(pages.mem), from, to, n, pages.mem)
      ensures KeptBytes(View(), live - {to}, old(pages.mem), pages.mem)
    {
      CopyBlock(from, to, n);
      ghost var h, mem := View(), pages.mem;
      Free(Some(from));
      MoveKept(h, View(), live, old(pages.mem), mem, pages.mem, from, to, n);
    }

    /** How many bytes realloc copies from one block to the new one of a size, and whether they fit there. */
    method CopyLength(from: Addr, to: Addr, size: nat) returns (n: nat, inside: bool)
      requires Valid() && from in live && to in live && PageOf(from) in arenas && PageOf(to) in arenas
      requires 0 < size < SIZE_LIMIT && (DescFrom(0, size) < DESC_CNT || BigPages(size) > 0)
      requires Capacity(View(), to) == Granted(size)
      ensures n == Least(size, Capacity(View(), from))
      ensures inside <==> !CopyOverruns(size, Capacity(View(), from))
      ensures inside <==> n <= Capacity(View(), to)
    {
      var oldSize := BlockSize(from);
      var room := BlockSize(to);
      n := if size < oldSize then size else oldSize;
      inside := n <= room;
      OverrunIff(size, oldSize);
    }

    /** realloc of a block to a size that is not zero. It stops before a copy that would write past the
        end of the new block. */
    method Replace(a: Addr, size: nat) returns (r: Option<Addr>, inside: bool)
      requires Valid() && 0 < size < SIZE_LIMIT && a in live
      modifies this, pages, pages.kernelPool.usedMap, pages.kernelPool.usedMap.bits,
               pages.userPool.usedMap, pages.userPool.usedMap.bits
      ensures Valid() && others == old(others) && PageOf(a) in old(arenas)
      ensures r.None? <==> OutOfMemory(old(View()), old(pages.kernelPool.Used()), size)
      ensures inside <==> r.None? || !CopyOverruns(size, old(Capacity(View(), a)))
      ensures r.None? ==> live == old(live) && View() == old(View())
      ensures r.None? || !inside ==> pages.mem == old(pages.mem)
      ensures r.Some? ==>
        r.value !in old(live) && PageOf(r.value) in arenas && Capacity(View(), r.value) == Granted(size)
      ensures r.Some? ==> (size <= Granted(size) <==> size <= MAX_REQUEST)
      ensures r.Some? ==> live == (if inside then old(live) - {a} else old(live)) + {r.value}
      ensures r.Some? && inside ==> Moved(old(pages.mem), a, r.value, Least(size, old(Capacity(View(), a))), pages.mem)
      ensures SameBlocks(old(View()), old(live) - {a}, View())
      ensures KeptBytes(View(), old(live) - {a}, old(pages.mem), pages.mem)
    {
      ghost var h, live0 := View(), live;
      assert AddrOk(h, a);
      KeptAll(h, live, live - {a}, pages.mem);
      r := Malloc(size);
      if r.None? { return r, true; }
      ghost var h1 := View();
      assert Capacity(h1, a) == Capacity(h, a);
      var n;
      n, inside := CopyLength(a, r.value, size);
      if !inside {
        KeptAll(h1, live, live0 - {a}, pages.mem);
        return;
      }
      MoveBlock(a, r.value, n);
      ReplaceSets(live0, live, a, r.value);
      SameBlocksJoin(h, live0 - {a}, h1, View());
    }

    /** Moves a block to one of another size, keeping as many of its bytes as fit in both; gives it back if the
        size is zero; changes nothing if there is no memory. `inside` is false if the copy would write past
        the end of the new block; that is where this method stops. */
    method Realloc(a: Option<Addr>, size: nat) returns (r: Option<Addr>, inside: bool)
      requires Valid() && size < SIZE_LIMIT && (a.Some? ==> a.value in live)
      modifies this, pages, pages.kernelPool.usedMap, pages.kernelPool.usedMap.bits,
               pages.userPool.usedMap, pages.userPool.usedMap.bits
      ensures Valid() && others == old(others) && (a.Some? ==> PageOf(a.value) in old(arenas))
      ensures size == 0 ==> r.None? && live == old(live) - Given(a)
      ensures size > 0 ==> (r.None? <==> OutOfMemory(old(View()), old(pages.kernelPool.Used()), size))
      ensures inside <==> r.None? || a.None? || !CopyOverruns(size, old(Capacity(View(), a.value)))
      ensures size > 0 && r.None? ==> live == old(live) && View() == old(View())
      ensures size > 0 && (r.None? || !inside) ==> pages.mem == old(pages.mem)
      ensures r.Some? ==>
        r.value !in old(live) && PageOf(r.value) in arenas && Capacity(View(), r.value) == Granted(size)
      ensures r.Some? ==> (size <= Granted(size) <==> size <= MAX_REQUEST)
      ensures r.Some? ==> live == (if inside then old(live) - Given(a) else old(live)) + {r.value}
      ensures r.Some? && inside && a.Some? ==>
        Moved(old(pages.mem), a.value, r.value, Least(size, old(Capacity(View(), a.value))), pages.mem)
      ensures SameBlocks(old(View()), old(live) - Given(a), View())
      ensures KeptBytes(View(), old(live) - Given(a), old(pages.mem), pages.mem)
    {
      inside := true;
      if a.Some? { assert AddrOk(View(), a.value); }
      if size == 0 {
        Free(a);
        return None, true;
      }
      if a.Some? {
        r, inside := Replace(a.value, size);
      } else {
        KeptAll(View(), live, live, pages.mem);
        r := Malloc(size);
        if r.Some? { KeptAll(View(), live, old(live), pages.mem); }
      }
    }
  }
}
