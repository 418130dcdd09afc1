/** Creating a file: allocating its blocks and tables, zeroing the blocks and writing the tables. */
module FileCreation {

  import opened SectorWords
  import opened FileLayout
  import opened Basics
  import opened Sequences
  import Bitmap
  import FreeMap
  import Inode

  const TABLES_FROM: nat := DIRECT + SECTOR_WORDS   // the first block found through two tables
  const MAX_SECTORS: nat := 128 * 128
  const MAGIC: nat := 15                             // the word after the length
  const INODE_MAGIC: Word := 0x494e_4f44             // "INOD"
  const UNUSED_WORDS: nat := 112

  // ----- where each block and table comes in the order of allocation -----

  /** The place of the k-th block among the sectors allocated: one table comes before the indirect blocks,
      another and the tables of earlier groups before the doubly indirect ones. */
  function BlockPlace(k: nat): nat {
    if k < DIRECT then k
    else if k < TABLES_FROM then k + 1
    else k + 2 + (k - TABLES_FROM) / SECTOR_WORDS
  }

  /** The place of the g-th inner table of a file of `n` blocks: after the blocks of its group. */
  function TablePlace(n: nat, g: nat): nat
    requires n >= TABLES_FROM
  {
    TABLES_FROM + 2 + Least((g + 1) * SECTOR_WORDS, n - TABLES_FROM) + g
  }

  lemma BlockPlacesGrow(k: nat, l: nat)
    requires k < l
    ensures BlockPlace(k) < BlockPlace(l)
  {
  }

  lemma BlockNotTable(n: nat, k: nat, g: nat)
    requires TABLES_FROM <= n && k < n
    ensures BlockPlace(k) != TablePlace(n, g)
  {
    if k >= TABLES_FROM {
      var j := k - TABLES_FROM;
      var h := j / SECTOR_WORDS;
      assert h * SECTOR_WORDS <= j < (h + 1) * SECTOR_WORDS;
    }
  }

  ghost predicate BlockListed(store: Store, s: Sector, n: nat, k: nat, got: seq<Sector>)
    requires k < n && BlockPlace(k) < |got|
  {
    if k < DIRECT then Entry(store, s, k) == got[BlockPlace(k)]
    else if k < TABLES_FROM then Entry(store, got[DIRECT], k - DIRECT) == got[BlockPlace(k)]
    else
      var j := k - TABLES_FROM;
      var t := TablePlace(n, j / SECTOR_WORDS);
      && t < |got|
      && Entry(store, got[TABLES_FROM + 1], j / SECTOR_WORDS) == got[t]
      && Entry(store, got[t], j % SECTOR_WORDS) == got[BlockPlace(k)]
  }

  /** The tables of the file at `s` list the sectors `got`, each at its place. */
  ghost predicate Tabled(store: Store, s: Sector, n: nat, got: seq<Sector>) {
    && (n <= DIRECT ==> |got| >= n)
    && (DIRECT < n ==> |got| > DIRECT && Entry(store, s, INDIRECT) == got[DIRECT])
    && (TABLES_FROM < n ==> |got| > TABLES_FROM + 1 && Entry(store, s, DOUBLY_INDIRECT) == got[TABLES_FROM + 1])
    && (forall k :: 0 <= k < n ==> BlockPlace(k) < |got| && BlockListed(store, s, n, k, got))
  }

  lemma ListedIndex(store: Store, s: Sector, n: nat, k: nat, got: seq<Sector>)
    requires Tabled(store, s, n, got) && k < n
    ensures BlockPlace(k) < |got| && Index(store, s, k) == got[BlockPlace(k)]
    ensures Path(store, s, k) ==
      if k < DIRECT then {s}
      else if k < TABLES_FROM then {s, got[DIRECT]}
      else {s, got[TABLES_FROM + 1], got[TablePlace(n, (k - TABLES_FROM) / SECTOR_WORDS)]}
  {
    assert BlockListed(store, s, n, k, got);
  }

  lemma BlockOffPath(store: Store, s: Sector, n: nat, got: seq<Sector>, k: nat, l: nat)
    requires Tabled(store, s, n, got) && Distinct(got) && s !in got && k < n && l < n
    ensures Index(store, s, k) !in Path(store, s, l)
  {
    ListedIndex(store, s, n, k, got);
    ListedIndex(store, s, n, l, got);
    if l >= TABLES_FROM {
      BlockNotTable(n, k, (l - TABLES_FROM) / SECTOR_WORDS);
    }
  }

  /** Tables that list distinct sectors lay out a file. */
  lemma TabledLayout(store: Store, s: Sector, n: nat, got: seq<Sector>)
    requires Tabled(store, s, n, got) && Distinct(got) && s !in got && s in store
    requires forall i :: 0 <= i < |got| ==> got[i] in store
    ensures Layout(store, s, n)
  {
    forall k | 0 <= k < n
      ensures Path(store, s, k) <= store.Keys && Index(store, s, k) in store && Index(store, s, k) != s
    {
      ListedIndex(store, s, n, k, got);
    }
    forall k, l | 0 <= k < l < n ensures Index(store, s, k) != Index(store, s, l) {
      ListedIndex(store, s, n, k, got);
      ListedIndex(store, s, n, l, got);
      BlockPlacesGrow(k, l);
    }
    forall k, l | 0 <= k < n && 0 <= l < n ensures Index(store, s, k) !in Path(store, s, l) {
      BlockOffPath(store, s, n, got, k, l);
    }
  }

  // ----- how many sectors, and what goes wrong -----

  /** The tables of `n` doubly indirect blocks. */
  function GroupCnt(n: nat): nat { (n + SECTOR_WORDS - 1) / SECTOR_WORDS }

  /** The blocks of a file: one even if it is empty. */
  function Blocks(length: nat): nat { if length == 0 then 1 else Sectors(length) }

  /** The blocks and tables of a file of `n` blocks. */
  function Needed(n: nat): nat {
    n + (if n > DIRECT then 1 else 0) + if n > TABLES_FROM then 1 + GroupCnt(n - TABLES_FROM) else 0
  }

  /** The zeroing of the last group counts all the blocks, so it overruns when they are more than one table
      holds and do not fill the last. */
  predicate Overruns(n: nat) { n > SECTOR_WORDS && n % SECTOR_WORDS != 0 }

  /** Creating a file of `n` blocks overruns. */
  predicate CreateOverruns(n: nat) { n > TABLES_FROM && Overruns(n - TABLES_FROM) }

  /** With `free` sectors left for the groups of `n` blocks, some but not all blocks of a group can be taken. */
  predicate GroupCrashes(n: nat, free: nat) {
    if free < SECTOR_WORDS + 1 then 0 < free < Least(n, SECTOR_WORDS)
    else n > SECTOR_WORDS && GroupCrashes(n - SECTOR_WORDS, free - SECTOR_WORDS - 1)
  }

  /** With `free` sectors, some but not all of the blocks that one table lists can be taken, and giving them back
      writes a map file that is not open. */
  predicate CreateCrashes(n: nat, free: nat) {
    if free < DIRECT then 0 < free < n
    else if free < TABLES_FROM + 1 then n > DIRECT && DIRECT + 1 < free < DIRECT + 1 + Least(n - DIRECT, SECTOR_WORDS)
    else n > TABLES_FROM && free >= TABLES_FROM + 2 && GroupCrashes(n - TABLES_FROM, free - TABLES_FROM - 2)
  }

  /** The same without recursion. */
  lemma {:induction false} GroupCrashCondition(n: nat, free: nat)
    ensures GroupCrashes(n, free) <==> 0 < free % 129 < 128 && free / 129 * 128 + free % 129 < n
  {
    if free >= 129 && n > 128 { GroupCrashCondition(n - 128, free - 129); }
  }

  /** A file of two blocks crashes when one sector is free. */
  lemma CrashCondition(n: nat, free: nat)
    ensures CreateCrashes(n, free) <==>
      || 0 < free < Least(n, 12)
      || (n > 12 && 13 < free < 13 + Least(n - 12, 128))
      || (free > 142 && 0 < (free - 142) % 129 < 128 && 140 + (free - 142) / 129 * 128 + (free - 142) % 129 < n)
    ensures CreateCrashes(2, 1)
  {
    if free >= 142 && n > 140 { GroupCrashCondition(n - 140, free - 142); }
  }

  // ----- formatting -----

  /** The blocks of the free map's file on a device of `size` sectors: a word for every 32 of them. */
  function MapBlocks(size: nat): nat { Blocks(4 * Bitmap.ElemCnt(size)) }

  lemma MapBlocksBound(size: nat)
    requires size >= 2
    ensures MapBlocks(size) == (size + 4095) / 4096
  {
  }

  /** The map's file takes few sectors of any device. */
  lemma MapIsSmall(size: nat, n: nat)
    requires size >= 3 && n == (size + 4095) / 4096
    ensures n <= size - 2 && (n > 12 ==> size - 2 > 2 * n + 400)
  {
  }

  lemma ManyTaken(free: nat)
    ensures 2 * (free / 129 * 128 + free % 129) >= free
  {
    var q, r := free / 129, free % 129;
    assert free == 129 * q + r;
  }

  lemma FewTables(n: nat)
    requires n > 0
    ensures GroupCnt(n) <= n
  {
  }

  /** Formatting creates that file while it is not open yet, with all sectors free but the two inodes'. It never
      crashes, finds enough sectors on every device of more than two, and overruns exactly if the map has more than
      268 blocks, which is from 1097729 sectors on, and does not fill its last table. */
  lemma Formatting(size: nat)
    requires size >= 2
    ensures !CreateCrashes(MapBlocks(size), size - 2)
    ensures Needed(MapBlocks(size)) <= size - 2 <==> size > 2
    ensures CreateOverruns(MapBlocks(size)) <==> size > 268 * 4096 && (MapBlocks(size) - 140) % 128 != 0
    ensures !CreateOverruns(MapBlocks(1097728)) && CreateOverruns(MapBlocks(1097729))
  {
    var n, free := MapBlocks(size), size - 2;
    MapBlocksBound(size);
    MapBlocksBound(1097728);
    MapBlocksBound(1097729);
    CrashCondition(n, free);
    if size > 2 {
      MapIsSmall(size, n);
      if free > 142 { ManyTaken(free - 142); }
      if n > 140 { FewTables(n - 140); }
    }
  }

  lemma {:induction false} GroupCrashShift(n: nat, free: nat, i: nat)
    requires i * SECTOR_WORDS < n && i * (SECTOR_WORDS + 1) <= free
    ensures GroupCrashes(n, free) == GroupCrashes(n - i * SECTOR_WORDS, free - i * (SECTOR_WORDS + 1))
  {
    if i > 0 { GroupCrashShift(n - SECTOR_WORDS, free - SECTOR_WORDS - 1, i - 1); }
  }

  /** How creating a file ends; Overrun is zero_out reading past the end of its table, Crash is writing a map
      file that is not open. */
  datatype Result = Created | Failed | Crash | Overrun

  /** How an allocation ends: when it is made, overruns or crashes; otherwise it fails. */
  ghost predicate Ends(r: Result, made: bool, over: bool, crash: bool) {
    (r.Created? <==> made) && (r.Overrun? <==> over) && (r.Crash? <==> crash)
  }

  ghost function Free(used: seq<bool>): nat { |FreeMap.FreeSectors(used)| }

  ghost predicate Able(used: seq<bool>, open: bool, written: nat -> bool, first: nat, cnt: nat) {
    FreeMap.Able(used, open, written, first, cnt)
  }

  /** The blocks of group `i` of `n` blocks. */
  function GroupSize(n: nat, i: nat): nat
    requires i * SECTOR_WORDS < n
  {
    Least(n - i * SECTOR_WORDS, SECTOR_WORDS)
  }

  /** The count it is zeroed with: the last, partly filled one with the count of all the blocks. */
  function GroupZeros(n: nat, i: nat): nat
    requires i * SECTOR_WORDS < n
  {
    if n - i * SECTOR_WORDS < SECTOR_WORDS then n else SECTOR_WORDS
  }

  /** A list of `upto` blocks, zeroed with the count `zeros`. */
  ghost predicate ListEnds(r: Result, used: seq<bool>, open: bool, written: nat -> bool, first: nat, upto: nat,
                           zeros: nat) {
    Ends(r, zeros == upto && Able(used, open, written, first, upto),
         zeros != upto && Able(used, open, written, first, upto),
         !open && 0 < Free(used) < upto)
  }

  /** A table and then its `upto` blocks. */
  ghost predicate TableEnds(r: Result, used: seq<bool>, open: bool, written: nat -> bool, first: nat, upto: nat) {
    Ends(r, Able(used, open, written, first, 1 + upto), false, !open && 1 < Free(used) < 1 + upto)
  }

  /** `upto` blocks, zeroed with the count `zeros`, and then their table. */
  ghost predicate GroupEnds(r: Result, used: seq<bool>, open: bool, written: nat -> bool, first: nat, upto: nat,
                            zeros: nat) {
    Ends(r, zeros == upto && Able(used, open, written, first, upto + 1),
         zeros != upto && Able(used, open, written, first, upto),
         !open && 0 < Free(used) < upto)
  }

  /** The table of tables and the groups of `n` blocks. */
  ghost predicate DoublyEnds(r: Result, used: seq<bool>, open: bool, written: nat -> bool, first: nat, n: nat) {
    Ends(r, !Overruns(n) && Able(used, open, written, first, 1 + n + GroupCnt(n)),
         Overruns(n) && Able(used, open, written, first, n + GroupCnt(n)),
         !open && Free(used) > 0 && GroupCrashes(n, Free(used) - 1))
  }

  /** All the blocks and tables of a file of `n` blocks: made exactly if enough sectors are free, the writes of the
      map go well and the zeroing does not overrun. */
  ghost predicate BlocksEnd(r: Result, used: seq<bool>, open: bool, written: nat -> bool, n: nat) {
    Ends(r, !CreateOverruns(n) && Able(used, open, written, 0, Needed(n)),
         CreateOverruns(n) && Able(used, open, written, 0, Needed(n) - 1),
         !open && CreateCrashes(n, Free(used)))
  }

  /** How free_map_create ends on a device whose sectors are free but for the two inodes'. */
  lemma FormattingEnds(r: Result, used: seq<bool>, written: nat -> bool)
    requires |used| >= 2 && Free(used) == |used| - 2 && BlocksEnd(r, used, false, written, MapBlocks(|used|))
    ensures !r.Crash? && (r.Overrun? <==> CreateOverruns(MapBlocks(|used|)))
    ensures r.Created? <==> |used| > 2 && !CreateOverruns(MapBlocks(|used|))
  {
    Formatting(|used|);
  }

  lemma DirectStops(r: Result, used: seq<bool>, open: bool, written: nat -> bool, n: nat)
    requires n > 0 && ListEnds(r, used, open, written, 0, Least(n, DIRECT), Least(n, DIRECT)) && !r.Created?
    ensures BlocksEnd(r, used, open, written, n)
  {
  }

  lemma IndirectStops(r: Result, used: seq<bool>, used1: seq<bool>, open: bool, written: nat -> bool, n: nat)
    requires n > DIRECT && !r.Created? && Able(used, open, written, 0, DIRECT) && Free(used) == Free(used1) + DIRECT
    requires TableEnds(r, used1, open, written, DIRECT, Least(n - DIRECT, SECTOR_WORDS))
    requires var c := 1 + Least(n - DIRECT, SECTOR_WORDS);
      Able(used1, open, written, DIRECT, c) <==> Able(used, open, written, 0, DIRECT + c)
    ensures BlocksEnd(r, used, open, written, n)
  {
  }

  lemma SmallEnds(used: seq<bool>, open: bool, written: nat -> bool, n: nat)
    requires n <= TABLES_FROM && Able(used, open, written, 0, Needed(n))
    ensures BlocksEnd(Created, used, open, written, n)
  {
  }

  lemma LargeEnds(r: Result, used: seq<bool>, used2: seq<bool>, open: bool, written: nat -> bool, n: nat, m: nat)
    requires n == TABLES_FROM + m && m > 0 && DoublyEnds(r, used2, open, written, TABLES_FROM + 1, m)
    requires Able(used, open, written, 0, TABLES_FROM + 1) && Free(used) == Free(used2) + TABLES_FROM + 1
    requires var c := 1 + m + GroupCnt(m);
      Able(used2, open, written, TABLES_FROM + 1, c) <==> Able(used, open, written, 0, TABLES_FROM + 1 + c)
    requires var c := m + GroupCnt(m);
      Able(used2, open, written, TABLES_FROM + 1, c) <==> Able(used, open, written, 0, TABLES_FROM + 1 + c)
    ensures BlocksEnd(r, used, open, written, n)
  {
  }

  /** Which group is the last, and which one overruns. */
  lemma LastGroup(n: nat, i: nat)
    requires i < GroupCnt(n)
    ensures i * SECTOR_WORDS < n
    ensures i > 0 && n < (i + 1) * SECTOR_WORDS ==> Overruns(n) && i + 1 == GroupCnt(n)
    ensures i + 1 == GroupCnt(n) && Overruns(n) ==> i > 0 && n < (i + 1) * SECTOR_WORDS
    ensures i + 1 < GroupCnt(n) ==> (i + 1) * SECTOR_WORDS < n
    ensures i + 1 == GroupCnt(n) ==> n <= (i + 1) * SECTOR_WORDS
  {
  }

  /** What one turn of the loop over groups says about the whole: how it ends if it stops there, that it is made
      if this was the last, and that it goes on otherwise. */
  lemma GroupStep(r: Result, used: seq<bool>, used1: seq<bool>, open: bool, written: nat -> bool, first: nat, n: nat,
                  i: nat)
    requires i < GroupCnt(n) && i * SECTOR_WORDS < n
    requires var done := 1 + i * (SECTOR_WORDS + 1); var size := GroupSize(n, i);
      && Able(used, open, written, first, done) && Free(used) == Free(used1) + done
      && (Able(used1, open, written, first + done, size) <==> Able(used, open, written, first, done + size))
      && (Able(used1, open, written, first + done, size + 1) <==> Able(used, open, written, first, done + size + 1))
      && GroupEnds(r, used1, open, written, first + done, size, GroupZeros(n, i))
    ensures !r.Created? ==> DoublyEnds(r, used, open, written, first, n)
    ensures r.Created? ==> Able(used, open, written, first, 1 + i * (SECTOR_WORDS + 1) + GroupSize(n, i) + 1)
    ensures r.Created? && i + 1 == GroupCnt(n) ==> DoublyEnds(Created, used, open, written, first, n)
  {
    LastGroup(n, i);
    GroupCrashShift(n, Free(used) - 1, i);
  }

  // ----- allocating -----

  /** The free map and the disk after the sectors `got` have been taken and written: nothing else is touched. */
  ghost predicate Grown(used: seq<bool>, store: Store, got: seq<Sector>, used': seq<bool>, store': Store) {
    && FreeMap.FirstFit(used, got) && used' == FreeMap.Taken(used, got)
    && store'.Keys == store.Keys
    && forall x :: x in store && x !in got ==> store'[x] == store[x]
  }

  lemma GrownJoin(used: seq<bool>, store: Store, a: seq<Sector>, used1: seq<bool>, store1: Store, b: seq<Sector>,
                  used2: seq<bool>, store2: Store)
    requires Grown(used, store, a, used1, store1) && Grown(used1, store1, b, used2, store2)
    ensures Grown(used, store, a + b, used2, store2)
  {
    FreeMap.FirstFitJoin(used, a, b);
  }

  /** Growing leaves the sectors in use as they were. */
  lemma GrownKeeps(used: seq<bool>, store: Store, got: seq<Sector>, used': seq<bool>, store': Store, x: Sector)
    requires Grown(used, store, got, used', store') && x in store && x < |used| && used[x]
    ensures x !in got && store'[x] == store[x]
  {
  }

  lemma GrownUses(used: seq<bool>, store: Store, got: seq<Sector>, used': seq<bool>, store': Store)
    requires Grown(used, store, got, used', store')
    ensures Distinct(got)
    ensures forall i :: 0 <= i < |got| ==> got[i] < |used'| && used'[got[i]] && !used[got[i]]
  {
    forall i | 0 <= i < |got| ensures got[i] < |used'| && used'[got[i]] && !used[got[i]] {
      assert got[i] in got;
    }
  }

  /** What can be allocated after `got` have been. */
  lemma GrownAble(used: seq<bool>, store: Store, got: seq<Sector>, used': seq<bool>, store': Store,
                  open: bool, written: nat -> bool, first: nat, cnt: nat)
    requires Grown(used, store, got, used', store') && Able(used, open, written, first, |got|)
    ensures Able(used', open, written, first + |got|, cnt) <==> Able(used, open, written, first, |got| + cnt)
    ensures Free(used) == Free(used') + |got|
  {
    FreeMap.AbleJoin(used, got, open, written, first, cnt);
    FreeMap.FreeAfter(used, got);
  }

  lemma IndirectEnds(r: Result, used: seq<bool>, store: Store, a: seq<Sector>, used1: seq<bool>, store1: Store,
                     open: bool, written: nat -> bool, n: nat)
    requires Grown(used, store, a, used1, store1) && |a| == Least(n, DIRECT) && Able(used, open, written, 0, |a|)
    requires n <= DIRECT ==> r.Created?
    requires n > DIRECT ==> TableEnds(r, used1, open, written, DIRECT, Least(n - DIRECT, SECTOR_WORDS))
    ensures !r.Created? ==> BlocksEnd(r, used, open, written, n)
    ensures r.Created? ==> Able(used, open, written, 0, Least(Needed(n), TABLES_FROM + 1))
  {
    if n > DIRECT {
      GrownAble(used, store, a, used1, store1, open, written, 0, 1 + Least(n - DIRECT, SECTOR_WORDS));
      if !r.Created? { IndirectStops(r, used, used1, open, written, n); }
    }
  }

  lemma DoublyAfter(r: Result, used: seq<bool>, store: Store, ab: seq<Sector>, used2: seq<bool>, store2: Store,
                    open: bool, written: nat -> bool, n: nat, m: nat)
    requires Grown(used, store, ab, used2, store2) && |ab| == TABLES_FROM + 1 && Able(used, open, written, 0, |ab|)
    requires n == TABLES_FROM + m && m > 0 && DoublyEnds(r, used2, open, written, TABLES_FROM + 1, m)
    ensures BlocksEnd(r, used, open, written, n)
  {
    GrownAble(used, store, ab, used2, store2, open, written, 0, 1 + m + GroupCnt(m));
    GrownAble(used, store, ab, used2, store2, open, written, 0, m + GroupCnt(m));
    LargeEnds(r, used, used2, open, written, n, m);
  }

  ghost predicate ZeroSectors(store: Store, xs: seq<Sector>) {
    forall i :: 0 <= i < |xs| ==> xs[i] in store && store[xs[i]] == ZeroSector()
  }

  /** Sector `t` is a table that begins with `xs`. */
  ghost predicate TableOf(store: Store, t: Sector, xs: seq<Sector>) {
    t in store && forall i :: 0 <= i < |xs| ==> Entry(store, t, i) == xs[i]
  }

  // ----- the groups of doubly indirect blocks -----

  /** The blocks of the first `i` groups of `n` blocks. */
  function GroupBlocks(n: nat, i: nat): nat { Least(i * SECTOR_WORDS, n) }

  ghost predicate TableTaken(n: nat, g: nat, got: seq<Sector>, tables: seq<Sector>) {
    var p := 1 + GroupBlocks(n, g + 1) + g;
    g < |tables| && p < |got| && tables[g] == got[p]
  }

  ghost predicate GroupBlock(store: Store, j: nat, got: seq<Sector>, tables: seq<Sector>) {
    var p, g := 1 + j + j / SECTOR_WORDS, j / SECTOR_WORDS;
    && p < |got| && g < |tables|
    && tables[g] in store && Entry(store, tables[g], j % SECTOR_WORDS) == got[p]
    && got[p] in store && store[got[p]] == ZeroSector()
  }

  /** Of `n` blocks the first `i` groups have been taken, after one sector for the table of tables; each
      group's blocks are zeroed and listed in the group's own table, which is taken after them. */
  ghost predicate Groups(store: Store, n: nat, i: nat, got: seq<Sector>, tables: seq<Sector>) {
    && i <= |tables| && |got| == 1 + GroupBlocks(n, i) + i
    && (forall g :: 0 <= g < i ==> TableTaken(n, g, got, tables))
    && (forall j :: 0 <= j < GroupBlocks(n, i) ==> GroupBlock(store, j, got, tables))
  }

  /** Groups already made stay while another is. */
  lemma GroupKept(store: Store, i: nat, got: seq<Sector>, tables: seq<Sector>, j: nat, more: seq<Sector>, store': Store,
                  t: Sector)
    requires GroupBlock(store, j, got, tables) && j / SECTOR_WORDS < i < |tables|
    requires var b, g := got[1 + j + j / SECTOR_WORDS], tables[j / SECTOR_WORDS];
      b in store' && store'[b] == store[b] && g in store' && store'[g] == store[g]
    ensures GroupBlock(store', j, got + more, tables[i := t])
  {
  }

  lemma GroupNew(store: Store, n: nat, i: nat, got: seq<Sector>, tables: seq<Sector>, j: nat, blocks: seq<Sector>,
                 t: Sector)
    requires i < |tables| && |got| == 1 + GroupBlocks(n, i) + i && i * SECTOR_WORDS < n
    requires |blocks| == GroupBlocks(n, i + 1) - GroupBlocks(n, i)
    requires GroupBlocks(n, i) <= j < GroupBlocks(n, i + 1)
    requires TableOf(store, t, blocks) && ZeroSectors(store, blocks)
    ensures GroupBlock(store, j, got + blocks + [t], tables[i := t])
  {
    assert j / SECTOR_WORDS == i && j % SECTOR_WORDS == j - i * SECTOR_WORDS;
    var p, m := 1 + j + i, j - i * SECTOR_WORDS;
    assert (got + blocks + [t])[p] == blocks[m];
    assert blocks[m] in store;
  }

  lemma GroupsNext(store: Store, n: nat, i: nat, got: seq<Sector>, tables: seq<Sector>,
                   used: seq<bool>, blocks: seq<Sector>, t: Sector, used': seq<bool>, store': Store)
    requires Groups(store, n, i, got, tables) && i < |tables| && i * SECTOR_WORDS < n
    requires |blocks| == GroupBlocks(n, i + 1) - GroupBlocks(n, i)
    requires Grown(used, store, blocks + [t], used', store')
    requires forall k :: 0 <= k < |got| ==> got[k] < |used| && used[got[k]]
    requires TableOf(store', t, blocks) && ZeroSectors(store', blocks)
    ensures Groups(store', n, i + 1, got + (blocks + [t]), tables[i := t])
  {
    var got', tables' := got + (blocks + [t]), tables[i := t];
    assert got' == got + blocks + [t];
    forall g | 0 <= g < i + 1 ensures TableTaken(n, g, got', tables') {
      if g < i { assert TableTaken(n, g, got, tables); }
    }
    forall j | 0 <= j < GroupBlocks(n, i + 1) ensures GroupBlock(store', j, got', tables') {
      if j < GroupBlocks(n, i) {
        assert GroupBlock(store, j, got, tables) && TableTaken(n, j / SECTOR_WORDS, got, tables);
        GrownKeeps(used, store, blocks + [t], used', store', got[1 + j + j / SECTOR_WORDS]);
        GrownKeeps(used, store, blocks + [t], used', store', tables[j / SECTOR_WORDS]);
        GroupKept(store, i, got, tables, j, blocks + [t], store', t);
      } else {
        GroupNew(store', n, i, got, tables, j, blocks, t);
      }
    }
  }

  /** Before group `i`: the table of tables and the groups before it have been taken, out of `used` and `store`. */
  ghost predicate LoopState(used: seq<bool>, store: Store, n: nat, i: nat, got: seq<Sector>, tables: seq<Sector>,
                            used1: seq<bool>, store1: Store) {
    && Grown(used, store, got, used1, store1) && Groups(store1, n, i, got, tables)
    && |tables| == SECTOR_WORDS && forall k :: 0 <= k < |tables| ==> tables[k] < |used1|
  }

  lemma TableInRange(used: seq<bool>, store: Store, more: seq<Sector>, used': seq<bool>, store': Store,
                     tables: seq<Sector>, i: nat, t: Sector, tables': seq<Sector>)
    requires Grown(used, store, more, used', store') && more != [] && t == more[|more| - 1]
    requires i < |tables| && tables' == tables[i := t]
    requires forall k :: 0 <= k < |tables| ==> tables[k] < |used|
    ensures forall k :: 0 <= k < |tables'| ==> tables'[k] < |used'|
  {
    GrownUses(used, store, more, used', store');
  }

  lemma GroupAdded(used: seq<bool>, store: Store, n: nat, i: nat, got: seq<Sector>, tables: seq<Sector>,
                   used1: seq<bool>, store1: Store, blocks: seq<Sector>, t: Sector, more: seq<Sector>, used2: seq<bool>,
                   store2: Store)
    requires LoopState(used, store, n, i, got, tables, used1, store1)
    requires more == blocks + [t] && Grown(used1, store1, more, used2, store2)
    requires i < SECTOR_WORDS && i * SECTOR_WORDS < n && |blocks| == Least(SECTOR_WORDS, n - i * SECTOR_WORDS)
    requires TableOf(store2, t, blocks) && ZeroSectors(store2, blocks)
    ensures LoopState(used, store, n, i + 1, got + more, tables[i := t], used2, store2)
  {
    GrownJoin(used, store, got, used1, store1, more, used2, store2);
    GrownUses(used, store, got, used1, store1);
    TableInRange(used1, store1, more, used2, store2, tables, i, t, tables[i := t]);
    GroupsNext(store1, n, i, got, tables, used1, blocks, t, used2, store2);
  }

  /** Writing the table of tables, which was taken first, leaves the groups as they are. */
  lemma GroupsAfterTable(store: Store, n: nat, i: nat, got: seq<Sector>, tables: seq<Sector>, store': Store)
    requires Groups(store, n, i, got, tables) && Distinct(got) && store'.Keys == store.Keys
    requires forall x :: x in store && x != got[0] ==> store'[x] == store[x]
    ensures Groups(store', n, i, got, tables)
  {
    forall j | 0 <= j < GroupBlocks(n, i) ensures GroupBlock(store', j, got, tables) {
      assert GroupBlock(store, j, got, tables);
      assert TableTaken(n, j / SECTOR_WORDS, got, tables);
    }
  }

  lemma GrownNone(used: seq<bool>, store: Store)
    ensures Grown(used, store, [], used, store)
  {
    assert FreeMap.Taken(used, []) == used;
  }

  lemma TableBeforeBlocks(used: seq<bool>, store: Store, t: Sector, used1: seq<bool>, blocks: seq<Sector>,
                          used2: seq<bool>, store2: Store)
    requires Grown(used, store, [t], used1, store) && t in store && Grown(used1, store, blocks, used2, store2)
    ensures Grown(used, store, [t] + blocks, used2, store2) && t !in blocks && t in store2
    ensures forall i :: 0 <= i < |blocks| ==> blocks[i] < |used2|
  {
    GrownUses(used, store, [t], used1, store);
    assert [t][0] == t;
    GrownKeeps(used1, store, blocks, used2, store2, t);
    GrownUses(used1, store, blocks, used2, store2);
    GrownJoin(used, store, [t], used1, store, blocks, used2, store2);
  }

  lemma EntriesInRange(used: seq<bool>, store: Store, blocks: seq<Sector>, used': seq<bool>, store': Store,
                       entries: seq<Sector>)
    requires Grown(used, store, blocks, used', store') && blocks <= entries && blocks != []
    requires forall k :: |blocks| <= k < |entries| ==> entries[k] == 0
    ensures forall k :: 0 <= k < |entries| ==> entries[k] < |used'|
  {
    GrownUses(used, store, blocks, used', store');
    assert blocks[0] < |used'|;
    forall k | 0 <= k < |blocks| ensures entries[k] < |used'| { assert blocks[k] == entries[k]; }
  }

  /** Sector `t` and the blocks have been taken, the blocks are zeroed, and the table to be written lists them. */
  ghost predicate TableReady(used: seq<bool>, store: Store, t: Sector, blocks: seq<Sector>, entries: seq<Sector>,
                             used2: seq<bool>, store2: Store) {
    && Grown(used, store, [t] + blocks, used2, store2) && t !in blocks && t in store2 && ZeroSectors(store2, blocks)
    && blocks <= entries && forall k :: 0 <= k < |entries| ==> entries[k] < |used2|
  }

  /** All that writing the table of blocks just taken, or of none if they could not be, needs. */
  lemma FillReady(made: bool, used: seq<bool>, store: Store, t: Sector, used1: seq<bool>, zeros: seq<Sector>,
                  entries: seq<Sector>,
                  upto: nat, blocks: seq<Sector>, used2: seq<bool>, store2: Store)
    requires Grown(used, store, [t], used1, store) && t in store && |used1| > 0
    requires |entries| == |zeros| && 0 < upto <= |entries| && forall k :: 0 <= k < |zeros| ==> zeros[k] == 0
    requires blocks == if made then entries[..upto] else []
    requires made ==> Grown(used1, store, blocks, used2, store2) && ZeroSectors(store2, blocks)
    requires made ==> forall k :: upto <= k < |entries| ==> entries[k] == 0
    requires !made ==> used2 == used1 && store2 == store && FreeMap.Bounded(zeros, entries, |used2|)
    ensures TableReady(used, store, t, blocks, entries, used2, store2)
  {
    if made { EntriesInRange(used1, store, blocks, used2, store2, entries); } else { GrownNone(used1, store); }
    TableBeforeBlocks(used, store, t, used1, blocks, used2, store2);
  }

  lemma TakenOnDisk(used: seq<bool>, store: Store, t: Sector, used': seq<bool>)
    requires Grown(used, store, [t], used', store) && forall x :: x in store <==> 0 <= x < |used|
    ensures t in store && t < |used'| && used'[t]
  {
    GrownUses(used, store, [t], used', store);
    assert [t][0] == t;
  }

  lemma BlocksBeforeTable(used: seq<bool>, store: Store, blocks: seq<Sector>, used1: seq<bool>, store1: Store,
                          t: Sector, used2: seq<bool>)
    requires Grown(used, store, blocks, used1, store1) && Grown(used1, store1, [t], used2, store1)
    requires forall x :: x in store <==> 0 <= x < |used|
    ensures Grown(used, store, blocks + [t], used2, store1) && t in store1 && t < |used2| && t !in blocks
    ensures forall i :: 0 <= i < |blocks| ==> blocks[i] < |used2|
  {
    TakenOnDisk(used1, store1, t, used2);
    GrownUses(used, store, blocks, used1, store1);
    GrownUses(used1, store1, [t], used2, store1);
    assert [t][0] == t;
    GrownJoin(used, store, blocks, used1, store1, [t], used2, store1);
  }

  /** Writing one of the sectors taken. */
  lemma WroteTable(used: seq<bool>, store: Store, got: seq<Sector>, used': seq<bool>, store1: Store, t: Sector,
                   store2: Store)
    requires Grown(used, store, got, used', store1) && t in got && store2.Keys == store1.Keys
    requires forall x :: x in store2 && x != t ==> store2[x] == store1[x]
    ensures Grown(used, store, got, used', store2)
    ensures forall xs :: t !in xs && ZeroSectors(store1, xs) ==> ZeroSectors(store2, xs)
  {
    forall xs | t !in xs && ZeroSectors(store1, xs) ensures ZeroSectors(store2, xs) {
      forall i | 0 <= i < |xs| ensures xs[i] in store2 && store2[xs[i]] == ZeroSector() {
        assert xs[i] != t;
      }
    }
  }

  // ----- the three parts of a file's sectors -----

  ghost predicate DirectPart(store: Store, n: nat, direct: seq<Sector>, a: seq<Sector>) {
    |a| == Least(n, DIRECT) && a <= direct && ZeroSectors(store, a)
  }

  ghost predicate IndirectPart(store: Store, n: nat, table: Sector, b: seq<Sector>) {
    if n <= DIRECT then b == []
    else
      && |b| == 1 + Least(n - DIRECT, SECTOR_WORDS) && b[0] == table
      && TableOf(store, table, b[1..]) && ZeroSectors(store, b[1..])
  }

  ghost predicate DoublyMade(store: Store, m: nat, table: Sector, tables: seq<Sector>, c: seq<Sector>) {
    c != [] && c[0] == table && Groups(store, m, GroupCnt(m), c, tables) && TableOf(store, table, tables)
  }

  ghost predicate DoublyPart(store: Store, n: nat, table: Sector, tables: seq<Sector>, c: seq<Sector>) {
    if n <= TABLES_FROM then c == []
    else DoublyMade(store, n - TABLES_FROM, table, tables, c)
  }

  ghost predicate Agree(store: Store, store': Store, xs: seq<Sector>) {
    forall i :: 0 <= i < |xs| && xs[i] in store ==> xs[i] in store' && store'[xs[i]] == store[xs[i]]
  }

  lemma DirectKept(store: Store, store': Store, n: nat, direct: seq<Sector>, a: seq<Sector>)
    requires DirectPart(store, n, direct, a) && Agree(store, store', a)
    ensures DirectPart(store', n, direct, a)
  {
  }

  lemma IndirectKept(store: Store, store': Store, n: nat, table: Sector, b: seq<Sector>)
    requires IndirectPart(store, n, table, b) && Agree(store, store', b)
    ensures IndirectPart(store', n, table, b)
  {
    if n > DIRECT {
      assert b[0] == table;
      forall i | 0 <= i < |b[1..]| ensures b[1..][i] in store' && store'[b[1..][i]] == ZeroSector() {
        assert b[1..][i] == b[i + 1];
      }
    }
  }

  lemma DoublyKept(store: Store, store': Store, n: nat, table: Sector, tables: seq<Sector>, c: seq<Sector>)
    requires DoublyPart(store, n, table, tables, c) && Agree(store, store', c)
    ensures DoublyPart(store', n, table, tables, c)
  {
    if n > TABLES_FROM {
      var m := n - TABLES_FROM;
      assert c[0] == table;
      forall j | 0 <= j < GroupBlocks(m, GroupCnt(m)) ensures GroupBlock(store', j, c, tables) {
        assert GroupBlock(store, j, c, tables);
        assert TableTaken(m, j / SECTOR_WORDS, c, tables);
      }
    }
  }

  lemma GrownAgree(used: seq<bool>, store: Store, got: seq<Sector>, used': seq<bool>, store': Store, xs: seq<Sector>)
    requires Grown(used, store, got, used', store')
    requires forall i :: 0 <= i < |xs| ==> xs[i] < |used| && used[xs[i]]
    ensures Agree(store, store', xs)
  {
    forall i | 0 <= i < |xs| && xs[i] in store ensures xs[i] in store' && store'[xs[i]] == store[xs[i]] {
      GrownKeeps(used, store, got, used', store', xs[i]);
    }
  }

  /** The three parts, and an inode that names them, list every block at its place, zeroed. */
  ghost predicate Parts(store: Store, s: Sector, n: nat, direct: seq<Sector>, indirect: Sector, doubly: Sector,
                        a: seq<Sector>, b: seq<Sector>, tables: seq<Sector>, c: seq<Sector>) {
    && DirectPart(store, n, direct, a) && IndirectPart(store, n, indirect, b) && DoublyPart(store, n, doubly, tables, c)
    && |direct| == DIRECT && (forall k :: 0 <= k < DIRECT ==> Entry(store, s, k) == direct[k])
    && Entry(store, s, INDIRECT) == indirect && Entry(store, s, DOUBLY_INDIRECT) == doubly
  }

  /** Block `j` of the doubly indirect ones, in the part of the sectors that was taken for them. */
  ghost predicate InGroup(store: Store, m: nat, j: nat, c: seq<Sector>) {
    var p, q := 1 + j + j / SECTOR_WORDS, 1 + GroupBlocks(m, j / SECTOR_WORDS + 1) + j / SECTOR_WORDS;
    && p < |c| && q < |c|
    && Entry(store, c[0], j / SECTOR_WORDS) == c[q] && Entry(store, c[q], j % SECTOR_WORDS) == c[p]
    && c[p] in store && store[c[p]] == ZeroSector()
  }

  lemma PartsTables(store: Store, s: Sector, n: nat, ab: seq<Sector>, c: seq<Sector>, k: nat)
    requires TABLES_FROM <= k < n && |ab| == TABLES_FROM + 1 && InGroup(store, n - TABLES_FROM, k - TABLES_FROM, c)
    ensures var got := ab + c;
      && BlockPlace(k) < |got| && BlockListed(store, s, n, k, got)
      && got[BlockPlace(k)] in store && store[got[BlockPlace(k)]] == ZeroSector()
  {
    var j, got := k - TABLES_FROM, ab + c;
    var p, q := 1 + j + j / SECTOR_WORDS, 1 + GroupBlocks(n - TABLES_FROM, j / SECTOR_WORDS + 1) + j / SECTOR_WORDS;
    assert BlockPlace(k) == |ab| + p && got[|ab| + p] == c[p];
    assert TablePlace(n, j / SECTOR_WORDS) == |ab| + q && got[|ab| + q] == c[q];
    assert got[|ab|] == c[0];
  }

  lemma PartsDoubly(store: Store, n: nat, doubly: Sector, tables: seq<Sector>, c: seq<Sector>, j: nat)
    requires DoublyPart(store, n, doubly, tables, c) && n > TABLES_FROM && j < n - TABLES_FROM
    ensures InGroup(store, n - TABLES_FROM, j, c) && c[0] == doubly
  {
    var m := n - TABLES_FROM;
    assert GroupBlocks(m, GroupCnt(m)) == m;
    assert GroupBlock(store, j, c, tables);
    assert TableTaken(m, j / SECTOR_WORDS, c, tables);
  }

  lemma PartsBlock(store: Store, s: Sector, n: nat, direct: seq<Sector>, indirect: Sector, doubly: Sector,
                   a: seq<Sector>, b: seq<Sector>, tables: seq<Sector>, c: seq<Sector>, k: nat)
    requires Parts(store, s, n, direct, indirect, doubly, a, b, tables, c) && k < n
    ensures var got := a + b + c;
      && BlockPlace(k) < |got| && BlockListed(store, s, n, k, got)
      && got[BlockPlace(k)] in store && store[got[BlockPlace(k)]] == ZeroSector()
  {
    var got := a + b + c;
    if k < DIRECT {
      assert got[k] == a[k];
    } else if k < TABLES_FROM {
      var i := k - DIRECT;
      assert got[DIRECT] == b[0] && got[k + 1] == b[i + 1] == b[1..][i];
    } else {
      PartsDoubly(store, n, doubly, tables, c, k - TABLES_FROM);
      PartsTables(store, s, n, a + b, c, k);
    }
  }

  /** A file made of the three parts is laid out, holds zeros, and owns only its inode and the sectors taken. */
  lemma PartsFile(store: Store, s: Sector, length: nat, n: nat, direct: seq<Sector>, indirect: Sector, doubly: Sector,
                  a: seq<Sector>, b: seq<Sector>, tables: seq<Sector>, c: seq<Sector>, got: seq<Sector>)
    requires Parts(store, s, n, direct, indirect, doubly, a, b, tables, c) && StoreOk(store) && s in store
    requires got == a + b + c && Distinct(got) && s !in got && forall i :: 0 <= i < |got| ==> got[i] in store
    requires Length(store, s) == length <= MAX_INODE_SIZE && Sectors(length) <= n
    ensures File(store, s) && Contents(store, s) == seq(length, _ => 0)
    ensures forall k :: 0 <= k < n ==> BlockPlace(k) < |got| && Index(store, s, k) == got[BlockPlace(k)]
  {
    forall k | 0 <= k < n
      ensures BlockPlace(k) < |got| && BlockListed(store, s, n, k, got)
      ensures got[BlockPlace(k)] in store && store[got[BlockPlace(k)]] == ZeroSector()
    {
      PartsBlock(store, s, n, direct, indirect, doubly, a, b, tables, c, k);
    }
    assert Tabled(store, s, n, got);
    TabledLayout(store, s, n, got);
    forall k | 0 <= k < n ensures Index(store, s, k) == got[BlockPlace(k)] {
      ListedIndex(store, s, n, k, got);
    }
  }

  /** The three parts of the sectors of a file of `n` blocks, and the sectors its inode is to name. */
  ghost predicate Allocation(store: Store, n: nat, direct: seq<Sector>, indirect: Sector, doubly: Sector,
                             a: seq<Sector>, b: seq<Sector>, tables: seq<Sector>, c: seq<Sector>) {
    && DirectPart(store, n, direct, a) && IndirectPart(store, n, indirect, b) && DoublyPart(store, n, doubly, tables, c)
    && indirect < 0x1_0000_0000 && doubly < 0x1_0000_0000
  }

  lemma SmallAllocation(store: Store, n: nat, direct: seq<Sector>, indirect: Sector, a: seq<Sector>, b: seq<Sector>)
    requires DirectPart(store, n, direct, a) && IndirectPart(store, n, indirect, b)
    requires n <= TABLES_FROM && indirect < 0x1_0000_0000
    ensures Allocation(store, n, direct, indirect, 0, a, b, [], [])
  {
  }

  lemma LargeAllocation(store: Store, n: nat, m: nat, direct: seq<Sector>, indirect: Sector, doubly: Sector,
                        a: seq<Sector>, b: seq<Sector>, tables: seq<Sector>, c: seq<Sector>)
    requires DirectPart(store, n, direct, a) && IndirectPart(store, n, indirect, b)
    requires n == TABLES_FROM + m && m > 0 && DoublyMade(store, m, doubly, tables, c)
    requires indirect < 0x1_0000_0000 && doubly < 0x1_0000_0000
    ensures Allocation(store, n, direct, indirect, doubly, a, b, tables, c)
  {
  }

  /** Sector `s` holds an inode of that length that names those sectors. */
  ghost predicate InodeNames(store: Store, s: Sector, length: nat, direct: seq<Sector>, indirect: Sector,
                             doubly: Sector) {
    && s in store && Length(store, s) == length
    && |direct| == DIRECT && (forall k :: 0 <= k < DIRECT ==> Entry(store, s, k) == direct[k])
    && Entry(store, s, INDIRECT) == indirect && Entry(store, s, DOUBLY_INDIRECT) == doubly
    && Entry(store, s, MAGIC) == INODE_MAGIC
  }

  /** A new file of zeros at `s`: its blocks and tables are the sectors `got`, no more than it needs, each block at its
      place, all of them free before, and no sector but those and `s` has changed. */
  ghost predicate MadeFile(used: seq<bool>, store: Store, s: Sector, length: nat, got: seq<Sector>, used': seq<bool>,
                           store': Store) {
    && FreeMap.FirstFit(used, got) && used' == FreeMap.Taken(used, got)
    && store'.Keys == store.Keys
    && (forall x :: x in store && x != s && x !in got ==> store'[x] == store[x])
    && File(store', s) && Contents(store', s) == seq(length, _ => 0)
    && (forall k :: 0 <= k < Sectors(length) ==> BlockPlace(k) < |got| && Index(store', s, k) == got[BlockPlace(k)])
    && |got| == Needed(Blocks(length)) && Entry(store', s, 15) == 0x494e_4f44
  }

  lemma NoMoreThanNeeded(store: Store, n: nat, direct: seq<Sector>, indirect: Sector, doubly: Sector, a: seq<Sector>,
                         b: seq<Sector>, tables: seq<Sector>, c: seq<Sector>)
    requires Allocation(store, n, direct, indirect, doubly, a, b, tables, c)
    ensures |a + b + c| == Needed(n)
  {
    assert |a| == Least(n, DIRECT);
    assert |b| == if n <= DIRECT then 0 else 1 + Least(n - DIRECT, SECTOR_WORDS);
    if n > TABLES_FROM { assert GroupBlocks(n - TABLES_FROM, GroupCnt(n - TABLES_FROM)) == n - TABLES_FROM; }
  }

  lemma AllocationKept(store1: Store, store2: Store, s: Sector, n: nat, direct: seq<Sector>, indirect: Sector,
                       doubly: Sector,
                       a: seq<Sector>, b: seq<Sector>, tables: seq<Sector>, c: seq<Sector>, got: seq<Sector>)
    requires Allocation(store1, n, direct, indirect, doubly, a, b, tables, c) && got == a + b + c && s !in got
    requires store2.Keys == store1.Keys && forall x :: x in store2 && x != s ==> store2[x] == store1[x]
    ensures Allocation(store2, n, direct, indirect, doubly, a, b, tables, c)
  {
    forall i | 0 <= i < |a| ensures a[i] != s { assert got[i] == a[i]; }
    forall i | 0 <= i < |b| ensures b[i] != s { assert got[|a| + i] == b[i]; }
    forall i | 0 <= i < |c| ensures c[i] != s { assert got[|a| + |b| + i] == c[i]; }
    DirectKept(store1, store2, n, direct, a);
    IndirectKept(store1, store2, n, indirect, b);
    DoublyKept(store1, store2, n, doubly, tables, c);
  }

  lemma MadeOnDisk(store: Store, s: Sector, length: nat, n: nat, direct: seq<Sector>, indirect: Sector, doubly: Sector,
                   a: seq<Sector>, b: seq<Sector>, tables: seq<Sector>, c: seq<Sector>, got: seq<Sector>)
    requires Allocation(store, n, direct, indirect, doubly, a, b, tables, c) && got == a + b + c
    requires StoreOk(store) && InodeNames(store, s, length, direct, indirect, doubly)
    requires Distinct(got) && s !in got && forall i :: 0 <= i < |got| ==> got[i] in store
    requires Sectors(length) <= n <= MAX_SECTORS
    ensures File(store, s) && Contents(store, s) == seq(length, _ => 0)
    ensures forall k :: 0 <= k < n ==> BlockPlace(k) < |got| && Index(store, s, k) == got[BlockPlace(k)]
  {
    assert Parts(store, s, n, direct, indirect, doubly, a, b, tables, c);
    PartsFile(store, s, length, n, direct, indirect, doubly, a, b, tables, c, got);
  }

  lemma Made(used: seq<bool>, store: Store, s: Sector, length: nat, n: nat, direct: seq<Sector>, indirect: Sector,
             doubly: Sector,
             a: seq<Sector>, b: seq<Sector>, tables: seq<Sector>, c: seq<Sector>, got: seq<Sector>,
             used': seq<bool>, store1: Store, store2: Store)
    requires got == a + b + c && Grown(used, store, got, used', store1) && s !in got
    requires forall x :: x in store <==> 0 <= x < |used|
    requires store2.Keys == store1.Keys && forall x :: x in store2 && x != s ==> store2[x] == store1[x]
    requires StoreOk(store2) && InodeNames(store2, s, length, direct, indirect, doubly)
    requires Allocation(store1, n, direct, indirect, doubly, a, b, tables, c)
    requires n == Blocks(length) <= MAX_SECTORS
    ensures MadeFile(used, store, s, length, got, used', store2)
  {
    GrownUses(used, store, got, used', store1);
    AllocationKept(store1, store2, s, n, direct, indirect, doubly, a, b, tables, c, got);
    MadeOnDisk(store2, s, length, n, direct, indirect, doubly, a, b, tables, c, got);
    NoMoreThanNeeded(store1, n, direct, indirect, doubly, a, b, tables, c);
  }

  lemma TwoPartsKept(used: seq<bool>, store: Store, n: nat, direct: seq<Sector>, indirect: Sector, a: seq<Sector>,
                     b: seq<Sector>,
                     used1: seq<bool>, store1: Store, c: seq<Sector>, used2: seq<bool>, store2: Store)
    requires Grown(used, store, a + b, used1, store1) && Grown(used1, store1, c, used2, store2)
    requires DirectPart(store1, n, direct, a) && IndirectPart(store1, n, indirect, b)
    ensures DirectPart(store2, n, direct, a) && IndirectPart(store2, n, indirect, b)
    ensures Grown(used, store, a + b + c, used2, store2)
  {
    GrownJoin(used, store, a + b, used1, store1, c, used2, store2);
    GrownUses(used, store, a + b, used1, store1);
    forall i | 0 <= i < |a| ensures a[i] < |used1| && used1[a[i]] { assert (a + b)[i] == a[i]; }
    forall i | 0 <= i < |b| ensures b[i] < |used1| && used1[b[i]] { assert (a + b)[|a| + i] == b[i]; }
    GrownAgree(used1, store1, c, used2, store2, a);
    GrownAgree(used1, store1, c, used2, store2, b);
    DirectKept(store1, store2, n, direct, a);
    IndirectKept(store1, store2, n, indirect, b);
  }

  class Volume {
    const fs: Inode.FileSystem
    const freeMap: FreeMap.Map

    ghost predicate Valid()
      reads fs.cache, fs.cache.blocks, freeMap, freeMap.bitmap, freeMap.bitmap.bits
    {
      && fs.Valid() && freeMap.Valid()
      && fs.cache.blocks as object != freeMap.bitmap.bits as object
      && |freeMap.Used()| <= 0x1_0000_0000
      && forall x :: x in fs.Data() <==> 0 <= x < |freeMap.Used()|
    }

    ghost function Used(): seq<bool>
      reads freeMap, freeMap.bitmap
    {
      freeMap.Used()
    }

    ghost function Data(): Store
      requires fs.Valid()
      reads fs.cache, fs.cache.blocks
    {
      fs.Data()
    }

    constructor (fs: Inode.FileSystem, freeMap: FreeMap.Map)
      requires fs.Valid() && freeMap.Valid()
      requires fs.cache.blocks as object != freeMap.bitmap.bits as object
      requires |freeMap.Used()| <= 0x1_0000_0000
      requires forall x :: x in fs.Data() <==> 0 <= x < |freeMap.Used()|
      ensures this.fs == fs && this.freeMap == freeMap && Valid()
    {
      this.fs := fs;
      this.freeMap := freeMap;
    }

    method TakeOne(written: nat -> bool, k: nat) returns (r: Option<Sector>)
      requires Valid()
      modifies freeMap.bitmap, freeMap.bitmap.bits
      ensures Valid() && Data() == old(Data())
      ensures r.Some? <==> Able(old(Used()), freeMap.fileOpen, written, k, 1)
      ensures r.None? ==> Used() == old(Used())
      ensures r.Some? ==> Grown(old(Used()), Data(), [r.value], Used(), Data())
    {
      ghost var none: seq<Sector> := [];
      assert FreeMap.Taken(Used(), none) == Used();
      r := freeMap.AllocateNext(written(k), Used(), none);
      if r.Some? { assert none + [r.value] == [r.value]; }
    }

    method TakeArray(cnt: nat, upto: nat, sectors: array<Sector>, written: nat -> bool, first: nat)
      returns (r: FreeMap.Outcome)
      requires Valid() && cnt <= sectors.Length
      requires sectors as object !in {fs.cache.blocks as object, freeMap.bitmap.bits as object}
      modifies freeMap.bitmap, freeMap.bitmap.bits, sectors
      ensures r.NoSpace? ==> Valid() && Data() == old(Data()) && Used() == old(Used())
      ensures r.Done? <==> Able(old(Used()), freeMap.fileOpen, written, first, Least(cnt, upto))
      ensures r.Crash? <==> !freeMap.fileOpen && 0 < Free(old(Used())) < Least(cnt, upto)
      ensures r.Done? ==> Valid() && Data() == old(Data())
      ensures r.Done? ==> Grown(old(Used()), Data(), sectors[..Least(cnt, upto)], Used(), Data())
      ensures r.Done? ==> forall k :: upto <= k < cnt ==> sectors[k] == 0
      ensures FreeMap.Bounded(old(sectors[..]), sectors[..], |Used()|)
    {
      r := freeMap.AllocateArray(cnt, upto, sectors, written, first);
    }

    method WriteOne(x: Sector, c: seq<Byte>)
      requires Valid() && x in Data() && |c| == SECTOR_SIZE
      modifies fs.cache, fs.cache.blocks
      ensures Valid() && Used() == old(Used()) && Data() == old(Data())[x := c]
    {
      fs.WriteSector(x, c);
    }

    /** Zeroes the sectors listed, and says whether the list was long enough. */
    method ZeroOut(cnt: nat, sectors: array<Sector>) returns (ok: bool)
      requires Valid() && forall i :: 0 <= i < sectors.Length && i < cnt ==> sectors[i] in Data()
      requires sectors as object !in {fs.cache.blocks as object, freeMap.bitmap.bits as object}
      modifies fs.cache, fs.cache.blocks
      ensures Valid() && Used() == old(Used()) && ok == (cnt <= sectors.Length)
      ensures ZeroSectors(Data(), sectors[..Least(cnt, sectors.Length)])
      ensures Data().Keys == old(Data().Keys)
      ensures forall x :: x in Data() && x !in sectors[..Least(cnt, sectors.Length)] ==> Data()[x] == old(Data())[x]
    {
      var i := 0;
      ghost var store, xs := Data(), sectors[..];
      while i < cnt
        invariant i <= cnt && i <= sectors.Length && Valid() && Used() == old(Used()) && sectors[..] == xs
        invariant Data().Keys == store.Keys && ZeroSectors(Data(), xs[..i])
        invariant forall x :: x in store && x !in xs[..i] ==> Data()[x] == store[x]
      {
        if i >= sectors.Length { return false; }
        WriteOne(sectors[i], ZeroSector());
        assert xs[..i + 1] == xs[..i] + [xs[i]];
        i := i + 1;
      }
      return true;
    }

    /** Writes a table of sectors into sector `t`. */
    method WriteTable(t: Sector, entries: array<Sector>)
      requires Valid() && t in Data() && entries.Length == SECTOR_WORDS
      requires forall i :: 0 <= i < entries.Length ==> entries[i] < 0x1_0000_0000
      requires entries as object !in {fs.cache.blocks as object, freeMap.bitmap.bits as object}
      modifies fs.cache, fs.cache.blocks
      ensures Valid() && Used() == old(Used())
      ensures Data().Keys == old(Data().Keys) && TableOf(Data(), t, entries[..])
      ensures forall x :: x in Data() && x != t ==> Data()[x] == old(Data())[x]
    {
      var ws: seq<Word> := entries[..];
      WriteOne(t, Bytes(ws));
      forall i | 0 <= i < |ws| ensures Entry(Data(), t, i) == ws[i] {
        BytesBack(ws, i);
      }
    }

    /** Takes sectors for the first `upto` entries and zeroes as many as it is told to. */
    method TakeZeroed(upto: nat, zeros: nat, sectors: array<Sector>, written: nat -> bool, first: nat)
      returns (r: Result)
      requires Valid() && 0 < upto <= sectors.Length
      requires zeros == upto || (upto < sectors.Length < zeros)
      requires sectors as object !in {fs.cache.blocks as object, freeMap.bitmap.bits as object}
      modifies fs.cache, fs.cache.blocks, freeMap.bitmap, freeMap.bitmap.bits, sectors
      ensures r.Failed? ==> Valid() && Data() == old(Data()) && Used() == old(Used())
      ensures ListEnds(r, old(Used()), freeMap.fileOpen, written, first, upto, zeros)
      ensures r.Failed? ==> FreeMap.Bounded(old(sectors[..]), sectors[..], |Used()|)
      ensures r.Created? ==> Valid() && Grown(old(Used()), old(Data()), sectors[..upto], Used(), Data())
      ensures r.Created? ==> ZeroSectors(Data(), sectors[..upto])
      ensures r.Created? ==> forall k :: upto <= k < sectors.Length ==> sectors[k] == 0
      ensures r.Overrun? ==> Valid() && 0 in Data() && Data()[0] == ZeroSector()
    {
      var taken := TakeArray(sectors.Length, upto, sectors, written, first);
      if taken.NoSpace? { return Failed; }
      if taken.Crash? { return Crash; }
      ghost var store := Data();
      GrownUses(old(Used()), store, sectors[..upto], Used(), store);
      assert sectors[..upto][0] == sectors[0] && sectors[0] < |Used()|;
      forall i | 0 <= i < sectors.Length ensures sectors[i] in Data() {
        if i < upto { assert sectors[..upto][i] == sectors[i]; }
      }
      var ok := ZeroOut(zeros, sectors);
      if !ok {
        assert sectors[..sectors.Length][upto] == 0;
        return Overrun;
      }
      return Created;
    }

    /** Writes the table of blocks that have been taken and zeroed, in a sector taken with them. */
    method WriteTakenTable(table: Sector, buffer: array<Sector>, ghost blocks: seq<Sector>,
                           ghost used: seq<bool>, ghost store: Store, ghost got: seq<Sector>)
      requires Valid() && Grown(used, store, got, Used(), Data()) && table in got && table in Data()
      requires buffer.Length == SECTOR_WORDS && blocks <= buffer[..]
      requires table !in blocks && ZeroSectors(Data(), blocks)
      requires forall i :: 0 <= i < buffer.Length ==> buffer[i] < |Used()|
      requires buffer as object !in {fs.cache.blocks as object, freeMap.bitmap.bits as object}
      modifies fs.cache, fs.cache.blocks
      ensures Valid() && Grown(used, store, got, Used(), Data())
      ensures TableOf(Data(), table, blocks) && ZeroSectors(Data(), blocks)
    {
      ghost var used', store1 := Used(), Data();
      WriteTable(table, buffer);
      WroteTable(used, store, got, used', store1, table, Data());
    }

    method TakeForTable(table: Sector, upto: nat, buffer: array<Sector>, written: nat -> bool, first: nat,
                        ghost used: seq<bool>)
      returns (r: Result, ghost blocks: seq<Sector>)
      requires Valid() && 0 < upto <= SECTOR_WORDS == buffer.Length
      requires forall k :: 0 <= k < SECTOR_WORDS ==> buffer[k] == 0
      requires table in Data() && Grown(used, Data(), [table], Used(), Data())
      requires buffer as object !in {fs.cache.blocks as object, freeMap.bitmap.bits as object}
      modifies fs.cache, fs.cache.blocks, freeMap.bitmap, freeMap.bitmap.bits, buffer
      ensures ListEnds(r, old(Used()), freeMap.fileOpen, written, first, upto, upto)
      ensures r.Created? ==> |blocks| == upto
      ensures !r.Crash? ==> Valid() && TableReady(used, old(Data()), table, blocks, buffer[..], Used(), Data())
    {
      ghost var used1, store, zeros := Used(), Data(), buffer[..];
      r := TakeZeroed(upto, upto, buffer, written, first);
      blocks := [];
      if r.Crash? { return; }
      if r.Created? { blocks := buffer[..upto]; }
      FillReady(r.Created?, used, store, table, used1, zeros, buffer[..], upto, blocks, Used(), Data());
    }

    /** Takes and zeroes the blocks of a table that has just been taken itself, and writes the table. */
    method FillTable(table: Sector, upto: nat, written: nat -> bool, first: nat, ghost used: seq<bool>)
      returns (r: Result, ghost blocks: seq<Sector>)
      requires Valid() && 0 < upto <= SECTOR_WORDS
      requires table in Data() && Grown(used, Data(), [table], Used(), Data())
      modifies fs.cache, fs.cache.blocks, freeMap.bitmap, freeMap.bitmap.bits
      ensures ListEnds(r, old(Used()), freeMap.fileOpen, written, first, upto, upto)
      ensures !r.Crash? ==> Valid() && Grown(used, old(Data()), [table] + blocks, Used(), Data())
      ensures r.Created? ==> |blocks| == upto && TableOf(Data(), table, blocks) && ZeroSectors(Data(), blocks)
    {
      ghost var store := Data();
      var buffer := new Sector[SECTOR_WORDS](_ => 0);
      r, blocks := TakeForTable(table, upto, buffer, written, first, used);
      if r.Crash? { return; }
      WriteTakenTable(table, buffer, blocks, used, store, [table] + blocks);
    }

    method AllocateIndirect(upto: nat, written: nat -> bool, first: nat)
      returns (r: Result, table: Sector, ghost blocks: seq<Sector>, ghost got: seq<Sector>)
      requires Valid() && 0 < upto <= SECTOR_WORDS
      modifies fs.cache, fs.cache.blocks, freeMap.bitmap, freeMap.bitmap.bits
      ensures TableEnds(r, old(Used()), freeMap.fileOpen, written, first, upto)
      ensures !r.Crash? ==> Valid() && Grown(old(Used()), old(Data()), got, Used(), Data())
      ensures r.Created? ==> |blocks| == upto && got == [table] + blocks
      ensures r.Created? ==> TableOf(Data(), table, blocks) && ZeroSectors(Data(), blocks)
    {
      table, blocks, got := 0, [], [];
      GrownNone(Used(), Data());
      var taken := TakeOne(written, first);
      if taken.None? { return Failed, table, blocks, got; }
      table := taken.value;
      TakenOnDisk(old(Used()), Data(), table, Used());
      GrownAble(old(Used()), Data(), [table], Used(), Data(), freeMap.fileOpen, written, first, upto);
      r, blocks := FillTable(table, upto, written, first + 1, old(Used()));
      got := [table] + blocks;
    }

    /** Takes a sector for the table of blocks already taken, and writes the table. */
    method AddTable(buffer: array<Sector>, written: nat -> bool, k: nat, ghost blocks: seq<Sector>,
                    ghost used: seq<bool>, ghost store: Store)
      returns (r: Option<Sector>)
      requires Valid() && Grown(used, store, blocks, Used(), Data()) && ZeroSectors(Data(), blocks)
      requires buffer.Length == SECTOR_WORDS && blocks <= buffer[..]
      requires forall x :: x in store <==> 0 <= x < |used|
      requires forall i :: 0 <= i < buffer.Length ==> buffer[i] < |Used()|
      requires buffer as object !in {fs.cache.blocks as object, freeMap.bitmap.bits as object}
      modifies fs.cache, fs.cache.blocks, freeMap.bitmap, freeMap.bitmap.bits
      ensures Valid()
      ensures r.Some? <==> Able(old(Used()), freeMap.fileOpen, written, k, 1)
      ensures r.None? ==> Grown(used, store, blocks, Used(), Data())
      ensures r.Some? ==> Grown(used, store, blocks + [r.value], Used(), Data())
      ensures r.Some? ==> r.value < |Used()| && TableOf(Data(), r.value, blocks) && ZeroSectors(Data(), blocks)
    {
      ghost var used1, store1 := Used(), Data();
      r := TakeOne(written, k);
      if r.Some? {
        BlocksBeforeTable(used, store, blocks, used1, store1, r.value, Used());
        WriteTakenTable(r.value, buffer, blocks, used, store, blocks + [r.value]);
      }
    }

    /** Takes and zeroes the blocks of a group, then takes and writes its table. */
    method AllocateGroup(upto: nat, zeros: nat, written: nat -> bool, first: nat)
      returns (r: Result, table: Sector, ghost blocks: seq<Sector>, ghost got: seq<Sector>)
      requires Valid() && 0 < upto <= SECTOR_WORDS
      requires zeros == upto || (upto < SECTOR_WORDS < zeros)
      modifies fs.cache, fs.cache.blocks, freeMap.bitmap, freeMap.bitmap.bits
      ensures r.Created? || r.Failed? ==> Valid() && Grown(old(Used()), old(Data()), got, Used(), Data())
      ensures GroupEnds(r, old(Used()), freeMap.fileOpen, written, first, upto, zeros)
      ensures r.Created? ==> |blocks| == upto && got == blocks + [table]
      ensures r.Created? ==> table < |Used()| && TableOf(Data(), table, blocks) && ZeroSectors(Data(), blocks)
      ensures r.Overrun? ==> Valid() && 0 in Data() && Data()[0] == ZeroSector()
    {
      table, blocks, got := 0, [], [];
      GrownNone(Used(), Data());
      var buffer := new Sector[SECTOR_WORDS](_ => 0);
      r := TakeZeroed(upto, zeros, buffer, written, first);
      if !r.Created? { return; }
      blocks := buffer[..upto];
      EntriesInRange(old(Used()), old(Data()), blocks, Used(), Data(), buffer[..]);
      GrownAble(old(Used()), old(Data()), blocks, Used(), Data(), freeMap.fileOpen, written, first, 1);
      var added := AddTable(buffer, written, first + upto, blocks, old(Used()), old(Data()));
      if added.None? { return Failed, table, blocks, blocks; }
      table := added.value;
      got := blocks + [table];
    }

    /** One turn of the loop over groups. */
    method NextGroup(n: nat, i: nat, buffer: array<Sector>, written: nat -> bool, first: nat,
                     ghost used: seq<bool>, ghost store: Store, ghost got: seq<Sector>)
      returns (r: Result, ghost got': seq<Sector>)
      requires Valid() && i < SECTOR_WORDS && i * SECTOR_WORDS < n
      requires LoopState(used, store, n, i, got, buffer[..], Used(), Data())
      requires buffer as object !in {fs.cache.blocks as object, freeMap.bitmap.bits as object}
      modifies fs.cache, fs.cache.blocks, freeMap.bitmap, freeMap.bitmap.bits, buffer
      ensures GroupEnds(r, old(Used()), freeMap.fileOpen, written, first, GroupSize(n, i), GroupZeros(n, i))
      ensures r.Failed? ==> Valid() && Grown(used, store, got', Used(), Data())
      ensures r.Created? ==>
        Valid() && got <= got' && LoopState(used, store, n, i + 1, got', buffer[..], Used(), Data())
      ensures r.Overrun? ==> Valid() && 0 in Data() && Data()[0] == ZeroSector()
    {
      ghost var used1, store1, tables := Used(), Data(), buffer[..];
      var table: Sector;
      ghost var blocks, more;
      r, table, blocks, more := AllocateGroup(GroupSize(n, i), GroupZeros(n, i), written, first);
      got' := got + more;
      if r.Failed? {
        GrownJoin(used, store, got, used1, store1, more, Used(), Data());
      } else if r.Created? {
        GroupAdded(used, store, n, i, got, tables, used1, store1, blocks, table, more, Used(), Data());
        buffer[i] := table;
        assert buffer[..] == tables[i := table];
      }
    }

    /** The same, seen from before the table of tables was taken. */
    method GroupTurn(n: nat, i: nat, buffer: array<Sector>, written: nat -> bool, first: nat,
                     ghost used: seq<bool>, ghost store: Store, ghost got: seq<Sector>)
      returns (r: Result, ghost got': seq<Sector>)
      requires Valid() && i < GroupCnt(n) <= SECTOR_WORDS && got != []
      requires LoopState(used, store, n, i, got, buffer[..], Used(), Data())
      requires Able(used, freeMap.fileOpen, written, first, |got|)
      requires buffer as object !in {fs.cache.blocks as object, freeMap.bitmap.bits as object}
      modifies fs.cache, fs.cache.blocks, freeMap.bitmap, freeMap.bitmap.bits, buffer
      ensures !r.Created? ==> DoublyEnds(r, used, freeMap.fileOpen, written, first, n)
      ensures r.Failed? ==> Valid() && Grown(used, store, got', Used(), Data())
      ensures r.Created? ==>
        Valid() && got <= got' && LoopState(used, store, n, i + 1, got', buffer[..], Used(), Data())
      ensures r.Created? ==> Able(used, freeMap.fileOpen, written, first, |got'|)
      ensures r.Created? && i + 1 == GroupCnt(n) ==> DoublyEnds(Created, used, freeMap.fileOpen, written, first, n)
      ensures r.Overrun? ==> Valid() && 0 in Data() && Data()[0] == ZeroSector()
    {
      LastGroup(n, i);
      ghost var used1, open := Used(), freeMap.fileOpen;
      GrownAble(used, store, got, used1, Data(), open, written, first, GroupSize(n, i));
      GrownAble(used, store, got, used1, Data(), open, written, first, GroupSize(n, i) + 1);
      r, got' := NextGroup(n, i, buffer, written, first + 1 + i * (SECTOR_WORDS + 1), used, store, got);
      GroupStep(r, used, used1, open, written, first, n, i);
    }

    method WriteTop(n: nat, table: Sector, buffer: array<Sector>,
                    ghost used: seq<bool>, ghost store: Store, ghost got: seq<Sector>)
      requires Valid() && got != [] && got[0] == table && table in Data()
      requires LoopState(used, store, n, GroupCnt(n), got, buffer[..], Used(), Data())
      requires buffer as object !in {fs.cache.blocks as object, freeMap.bitmap.bits as object}
      modifies fs.cache, fs.cache.blocks
      ensures Valid() && Grown(used, store, got, Used(), Data())
      ensures Groups(Data(), n, GroupCnt(n), got, buffer[..]) && TableOf(Data(), table, buffer[..])
    {
      ghost var used1, store1, tables := Used(), Data(), buffer[..];
      GrownUses(used, store, got, used1, store1);
      WriteTable(table, buffer);
      GroupsAfterTable(store1, n, GroupCnt(n), got, tables, Data());
      WroteTable(used, store, got, used1, store1, table, Data());
    }

    method GroupLoop(n: nat, buffer: array<Sector>, table: Sector, written: nat -> bool, first: nat,
                     ghost used: seq<bool>)
      returns (r: Result, ghost got: seq<Sector>)
      requires Valid() && 0 < n < 128 * 127
      requires buffer.Length == SECTOR_WORDS && forall k :: 0 <= k < buffer.Length ==> buffer[k] == 0
      requires table in Data() && Grown(used, Data(), [table], Used(), Data())
      requires Able(used, freeMap.fileOpen, written, first, 1)
      requires buffer as object !in {fs.cache.blocks as object, freeMap.bitmap.bits as object}
      modifies fs.cache, fs.cache.blocks, freeMap.bitmap, freeMap.bitmap.bits, buffer
      ensures DoublyEnds(r, used, freeMap.fileOpen, written, first, n)
      ensures r.Failed? ==> Valid() && Grown(used, old(Data()), got, Used(), Data())
      ensures r.Created? ==> Valid() && got != [] && got[0] == table && table in Data()
      ensures r.Created? ==> LoopState(used, old(Data()), n, GroupCnt(n), got, buffer[..], Used(), Data())
      ensures r.Overrun? ==> Valid() && 0 in Data() && Data()[0] == ZeroSector()
    {
      ghost var store := Data();
      got := [table];
      var i := 0;
      while i < GroupCnt(n)
        invariant i <= GroupCnt(n) <= SECTOR_WORDS && Valid() && got != [] && got[0] == table
        invariant LoopState(used, store, n, i, got, buffer[..], Used(), Data())
        invariant Able(used, freeMap.fileOpen, written, first, |got|)
        invariant i == GroupCnt(n) ==> DoublyEnds(Created, used, freeMap.fileOpen, written, first, n)
      {
        r, got := GroupTurn(n, i, buffer, written, first, used, store, got);
        if !r.Created? { return; }
        i := i + 1;
      }
      r := Created;
    }

    method AllocateGroups(n: nat, table: Sector, written: nat -> bool, first: nat, ghost used: seq<bool>)
      returns (r: Result, ghost tables: seq<Sector>, ghost got: seq<Sector>)
      requires Valid() && 0 < n < 128 * 127
      requires table in Data() && Grown(used, Data(), [table], Used(), Data())
      requires Able(used, freeMap.fileOpen, written, first, 1)
      modifies fs.cache, fs.cache.blocks, freeMap.bitmap, freeMap.bitmap.bits
      ensures r.Created? || r.Failed? ==> Valid() && Grown(used, old(Data()), got, Used(), Data())
      ensures DoublyEnds(r, used, freeMap.fileOpen, written, first, n)
      ensures r.Created? ==> got != [] && got[0] == table
      ensures r.Created? ==> Groups(Data(), n, GroupCnt(n), got, tables) && TableOf(Data(), table, tables)
      ensures r.Overrun? ==> Valid() && 0 in Data() && Data()[0] == ZeroSector()
    {
      ghost var store := Data();
      var buffer := new Sector[SECTOR_WORDS](_ => 0);
      r, got := GroupLoop(n, buffer, table, written, first, used);
      tables := buffer[..];
      if r.Created? {
        WriteTop(n, table, buffer, used, store, got);
      }
    }

    /** Takes the table of tables, every group, and writes the table of tables. */
    method AllocateDoublyIndirect(n: nat, written: nat -> bool, first: nat)
      returns (r: Result, table: Sector, ghost tables: seq<Sector>, ghost got: seq<Sector>)
      requires Valid() && 0 < n < 128 * 127
      modifies fs.cache, fs.cache.blocks, freeMap.bitmap, freeMap.bitmap.bits
      ensures r.Created? || r.Failed? ==> Valid() && Grown(old(Used()), old(Data()), got, Used(), Data())
      ensures DoublyEnds(r, old(Used()), freeMap.fileOpen, written, first, n)
      ensures r.Created? ==> table < 0x1_0000_0000 && DoublyMade(Data(), n, table, tables, got)
      ensures r.Overrun? ==> Valid() && 0 in Data() && Data()[0] == ZeroSector()
    {
      table, tables, got := 0, [], [];
      GrownNone(Used(), Data());
      var taken := TakeOne(written, first);
      if taken.None? { return Failed, table, tables, got; }
      table := taken.value;
      TakenOnDisk(old(Used()), Data(), table, Used());
      r, tables, got := AllocateGroups(n, table, written, first, old(Used()));
    }

    /** The indirect blocks, after the direct ones. */
    method AddIndirect(n: nat, written: nat -> bool, first: nat,
                       ghost used: seq<bool>, ghost store: Store, ghost direct: seq<Sector>, ghost a: seq<Sector>)
      returns (r: Result, indirect: Sector, ghost b: seq<Sector>)
      requires Valid() && Grown(used, store, a, Used(), Data()) && DirectPart(Data(), n, direct, a)
      requires forall x :: x in store <==> 0 <= x < |used|
      modifies fs.cache, fs.cache.blocks, freeMap.bitmap, freeMap.bitmap.bits
      ensures n <= DIRECT ==> r.Created? && Used() == old(Used())
      ensures n > DIRECT ==>
        TableEnds(r, old(Used()), freeMap.fileOpen, written, first, Least(n - DIRECT, SECTOR_WORDS))
      ensures !r.Crash? ==> Valid() && Grown(used, store, a + b, Used(), Data())
      ensures r.Created? ==> DirectPart(Data(), n, direct, a) && IndirectPart(Data(), n, indirect, b)
      ensures r.Created? ==> indirect < 0x1_0000_0000
    {
      indirect, b := 0, [];
      assert a + b == a;
      if n <= DIRECT { return Created, indirect, b; }
      ghost var used1, store1, blocks := Used(), Data(), [];
      r, indirect, blocks, b := AllocateIndirect(Least(n - DIRECT, SECTOR_WORDS), written, first);
      if r.Crash? { return; }
      GrownJoin(used, store, a, used1, store1, b, Used(), Data());
      if r.Created? {
        GrownUses(used, store, a, used1, store1);
        GrownAgree(used1, store1, b, Used(), Data(), a);
        DirectKept(store1, Data(), n, direct, a);
        assert b[1..] == blocks;
        GrownUses(used1, store1, b, Used(), Data());
        assert b[0] == indirect;
      }
    }

    /** The doubly indirect blocks, after the others. */
    method AddDoubly(n: nat, m: nat, indirect: Sector, written: nat -> bool, first: nat, ghost used: seq<bool>,
                     ghost store: Store,
                     ghost direct: seq<Sector>, ghost a: seq<Sector>, ghost b: seq<Sector>)
      returns (r: Result, doubly: Sector, ghost tables: seq<Sector>, ghost c: seq<Sector>)
      requires Valid() && n == TABLES_FROM + m <= MAX_SECTORS && m > 0 && Grown(used, store, a + b, Used(), Data())
      requires DirectPart(Data(), n, direct, a) && IndirectPart(Data(), n, indirect, b)
      modifies fs.cache, fs.cache.blocks, freeMap.bitmap, freeMap.bitmap.bits
      ensures r.Created? || r.Failed? ==> Valid() && Grown(used, store, a + b + c, Used(), Data())
      ensures r.Created? ==> DirectPart(Data(), n, direct, a) && IndirectPart(Data(), n, indirect, b)
      ensures DoublyEnds(r, old(Used()), freeMap.fileOpen, written, first, m)
      ensures r.Created? ==> doubly < 0x1_0000_0000 && DoublyMade(Data(), m, doubly, tables, c)
      ensures r.Overrun? ==> Valid() && 0 in Data() && Data()[0] == ZeroSector()
    {
      ghost var used1, store1 := Used(), Data();
      r, doubly, tables, c := AllocateDoublyIndirect(m, written, first);
      if r.Created? || r.Failed? {
        TwoPartsKept(used, store, n, direct, indirect, a, b, used1, store1, c, Used(), Data());
      }
    }

    /** The indirect and doubly indirect blocks, as many as `n` needs. */
    method AddTables(n: nat, written: nat -> bool, ghost used: seq<bool>, ghost store: Store,
                     ghost direct: seq<Sector>, ghost a: seq<Sector>)
      returns (r: Result, indirect: Sector, doubly: Sector,
               ghost b: seq<Sector>, ghost tables: seq<Sector>, ghost c: seq<Sector>)
      requires Valid() && n <= MAX_SECTORS
      requires Grown(used, store, a, Used(), Data()) && DirectPart(Data(), n, direct, a)
      requires Able(used, freeMap.fileOpen, written, 0, |a|)
      requires forall x :: x in store <==> 0 <= x < |used|
      modifies fs.cache, fs.cache.blocks, freeMap.bitmap, freeMap.bitmap.bits
      ensures BlocksEnd(r, used, freeMap.fileOpen, written, n)
      ensures r.Created? || r.Failed? ==> Valid() && Grown(used, store, a + b + c, Used(), Data())
      ensures r.Created? ==> Allocation(Data(), n, direct, indirect, doubly, a, b, tables, c)
      ensures r.Overrun? ==> Valid() && 0 in Data() && Data()[0] == ZeroSector()
    {
      ghost var used1, store1, open := Used(), Data(), freeMap.fileOpen;
      doubly, tables, c := 0, [], [];
      r, indirect, b := AddIndirect(n, written, DIRECT, used, store, direct, a);
      assert a + b + c == a + b;
      IndirectEnds(r, used, store, a, used1, store1, open, written, n);
      if !r.Created? { return; }
      if n <= TABLES_FROM {
        SmallAllocation(Data(), n, direct, indirect, a, b);
        SmallEnds(used, open, written, n);
      } else {
        var m := n - TABLES_FROM;
        ghost var used2, store2 := Used(), Data();
        r, doubly, tables, c := AddDoubly(n, m, indirect, written, TABLES_FROM + 1, used, store, direct, a, b);
        DoublyAfter(r, used, store, a + b, used2, store2, open, written, n, m);
        if r.Created? { LargeAllocation(Data(), n, m, direct, indirect, doubly, a, b, tables, c); }
      }
    }

    /** Direct, indirect and doubly indirect blocks, as many as `n` needs. */
    method AllocateBlocks(n: nat, direct: array<Sector>, written: nat -> bool)
      returns (r: Result, indirect: Sector, doubly: Sector,
               ghost a: seq<Sector>, ghost b: seq<Sector>, ghost tables: seq<Sector>, ghost c: seq<Sector>)
      requires Valid() && 0 < n <= MAX_SECTORS && direct.Length == DIRECT
      requires direct as object !in {fs.cache.blocks as object, freeMap.bitmap.bits as object}
      modifies fs.cache, fs.cache.blocks, freeMap.bitmap, freeMap.bitmap.bits, direct
      ensures r.Created? || r.Failed? ==> Valid() && Grown(old(Used()), old(Data()), a + b + c, Used(), Data())
      ensures r.Created? ==> Allocation(Data(), n, direct[..], indirect, doubly, a, b, tables, c)
      ensures r.Created? ==> forall k :: 0 <= k < DIRECT ==> direct[k] < 0x1_0000_0000
      ensures BlocksEnd(r, old(Used()), freeMap.fileOpen, written, n)
      ensures r.Overrun? ==> Valid() && 0 in Data() && Data()[0] == ZeroSector()
    {
      ghost var used, store := Used(), Data();
      indirect, doubly, a, b, tables, c := 0, 0, [], [], [], [];
      GrownNone(used, store);
      var upto := Least(n, DIRECT);
      r := TakeZeroed(upto, upto, direct, written, 0);
      assert a + b + c == a;
      if !r.Created? {
        DirectStops(r, used, freeMap.fileOpen, written, n);
        return;
      }
      a := direct[..upto];
      GrownUses(used, store, a, Used(), Data());
      ghost var ds := direct[..];
      forall k | 0 <= k < DIRECT ensures direct[k] < 0x1_0000_0000 {
        if k < upto { assert a[k] == direct[k]; }
      }
      r, indirect, doubly, b, tables, c := AddTables(n, written, used, store, ds, a);
    }

    method WriteInode(s: Sector, length: nat, direct: array<Sector>, indirect: Word, doubly: Word)
      requires Valid() && s in Data() && length < 0x8000_0000 && direct.Length == DIRECT
      requires forall k :: 0 <= k < DIRECT ==> direct[k] < 0x1_0000_0000
      requires direct as object !in {fs.cache.blocks as object, freeMap.bitmap.bits as object}
      modifies fs.cache, fs.cache.blocks
      ensures Valid() && Used() == old(Used()) && Data().Keys == old(Data().Keys)
      ensures forall x :: x in Data() && x != s ==> Data()[x] == old(Data())[x]
      ensures InodeNames(Data(), s, length, direct[..], indirect, doubly)
    {
      var ds: seq<Word> := direct[..];
      var ws: seq<Word> := ds + [indirect, doubly, length, INODE_MAGIC] + seq(UNUSED_WORDS, _ => 0);
      WriteOne(s, Bytes(ws));
      forall k | 0 <= k < |ws| ensures Entry(Data(), s, k) == ws[k] {
        BytesBack(ws, k);
      }
    }

    method Finish(s: Sector, length: nat, n: nat, direct: array<Sector>, indirect: Sector, doubly: Sector,
                  ghost used: seq<bool>,
                  ghost store: Store, ghost a: seq<Sector>, ghost b: seq<Sector>, ghost tables: seq<Sector>,
                  ghost c: seq<Sector>)
      requires Valid() && s in Data() && length < 0x8000_0000 && n == Blocks(length) <= MAX_SECTORS
      requires direct.Length == DIRECT && forall k :: 0 <= k < DIRECT ==> direct[k] < 0x1_0000_0000
      requires Grown(used, store, a + b + c, Used(), Data()) && s !in a + b + c
      requires forall x :: x in store <==> 0 <= x < |used|
      requires Allocation(Data(), n, direct[..], indirect, doubly, a, b, tables, c)
      requires direct as object !in {fs.cache.blocks as object, freeMap.bitmap.bits as object}
      modifies fs.cache, fs.cache.blocks
      ensures Valid() && MadeFile(used, store, s, length, a + b + c, Used(), Data())
    {
      ghost var used', store1, ds := Used(), Data(), direct[..];
      WriteInode(s, length, direct, indirect, doubly);
      Made(used, store, s, length, n, ds, indirect, doubly, a, b, tables, c, a + b + c, used', store1, Data());
    }

    /** Creates a file of `length` zero bytes whose inode is at `s`. */
    method Create(s: Sector, length: nat, memory: bool, written: nat -> bool)
      returns (r: Result, ghost got: seq<Sector>)
      requires Valid() && s < |Used()| && Used()[s] && length < 0x8000_0000
      modifies fs.cache, fs.cache.blocks, freeMap.bitmap, freeMap.bitmap.bits
      ensures r.Created? ==> Valid() && MadeFile(old(Used()), old(Data()), s, length, got, Used(), Data())
      ensures r.Failed? ==> Valid() && Grown(old(Used()), old(Data()), got, Used(), Data())
      ensures r.Overrun? ==> Valid() && 0 in Data() && Data()[0] == ZeroSector()
      ensures if memory && Blocks(length) <= MAX_SECTORS
              then BlocksEnd(r, old(Used()), freeMap.fileOpen, written, Blocks(length))
              else r.Failed? && got == []
    {
      got := [];
      GrownNone(Used(), Data());
      if !memory { return Failed, got; }
      var n := Blocks(length);
      if n > MAX_SECTORS { return Failed, got; }
      ghost var used, store, a, b, tables, c := Used(), Data(), [], [], [], [];
      var direct := new Sector[DIRECT](_ => 0);
      var indirect, doubly;
      r, indirect, doubly, a, b, tables, c := AllocateBlocks(n, direct, written);
      got := a + b + c;
      if r.Created? {
        GrownKeeps(used, store, got, Used(), Data(), s);
        Finish(s, length, n, direct, indirect, doubly, used, store, a, b, tables, c);
      }
    }
  }

  /** The largest file has eight megabytes, and its tables would list 12 + 128 blocks more. */
  lemma LargestFile(length: nat)
    ensures Blocks(length) <= MAX_SECTORS <==> length <= 8 * 1024 * 1024
    ensures length <= 8 * 1024 * 1024 ==> Blocks(length) <= 128 * 128
    ensures Blocks(0) == 1 && (length > 0 ==> Blocks(length) * 512 >= length > (Blocks(length) - 1) * 512)
  {
  }

  /** Exactly when: more than 12 + 128 + 128 blocks, not filling the last table. */
  lemma OverrunCondition(n: nat)
    ensures CreateOverruns(n) <==> n > 12 + 128 + 128 && (n - 12 - 128) % 128 != 0
    ensures CreateOverruns(Sectors(269 * SECTOR_SIZE))
  {
  }

  lemma InUseNotTaken(used: seq<bool>, got: seq<Sector>, x: Sector)
    requires FreeMap.FirstFit(used, got) && x < |used| && used[x]
    ensures x !in got
  {
  }

  /** The files there were are as they were: their sectors were in use. */
  lemma CreateKeepsFiles(used: seq<bool>, store: Store, s: Sector, length: nat, got: seq<Sector>, used': seq<bool>,
                         store': Store, t: Sector)
    requires MadeFile(used, store, s, length, got, used', store')
    requires File(store, t) && forall x: Sector :: Owns(store, t, x) ==> x != s && x < |used| && used[x]
    ensures File(store', t) && Contents(store', t) == Contents(store, t)
  {
    forall x | x in store && Owns(store, t, x) ensures store'[x] == store[x] {
      InUseNotTaken(used, got, x);
    }
    OtherFile(store, store', t);
  }
}
