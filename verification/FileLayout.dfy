/** How a file lies on the sectors: direct, indirect and doubly indirect blocks. */
module FileLayout {

  import opened Basics
  import opened SectorWords

  type Store = map<Sector, seq<Byte>>

  const DIRECT: nat := 12
  const MAX_INODE_SIZE: nat := 0x80_0000

  // Words of an inode sector: entries 0 to 11 are the direct blocks.
  const INDIRECT: nat := 12

  const DOUBLY_INDIRECT: nat := 13
  const LENGTH: nat := 14

  ghost predicate StoreOk(store: Store) {
    forall s :: s in store ==> |store[s]| == SECTOR_SIZE
  }

  /** Word `i` of sector `s`. */
  ghost function Entry(store: Store, s: Sector, i: nat): Word {
    if s in store && 4 * i + 4 <= |store[s]| then WordAt(store[s], i) else 0
  }

  /** The sector of the k-th block of the file whose inode is at `s`. */
  ghost function Index(store: Store, s: Sector, k: nat): Sector {
    if k < DIRECT then Entry(store, s, k)
    else if k < DIRECT + SECTOR_WORDS then Entry(store, Entry(store, s, INDIRECT), k - DIRECT)
    else
      var j := k - DIRECT - SECTOR_WORDS;
      Entry(store, Entry(store, Entry(store, s, DOUBLY_INDIRECT), j / SECTOR_WORDS), j % SECTOR_WORDS)
  }

  /** The sectors that are read to find the k-th block. */
  ghost function Path(store: Store, s: Sector, k: nat): set<Sector> {
    if k < DIRECT then {s}
    else if k < DIRECT + SECTOR_WORDS then {s, Entry(store, s, INDIRECT)}
    else
      var d := Entry(store, s, DOUBLY_INDIRECT);
      {s, d, Entry(store, d, (k - DIRECT - SECTOR_WORDS) / SECTOR_WORDS)}
  }

  ghost function Length(store: Store, s: Sector): nat { Entry(store, s, LENGTH) }

  function Sectors(length: nat): nat { (length + SECTOR_SIZE - 1) / SECTOR_SIZE }

  /** The first `n` blocks of the file at `s` are different sectors, and none is read to find any of them. */
  ghost predicate Layout(store: Store, s: Sector, n: nat) {
    && s in store
    && (forall k :: 0 <= k < n ==> Path(store, s, k) <= store.Keys && Index(store, s, k) in store)
    && (forall k, l :: 0 <= k < l < n ==> Index(store, s, k) != Index(store, s, l))
    && (forall k, l :: 0 <= k < n && 0 <= l < n ==> Index(store, s, k) !in Path(store, s, l))
    && (forall k :: 0 <= k < n ==> Index(store, s, k) != s)
  }

  /** A file: its blocks cover its length. */
  ghost predicate File(store: Store, s: Sector) {
    && StoreOk(store) && s in store
    && Length(store, s) <= MAX_INODE_SIZE
    && Layout(store, s, Sectors(Length(store, s)))
  }

  ghost function ByteAt(store: Store, s: Sector, p: nat): Byte
    requires File(store, s) && p < Length(store, s)
  {
    assert p / SECTOR_SIZE < Sectors(Length(store, s));
    var b := Index(store, s, p / SECTOR_SIZE);
    store[b][p % SECTOR_SIZE]
  }

  ghost function Contents(store: Store, s: Sector): (c: seq<Byte>)
    requires File(store, s)
    ensures |c| == Length(store, s)
  {
    seq(Length(store, s), p requires 0 <= p < Length(store, s) => ByteAt(store, s, p))
  }

  // ----- writing a block -----

  /** Stores that agree on the sectors read find the same block. */
  lemma SameIndex(store: Store, store': Store, s: Sector, k: nat)
    requires forall x :: x in Path(store, s, k) && x in store ==> x in store' && store'[x] == store[x]
    requires forall x :: x in Path(store, s, k) && x !in store ==> x !in store'
    ensures Index(store', s, k) == Index(store, s, k)
    ensures Path(store', s, k) == Path(store, s, k)
  {
  }

  /** Sector `x` is the file's inode, one of its blocks, or read to find one. */
  ghost predicate Owns(store: Store, s: Sector, x: Sector) {
    || x == s
    || exists k :: 0 <= k < Sectors(Length(store, s)) && (x in Path(store, s, k) || x == Index(store, s, k))
  }

  /** Writing sectors that are none of a file's own leaves the file as it was. */
  lemma OtherFile(store: Store, store': Store, s: Sector)
    requires File(store, s) && StoreOk(store') && store'.Keys == store.Keys
    requires forall x :: x in store && Owns(store, s, x) ==> store'[x] == store[x]
    ensures File(store', s) && Contents(store', s) == Contents(store, s)
  {
    assert Owns(store, s, s);
    forall k | 0 <= k < Sectors(Length(store, s))
      ensures Index(store', s, k) == Index(store, s, k) && Path(store', s, k) == Path(store, s, k)
      ensures store'[Index(store, s, k)] == store[Index(store, s, k)]
    {
      assert Owns(store, s, Index(store, s, k));
      forall x | x in Path(store, s, k) ensures x in store && store'[x] == store[x] {
        assert Owns(store, s, x);
      }
      SameIndex(store, store', s, k);
    }
  }

  /** Overwriting one of a file's blocks moves none of them. */
  lemma SameLayout(store: Store, s: Sector, n: nat, k: nat, c: seq<Byte>)
    requires StoreOk(store) && Layout(store, s, n) && k < n && |c| == SECTOR_SIZE
    ensures var store' := store[Index(store, s, k) := c];
      && StoreOk(store') && Layout(store', s, n) && store'[s] == store[s]
      && forall l :: 0 <= l < n ==> Index(store', s, l) == Index(store, s, l)
  {
    var store' := store[Index(store, s, k) := c];
    forall l | 0 <= l < n
      ensures Index(store', s, l) == Index(store, s, l) && Path(store', s, l) == Path(store, s, l)
    {
      SameIndex(store, store', s, l);
    }
  }

  function Splice(c: seq<Byte>, o: nat, d: seq<Byte>): (r: seq<Byte>)
    requires o + |d| <= |c|
    ensures |r| == |c|
    ensures forall i :: 0 <= i < |c| ==> r[i] == if o <= i < o + |d| then d[i - o] else c[i]
  {
    c[..o] + d + c[o + |d|..]
  }

  lemma SplicedByte(store: Store, s: Sector, p: nat, d: seq<Byte>, q: nat)
    requires File(store, s) && p < Length(store, s) && q < Length(store, s)
    requires p % SECTOR_SIZE + |d| <= SECTOR_SIZE
    requires Index(store, s, p / SECTOR_SIZE) in store
    requires var store' := store[Index(store, s, p / SECTOR_SIZE) :=
      Splice(store[Index(store, s, p / SECTOR_SIZE)], p % SECTOR_SIZE, d)];
      && File(store', s) && store'[s] == store[s]
      && forall l :: 0 <= l < Sectors(Length(store, s)) ==> Index(store', s, l) == Index(store, s, l)
    ensures
      var store' := store[Index(store, s, p / SECTOR_SIZE) :=
        Splice(store[Index(store, s, p / SECTOR_SIZE)], p % SECTOR_SIZE, d)];
      ByteAt(store', s, q) == if p <= q < p + |d| then d[q - p] else ByteAt(store, s, q)
  {
    var k, l, n := p / SECTOR_SIZE, q / SECTOR_SIZE, Sectors(Length(store, s));
    assert k < n && l < n;
    if k < l {
      assert Index(store, s, k) != Index(store, s, l);
    } else if l < k {
      assert Index(store, s, l) != Index(store, s, k);
    }
  }

  /** Splicing bytes into a block splices them into the file. */
  lemma SpliceBlock(store: Store, s: Sector, p: nat, d: seq<Byte>)
    requires File(store, s) && p < Length(store, s) && p + |d| <= Length(store, s)
    requires p % SECTOR_SIZE + |d| <= SECTOR_SIZE
    ensures var b := Index(store, s, p / SECTOR_SIZE);
      && b in store && |store[b]| == SECTOR_SIZE
      && var store' := store[b := Splice(store[b], p % SECTOR_SIZE, d)];
      && File(store', s) && Contents(store', s) == Splice(Contents(store, s), p, d)
      && store'[s] == store[s]
      && (forall l :: 0 <= l < Sectors(Length(store, s)) ==> Index(store', s, l) == Index(store, s, l))
  {
    var k, n := p / SECTOR_SIZE, Sectors(Length(store, s));
    assert k < n;
    var b := Index(store, s, k);
    var store' := store[b := Splice(store[b], p % SECTOR_SIZE, d)];
    SameLayout(store, s, n, k, store'[b]);
    forall q | 0 <= q < Length(store, s) ensures ByteAt(store', s, q) == Splice(Contents(store, s), p, d)[q] {
      SplicedByte(store, s, p, d, q);
    }
  }
}
