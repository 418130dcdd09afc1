/** Reading and writing files through the buffer cache. */
module Inode {

  import opened Basics
  import opened SectorWords
  import opened FileLayout
  import BufferCache

  class Node {
    const sector: Sector

    var denyWriteCnt: nat

    constructor (sector: Sector)
      ensures this.sector == sector && denyWriteCnt == 0
    {
      this.sector := sector;
      denyWriteCnt := 0;
    }
  }

  /** As much of a request as the file has left. */
  function Readable(size: int, offset: nat, length: nat): nat {
    if offset >= length || size <= 0 then 0 else if size < length - offset then size else length - offset
  }

  /** What a read gets: without memory, only whole sectors, and none if it does not begin at one. */
  function Obtained(size: int, offset: nat, length: nat, memory: bool): nat {
    var n := Readable(size, offset, length);
    if memory then n else if offset % SECTOR_SIZE != 0 then 0 else n / SECTOR_SIZE * SECTOR_SIZE
  }

  /** All that is asked for is read, or all that is left of the file. */
  predicate ReadInFull(size: int, offset: nat, length: nat, n: nat) {
    && (size <= 0 ==> n == 0)
    && (size > 0 ==> n <= size && (n < size ==> offset + n >= length) && (n > 0 ==> offset + n <= length))
  }

  /** Whole sectors are read, from the start of one, as long as there are any: less than another is left. */
  predicate ReadWhole(size: int, offset: nat, length: nat, n: nat) {
    && n % SECTOR_SIZE == 0 && (n > 0 ==> offset % SECTOR_SIZE == 0 && n <= size && offset + n <= length)
    && (offset % SECTOR_SIZE == 0 ==> size < n + SECTOR_SIZE || length < offset + n + SECTOR_SIZE)
  }

  lemma ObtainedIs(size: int, offset: nat, length: nat)
    ensures ReadInFull(size, offset, length, Obtained(size, offset, length, true))
    ensures ReadWhole(size, offset, length, Obtained(size, offset, length, false))
  {
  }

  /** The part of a request that lies in the sector of `pos` and in the file. */
  function ChunkSize(left: nat, pos: nat, length: nat): (chunk: nat)
    requires left > 0 && pos < length
    ensures 0 < chunk <= left && pos + chunk <= length && pos % SECTOR_SIZE + chunk <= SECTOR_SIZE
  {
    Least(left, Least(length - pos, SECTOR_SIZE - pos % SECTOR_SIZE))
  }

  /** `n` bytes from `offset` on are none or whole sectors. */
  predicate Whole(offset: nat, n: nat) { n == 0 || (offset % SECTOR_SIZE == 0 && n % SECTOR_SIZE == 0) }

  /** Less than a whole sector is read through a bounce buffer. */
  predicate NeedsBounce(pos: nat, chunk: nat) { pos % SECTOR_SIZE != 0 || chunk < SECTOR_SIZE }

  lemma WholeNext(offset: nat, n: nat, chunk: nat)
    requires Whole(offset, n) && !NeedsBounce(offset + n, chunk) && (offset + n) % SECTOR_SIZE + chunk <= SECTOR_SIZE
    ensures Whole(offset, n + chunk)
  {
  }

  lemma NoBounce(size: nat, offset: nat, length: nat, n: nat)
    requires n < size && offset + n < length && Whole(offset, n)
    requires NeedsBounce(offset + n, ChunkSize(size - n, offset + n, length))
    ensures n == Obtained(size, offset, length, false)
  {
  }

  lemma AllWhole(offset: nat, n: nat)
    requires Whole(offset, n)
    ensures n == if offset % SECTOR_SIZE != 0 then 0 else n / SECTOR_SIZE * SECTOR_SIZE
  {
  }

  /** Sector `x` is one of the file's blocks. */
  ghost predicate IsBlock(store: Store, s: Sector, x: Sector) {
    exists k :: 0 <= k < Sectors(Length(store, s)) && x == Index(store, s, k)
  }

  /** No sector but the file's blocks has changed. */
  ghost predicate OnlyBlocks(store: Store, s: Sector, store': Store) {
    && store'.Keys == store.Keys
    && forall x :: x in store && !IsBlock(store, s, x) ==> store'[x] == store[x]
  }

  ghost predicate SameBlocks(store: Store, s: Sector, store': Store) {
    && Length(store', s) == Length(store, s)
    && forall k :: 0 <= k < Sectors(Length(store, s)) ==> Index(store', s, k) == Index(store, s, k)
  }

  /** `n` bytes of `c` from `from` on have been copied to position `at`. */
  ghost predicate Copied(before: seq<Byte>, at: nat, c: seq<Byte>, from: nat, n: nat, after: seq<Byte>) {
    && |after| == |before| && at + n <= |before| && from + n <= |c|
    && forall i :: 0 <= i < |after| ==> after[i] == if at <= i < at + n then c[from + i - at] else before[i]
  }

  /** The first `n` bytes of `b` have been written to the file from `offset` on: the file has the same blocks,
      its contents have those bytes in place, and nothing else on the disk has changed. */
  ghost predicate Rewritten(store: Store, s: Sector, offset: nat, b: seq<Byte>, n: nat, store': Store)
    requires File(store, s)
  {
    && File(store', s) && SameBlocks(store, s, store') && OnlyBlocks(store, s, store')
    && Copied(Contents(store, s), offset, b, 0, n, Contents(store', s))
  }

  /** `d` has been spliced into the block that holds position `pos`. */
  ghost predicate BlockSpliced(store: Store, s: Sector, pos: nat, d: seq<Byte>, store': Store) {
    var b := Index(store, s, pos / SECTOR_SIZE);
    && b in store && pos % SECTOR_SIZE + |d| <= |store[b]|
    && store' == store[b := Splice(store[b], pos % SECTOR_SIZE, d)]
  }

  lemma InFile(store: Store, s: Sector, pos: nat)
    requires File(store, s) && pos < Length(store, s)
    ensures pos / SECTOR_SIZE < Sectors(Length(store, s))
    ensures Path(store, s, pos / SECTOR_SIZE) <= store.Keys && Index(store, s, pos / SECTOR_SIZE) in store
  {
  }

  lemma SplicedFile(store: Store, s: Sector, pos: nat, d: seq<Byte>, store': Store)
    requires File(store, s) && BlockSpliced(store, s, pos, d, store')
    requires pos < Length(store, s) && pos + |d| <= Length(store, s)
    ensures File(store', s) && SameBlocks(store, s, store')
    ensures Contents(store', s) == Splice(Contents(store, s), pos, d)
  {
    InFile(store, s, pos);
    SpliceBlock(store, s, pos, d);
  }

  lemma SpliceOnlyBlock(store: Store, s: Sector, between: Store, pos: nat, d: seq<Byte>, after: Store)
    requires OnlyBlocks(store, s, between) && SameBlocks(store, s, between)
    requires pos < Length(store, s) && BlockSpliced(between, s, pos, d, after)
    ensures OnlyBlocks(store, s, after)
  {
    assert pos / SECTOR_SIZE < Sectors(Length(store, s));
    assert IsBlock(store, s, Index(between, s, pos / SECTOR_SIZE));
  }

  lemma SpliceCopies(c: seq<Byte>, between: seq<Byte>, after: seq<Byte>, offset: nat, b: seq<Byte>, n: nat, pos: nat,
                     d: seq<Byte>)
    requires Copied(c, offset, b, 0, n, between)
    requires pos == offset + n && n + |d| <= |b| && d == b[n..n + |d|]
    requires pos + |d| <= |between| && after == Splice(between, pos, d)
    ensures Copied(c, offset, b, 0, n + |d|, after)
  {
  }

  lemma RewriteNext(store: Store, s: Sector, offset: nat, b: seq<Byte>, n: nat, pos: nat, d: seq<Byte>,
                    between: Store, after: Store)
    requires File(store, s) && Rewritten(store, s, offset, b, n, between)
    requires pos == offset + n && n + |d| <= |b| && d == b[n..n + |d|]
    requires d != [] && pos + |d| <= Length(store, s)
    requires BlockSpliced(between, s, pos, d, after)
    ensures Rewritten(store, s, offset, b, n + |d|, after)
  {
    SplicedFile(between, s, pos, d, after);
    SpliceOnlyBlock(store, s, between, pos, d, after);
    SpliceCopies(Contents(store, s), Contents(between, s), Contents(after, s), offset, b, n, pos, d);
  }

  lemma JoinCopies(before: seq<Byte>, between: seq<Byte>, after: seq<Byte>, c: seq<Byte>, from: nat, m: nat, n: nat)
    requires Copied(before, 0, c, from, m, between) && Copied(between, m, c, from + m, n, after)
    ensures Copied(before, 0, c, from, m + n, after)
  {
  }

  method CopyBytes(buffer: array<Byte>, at: nat, c: seq<Byte>, from: nat, n: nat)
    requires at + n <= buffer.Length && from + n <= |c|
    modifies buffer
    ensures Copied(old(buffer[..]), at, c, from, n, buffer[..])
  {
    forall i | at <= i < at + n {
      buffer[i] := c[from + i - at];
    }
  }

  lemma SameSector(pos: nat, i: nat)
    requires pos % SECTOR_SIZE + i < SECTOR_SIZE
    ensures (pos + i) / SECTOR_SIZE == pos / SECTOR_SIZE && (pos + i) % SECTOR_SIZE == pos % SECTOR_SIZE + i
  {
  }

  /** What is copied out of a sector is copied out of the file. */
  lemma ChunkOfFile(store: Store, s: Sector, pos: nat, n: nat, before: seq<Byte>, at: nat, after: seq<Byte>)
    requires File(store, s) && pos < Length(store, s) && pos + n <= Length(store, s)
    requires pos % SECTOR_SIZE + n <= SECTOR_SIZE
    requires Index(store, s, pos / SECTOR_SIZE) in store
    requires Copied(before, at, store[Index(store, s, pos / SECTOR_SIZE)], pos % SECTOR_SIZE, n, after)
    ensures Copied(before, at, Contents(store, s), pos, n, after)
  {
    var c, from := store[Index(store, s, pos / SECTOR_SIZE)], pos % SECTOR_SIZE;
    forall i | at <= i < at + n ensures after[i] == Contents(store, s)[pos + i - at] {
      SameSector(pos, i - at);
      assert Contents(store, s)[pos + i - at] == ByteAt(store, s, pos + i - at);
    }
  }

  /** The two divisions of a byte offset find the block's place in the two levels of tables. */
  lemma DoublyIndexed(p: nat)
    requires p < MAX_INODE_SIZE
    ensures p / (SECTOR_WORDS * SECTOR_SIZE) == p / SECTOR_SIZE / SECTOR_WORDS < SECTOR_WORDS
    ensures (p / SECTOR_SIZE % (SECTOR_WORDS * SECTOR_SIZE)) % SECTOR_WORDS == p / SECTOR_SIZE % SECTOR_WORDS
  {
  }

  /** The tables, and the places in them, that lead to the block of a byte offset. */
  lemma BlockIndex(store: Store, s: Sector, pos: nat)
    requires pos < MAX_INODE_SIZE && Path(store, s, pos / SECTOR_SIZE) <= store.Keys
    ensures pos < DIRECT * SECTOR_SIZE ==>
      pos / SECTOR_SIZE < DIRECT && Index(store, s, pos / SECTOR_SIZE) == Entry(store, s, pos / SECTOR_SIZE)
    ensures var p := pos - DIRECT * SECTOR_SIZE; var t := Entry(store, s, INDIRECT);
      0 <= p < SECTOR_WORDS * SECTOR_SIZE ==>
        t in store && p / SECTOR_SIZE < SECTOR_WORDS &&
        Index(store, s, pos / SECTOR_SIZE) == Entry(store, t, p / SECTOR_SIZE)
    ensures var p := pos - (DIRECT + SECTOR_WORDS) * SECTOR_SIZE; var d := Entry(store, s, DOUBLY_INDIRECT);
      p >= 0 ==>
        && d in store && p / (SECTOR_WORDS * SECTOR_SIZE) < SECTOR_WORDS
        && var t := Entry(store, d, p / (SECTOR_WORDS * SECTOR_SIZE));
           t in store && Index(store, s, pos / SECTOR_SIZE) ==
             Entry(store, t, (p / SECTOR_SIZE % (SECTOR_WORDS * SECTOR_SIZE)) % SECTOR_WORDS)
  {
    var k := pos / SECTOR_SIZE;
    if pos < DIRECT * SECTOR_SIZE {
      assert k < DIRECT;
    } else if pos < (DIRECT + SECTOR_WORDS) * SECTOR_SIZE {
      assert (pos - DIRECT * SECTOR_SIZE) / SECTOR_SIZE == k - DIRECT;
    } else {
      var p := pos - (DIRECT + SECTOR_WORDS) * SECTOR_SIZE;
      DoublyIndexed(p);
      assert p / SECTOR_SIZE == k - DIRECT - SECTOR_WORDS;
    }
  }

  /** What was written is what is read. */
  lemma ReadsBack(store: Store, s: Sector, offset: nat, b: seq<Byte>, n: nat, store': Store,
                  before: seq<Byte>, after: seq<Byte>)
    requires File(store, s) && n <= |b| && Rewritten(store, s, offset, b, n, store')
    requires Copied(before, 0, Contents(store', s), offset, n, after)
    ensures after[..n] == b[..n]
  {
    var c := Contents(store', s);
    forall i | 0 <= i < n ensures after[i] == b[i] {
      assert c[offset + i] == b[i];
    }
  }

  /** The bytes read, if any. */
  ghost predicate Got(before: seq<Byte>, c: seq<Byte>, offset: nat, n: nat, after: seq<Byte>) {
    if n == 0 then after == before else Copied(before, 0, c, offset, n, after)
  }

  lemma CopiesJoin(c: seq<Byte>, offset: nat, m: nat, n: nat, i: nat, j: nat, k: nat,
                   a: seq<Byte>, a': seq<Byte>, b: seq<Byte>, b': seq<Byte>, ab: seq<Byte>, ab': seq<Byte>)
    requires ReadInFull(m, offset, |c|, i) && ReadInFull(n, offset + m, |c|, j) && ReadInFull(m + n, offset, |c|, k)
    requires Got(a, c, offset, i, a') && Got(b, c, offset + m, j, b') && Got(ab, c, offset, k, ab')
    requires m <= |a| && n <= |b| && m + n <= |ab|
    ensures i <= m && j <= n && k == i + j && |a'| >= i && |b'| >= j && |ab'| >= k
    ensures ab'[..k] == a'[..i] + b'[..j]
  {
    if k > 0 {
      forall q | 0 <= q < k ensures ab'[q] == (a'[..i] + b'[..j])[q] {
        assert ab'[q] == c[offset + q];
      }
    }
  }

  class FileSystem {
    const cache: BufferCache.Cache<seq<Byte>>

    ghost predicate Valid()
      reads cache, cache.blocks
    {
      cache.Valid() && StoreOk(cache.Logical())
    }

    ghost function Data(): Store
      requires Valid()
      reads cache, cache.blocks
    {
      cache.Logical()
    }

    constructor (cache: BufferCache.Cache<seq<Byte>>)
      requires cache.Valid() && StoreOk(cache.Logical())
      ensures this.cache == cache && Valid()
    {
      this.cache := cache;
    }

    method ReadSector(s: Sector) returns (c: seq<Byte>)
      requires Valid() && s in Data()
      modifies cache, cache.blocks
      ensures Valid() && Data() == old(Data()) && c == Data()[s] && |c| == SECTOR_SIZE
    {
      c := cache.Read(s);
    }

    method WriteSector(s: Sector, c: seq<Byte>)
      requires Valid() && s in Data() && |c| == SECTOR_SIZE
      modifies cache, cache.blocks
      ensures Valid() && Data() == old(Data())[s := c]
    {
      cache.Write(s, c);
    }

    method InodeLength(inode: Node) returns (length: nat)
      requires Valid() && inode.sector in Data()
      modifies cache, cache.blocks
      ensures Valid() && Data() == old(Data()) && length == Length(Data(), inode.sector)
    {
      var data := ReadSector(inode.sector);
      length := WordAt(data, LENGTH);
    }

    method TableEntry(table: Sector, i: nat) returns (w: Word)
      requires Valid() && table in Data() && i < SECTOR_WORDS
      modifies cache, cache.blocks
      ensures Valid() && Data() == old(Data()) && w == Entry(Data(), table, i)
    {
      var c := ReadSector(table);
      w := WordAt(c, i);
    }

    method EntryThrough(table: Sector, i: nat, j: nat) returns (w: Word)
      requires Valid() && table in Data() && i < SECTOR_WORDS && j < SECTOR_WORDS
      requires Entry(Data(), table, i) in Data()
      modifies cache, cache.blocks
      ensures Valid() && Data() == old(Data()) && w == Entry(Data(), Entry(Data(), table, i), j)
    {
      w := TableEntry(table, i);
      w := TableEntry(w, j);
    }

    /** The sector of the byte at `pos`: past the end of the file it answers 1, and past the largest size 0. */
    method ByteToSector(inode: Node, pos: nat) returns (sector: Sector)
      requires Valid() && inode.sector in Data()
      requires pos <= Length(Data(), inode.sector) && pos < MAX_INODE_SIZE ==>
        Path(Data(), inode.sector, pos / SECTOR_SIZE) <= Data().Keys
      modifies cache, cache.blocks
      ensures Valid() && Data() == old(Data())
      ensures sector ==
        if pos > Length(Data(), inode.sector) then 1
        else if pos < MAX_INODE_SIZE then Index(Data(), inode.sector, pos / SECTOR_SIZE)
        else 0
    {
      var length := InodeLength(inode);
      if pos > length { return 1; }
      if pos >= MAX_INODE_SIZE { return 0; }
      BlockIndex(Data(), inode.sector, pos);
      if pos < DIRECT * SECTOR_SIZE {
        sector := TableEntry(inode.sector, pos / SECTOR_SIZE);
      } else if pos < (DIRECT + SECTOR_WORDS) * SECTOR_SIZE {
        var p := pos - DIRECT * SECTOR_SIZE;
        sector := EntryThrough(inode.sector, INDIRECT, p / SECTOR_SIZE);
      } else {
        var p := pos - (DIRECT + SECTOR_WORDS) * SECTOR_SIZE;
        sector := EntryThrough(inode.sector, DOUBLY_INDIRECT, p / (SECTOR_WORDS * SECTOR_SIZE));
        p := p / SECTOR_SIZE;
        sector := TableEntry(sector, (p % (SECTOR_WORDS * SECTOR_SIZE)) % SECTOR_WORDS);
      }
    }

    /** Copies `chunk` bytes out of the sector of `pos`. */
    method ReadChunk(inode: Node, buffer: array<Byte>, at: nat, pos: nat, chunk: nat)
      requires Valid() && File(Data(), inode.sector) && pos + chunk <= Length(Data(), inode.sector)
      requires 0 < chunk && pos % SECTOR_SIZE + chunk <= SECTOR_SIZE && at + chunk <= buffer.Length
      requires buffer as object != cache.blocks as object
      modifies cache, cache.blocks, buffer
      ensures Valid() && Data() == old(Data())
      ensures Copied(old(buffer[..]), at, Contents(Data(), inode.sector), pos, chunk, buffer[..])
    {
      InFile(Data(), inode.sector, pos);
      var sectorIdx := ByteToSector(inode, pos);
      var bounce := ReadSector(sectorIdx);
      CopyBytes(buffer, at, bounce, pos % SECTOR_SIZE, chunk);
      ChunkOfFile(Data(), inode.sector, pos, chunk, old(buffer[..]), at, buffer[..]);
    }

    method ReadNext(inode: Node, buffer: array<Byte>, offset: nat, done: nat, chunk: nat, ghost before: seq<Byte>)
      requires Valid() && File(Data(), inode.sector) && offset + done + chunk <= Length(Data(), inode.sector)
      requires 0 < chunk && (offset + done) % SECTOR_SIZE + chunk <= SECTOR_SIZE && done + chunk <= buffer.Length
      requires Copied(before, 0, Contents(Data(), inode.sector), offset, done, buffer[..])
      requires buffer as object != cache.blocks as object
      modifies cache, cache.blocks, buffer
      ensures Valid() && Data() == old(Data())
      ensures Copied(before, 0, Contents(Data(), inode.sector), offset, done + chunk, buffer[..])
    {
      ghost var between := buffer[..];
      ReadChunk(inode, buffer, done, offset + done, chunk);
      JoinCopies(before, between, buffer[..], Contents(Data(), inode.sector), offset, done, chunk);
    }

    /** Sector by sector, until the request or the file ends, or a bounce buffer is needed and there is no memory. */
    method ReadLoop(inode: Node, buffer: array<Byte>, size: nat, offset: nat, memory: bool) returns (bytesRead: nat)
      requires Valid() && File(Data(), inode.sector) && size <= buffer.Length && offset < Length(Data(), inode.sector)
      requires buffer as object != cache.blocks as object
      modifies cache, cache.blocks, buffer
      ensures Valid() && Data() == old(Data())
      ensures bytesRead == Obtained(size, offset, Length(Data(), inode.sector), memory)
      ensures Copied(old(buffer[..]), 0, Contents(Data(), inode.sector), offset, bytesRead, buffer[..])
    {
      ghost var store := Data();
      bytesRead := 0;
      var length := InodeLength(inode);
      var enough := true;
      while enough && bytesRead < size && offset + bytesRead < length
        invariant Valid() && Data() == store && bytesRead <= Readable(size, offset, length)
        invariant !memory && enough ==> Whole(offset, bytesRead)
        invariant !enough ==> bytesRead == Obtained(size, offset, length, memory)
        invariant Copied(old(buffer[..]), 0, Contents(store, inode.sector), offset, bytesRead, buffer[..])
        decreases enough, size - bytesRead
      {
        var chunk := ChunkSize(size - bytesRead, offset + bytesRead, length);
        if !memory && NeedsBounce(offset + bytesRead, chunk) {
          NoBounce(size, offset, length, bytesRead);
          enough := false;
        } else {
          if !memory { WholeNext(offset, bytesRead, chunk); }
          ReadNext(inode, buffer, offset, bytesRead, chunk, old(buffer[..]));
          bytesRead := bytesRead + chunk;
        }
      }
      if !memory && enough { AllWhole(offset, bytesRead); }
    }

    /** The file's bytes from `offset` on, as many as are asked for and there are; without memory for a bounce
        buffer, only the whole sectors that the request begins with. */
    method ReadAt(inode: Node, buffer: array<Byte>, size: int, offset: nat, memory: bool) returns (bytesRead: nat)
      requires Valid() && File(Data(), inode.sector) && size <= buffer.Length
      requires buffer as object != cache.blocks as object
      modifies cache, cache.blocks, buffer
      ensures Valid() && Data() == old(Data())
      ensures bytesRead == Obtained(size, offset, Length(Data(), inode.sector), memory)
      ensures memory ==> ReadInFull(size, offset, Length(Data(), inode.sector), bytesRead)
      ensures !memory ==> ReadWhole(size, offset, Length(Data(), inode.sector), bytesRead)
      ensures bytesRead > 0 ==>
        Copied(old(buffer[..]), 0, Contents(Data(), inode.sector), offset, bytesRead, buffer[..])
      ensures bytesRead == 0 ==> buffer[..] == old(buffer[..])
    {
      var length := InodeLength(inode);
      ObtainedIs(size, offset, length);
      if offset >= length || size <= 0 { return 0; }
      bytesRead := ReadLoop(inode, buffer, if length < size then length else size, offset, memory);
    }

    /** Writes the part of a request that lies in the sector of `pos`. */
    method WriteChunk(inode: Node, buffer: array<Byte>, at: nat, left: nat, pos: nat) returns (chunk: nat)
      requires Valid() && File(Data(), inode.sector) && pos + left <= Length(Data(), inode.sector)
      requires left > 0 && at + left <= buffer.Length
      requires buffer as object != cache.blocks as object
      modifies cache, cache.blocks
      ensures 0 < chunk <= left && pos % SECTOR_SIZE + chunk <= SECTOR_SIZE
      ensures Valid()
      ensures BlockSpliced(old(Data()), inode.sector, pos, buffer[at..at + chunk], Data())
    {
      InFile(Data(), inode.sector, pos);
      var sectorIdx := ByteToSector(inode, pos);
      var sectorOfs := pos % SECTOR_SIZE;
      var sectorLeft := SECTOR_SIZE - sectorOfs;
      chunk := if left % SECTOR_SIZE == 0 then SECTOR_SIZE else left;
      if chunk > sectorLeft { chunk := sectorLeft; }
      var bounce := ZeroSector();
      if sectorOfs > 0 || chunk < sectorLeft {
        bounce := ReadSector(sectorIdx);
      }
      bounce := bounce[..sectorOfs] + buffer[at..at + chunk] + bounce[sectorOfs + chunk..];
      ghost var was := Data()[sectorIdx];
      assert bounce == Splice(was, sectorOfs, buffer[at..at + chunk]);
      WriteSector(sectorIdx, bounce);
    }

    method WriteMore(inode: Node, buffer: array<Byte>, size: nat, offset: nat, written: nat, ghost store: Store)
      returns (chunk: nat)
      requires Valid() && File(store, inode.sector) && written < size <= buffer.Length
      requires offset + size <= Length(store, inode.sector)
      requires Rewritten(store, inode.sector, offset, buffer[..], written, Data())
      requires buffer as object != cache.blocks as object
      modifies cache, cache.blocks
      ensures 0 < chunk <= size - written
      ensures Valid() && Rewritten(store, inode.sector, offset, buffer[..], written + chunk, Data())
    {
      ghost var between, b := Data(), buffer[..];
      var pos := offset + written;
      chunk := WriteChunk(inode, buffer, written, size - written, pos);
      ghost var d := buffer[written..written + chunk];
      RewriteNext(store, inode.sector, offset, b, written, pos, d, between, Data());
    }

    method WriteLoop(inode: Node, buffer: array<Byte>, size: nat, offset: nat)
      requires Valid() && File(Data(), inode.sector) && size <= buffer.Length
      requires offset + size <= Length(Data(), inode.sector)
      requires buffer as object != cache.blocks as object
      modifies cache, cache.blocks
      ensures Valid() && Rewritten(old(Data()), inode.sector, offset, buffer[..], size, Data())
    {
      ghost var store := Data();
      var bytesWritten := 0;
      while bytesWritten < size
        invariant bytesWritten <= size && Valid()
        invariant Rewritten(store, inode.sector, offset, buffer[..], bytesWritten, Data())
      {
        var chunk := WriteMore(inode, buffer, size, offset, bytesWritten, store);
        bytesWritten := bytesWritten + chunk;
      }
    }

    /** Replaces the bytes from `offset` on, inside the file as it is, unless writing is denied or there is no memory
        for a bounce buffer. */
    method WriteAt(inode: Node, buffer: array<Byte>, size: nat, offset: nat, memory: bool) returns (bytesWritten: nat)
      requires Valid() && File(Data(), inode.sector) && size <= buffer.Length
      requires inode.denyWriteCnt == 0 ==> offset + size <= Length(Data(), inode.sector)
      requires buffer as object != cache.blocks as object
      modifies cache, cache.blocks
      ensures Valid()
      ensures inode.denyWriteCnt > 0 || !memory ==> bytesWritten == 0 && Data() == old(Data())
      ensures inode.denyWriteCnt == 0 && memory ==>
        bytesWritten == size && Rewritten(old(Data()), inode.sector, offset, buffer[..], size, Data())
    {
      if inode.denyWriteCnt > 0 { return 0; }
      if !memory { return 0; }
      WriteLoop(inode, buffer, size, offset);
      return size;
    }

    /** A read of the range that was just written returns the bytes that were written. */
    method WriteThenRead(inode: Node, buffer: array<Byte>, size: nat, offset: nat, back: array<Byte>)
      returns (bytesRead: nat)
      requires Valid() && File(Data(), inode.sector) && size <= buffer.Length && size <= back.Length
      requires inode.denyWriteCnt == 0 && offset + size <= Length(Data(), inode.sector) && buffer != back
      requires buffer as object != cache.blocks as object && back as object != cache.blocks as object
      modifies cache, cache.blocks, back
      ensures Valid() && bytesRead == size && back[..size] == buffer[..size]
    {
      ghost var store := Data();
      var written := WriteAt(inode, buffer, size, offset, true);
      ghost var before, store' := back[..], Data();
      bytesRead := ReadAt(inode, back, size, offset, true);
      if size > 0 { ReadsBack(store, inode.sector, offset, buffer[..], size, store', before, back[..]); }
    }

    /** Two reads of adjacent ranges return what one read of both does. */
    method ReadInTwo(inode: Node, a: array<Byte>, m: nat, b: array<Byte>, n: nat, ab: array<Byte>, offset: nat)
      returns (readA: nat, readB: nat, readAb: nat)
      requires Valid() && File(Data(), inode.sector) && m <= a.Length && n <= b.Length && m + n <= ab.Length
      requires a != b && a != ab && b != ab && cache.blocks as object !in {a as object, b, ab}
      modifies cache, cache.blocks, a, b, ab
      ensures Valid() && Data() == old(Data()) && readA <= m && readB <= n
      ensures readAb == readA + readB && ab[..readAb] == a[..readA] + b[..readB]
    {
      ghost var c, a0, b0, ab0 := Contents(Data(), inode.sector), a[..], b[..], ab[..];
      readA := ReadAt(inode, a, m, offset, true);
      readB := ReadAt(inode, b, n, offset + m, true);
      readAb := ReadAt(inode, ab, m + n, offset, true);
      CopiesJoin(c, offset, m, n, readA, readB, readAb, a0, a[..], b0, b[..], ab0, ab[..]);
    }
  }

  /** A write leaves every other file as it was. */
  lemma OthersUnchanged(store: Store, s: Sector, offset: nat, b: seq<Byte>, n: nat, store': Store, t: Sector)
    requires File(store, s) && Rewritten(store, s, offset, b, n, store')
    requires File(store, t) && forall x :: Owns(store, t, x) ==> !IsBlock(store, s, x)
    ensures File(store', t) && Contents(store', t) == Contents(store, t)
  {
    OtherFile(store, store', t);
  }
}
