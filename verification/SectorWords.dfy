/** Sectors as bytes and as little-endian 32-bit words. */
module SectorWords {

  import opened Basics

  type Byte = b: nat | b < 256

  const SECTOR_SIZE: nat := 512
  const SECTOR_WORDS: nat := 128

  function WordAt(c: seq<Byte>, i: nat): Word
    requires 4 * i + 4 <= |c|
  {
    var b0: nat, b1: nat, b2: nat, b3: nat := c[4 * i], c[4 * i + 1], c[4 * i + 2], c[4 * i + 3];
    b0 + 0x100 * (b1 + 0x100 * (b2 + 0x100 * b3))
  }

  function WordBytes(w: Word): (b: seq<Byte>)
    ensures |b| == 4
  {
    [w % 0x100, w / 0x100 % 0x100, w / 0x100 / 0x100 % 0x100, w / 0x100 / 0x100 / 0x100]
  }

  lemma WordBytesBack(w: Word)
    ensures WordAt(WordBytes(w), 0) == w
  {
  }

  function Bytes(ws: seq<Word>): (c: seq<Byte>)
    ensures |c| == 4 * |ws|
  {
    if ws == [] then [] else Bytes(ws[..|ws| - 1]) + WordBytes(ws[|ws| - 1])
  }

  /** A word stored in a sector reads back. */
  lemma {:induction false} BytesBack(ws: seq<Word>, i: nat)
    requires i < |ws|
    ensures WordAt(Bytes(ws), i) == ws[i]
  {
    var n := |ws| - 1;
    var c, d := Bytes(ws[..n]), WordBytes(ws[n]);
    if i == n {
      WordBytesBack(ws[n]);
      assert forall j :: 0 <= j < 4 ==> (c + d)[4 * n + j] == d[j];
    } else {
      BytesBack(ws[..n], i);
    }
  }

  function ZeroSector(): (z: seq<Byte>)
    ensures |z| == SECTOR_SIZE && forall i :: 0 <= i < SECTOR_SIZE ==> z[i] == 0
  {
    seq(SECTOR_SIZE, _ => 0)
  }
}
