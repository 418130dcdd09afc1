/** The packed bitmap: an array of 32-bit words that stands for a sequence of bits. */
module Bitmap {

  import opened Basics
  import opened PowerOfTwo

  const ELEM_BITS: nat := 32

  // ----- the bitwise operators on n-bit words -----

  /** Bit `k` of a word. */
  predicate BitAt(w: nat, k: nat) {
    if k == 0 then w % 2 == 1 else BitAt(w / 2, k - 1)
  }

  function Digit(b: bool): nat { if b then 1 else 0 }

  function Or(n: nat, a: nat, b: nat): (r: nat)
    ensures r < Pow2(n)
  {
    if n == 0 then 0 else 2 * Or(n - 1, a / 2, b / 2) + Digit(a % 2 == 1 || b % 2 == 1)
  }

  function And(n: nat, a: nat, b: nat): (r: nat)
    ensures r < Pow2(n)
  {
    if n == 0 then 0 else 2 * And(n - 1, a / 2, b / 2) + Digit(a % 2 == 1 && b % 2 == 1)
  }

  function Not(n: nat, a: nat): (r: nat)
    ensures r < Pow2(n)
  {
    if n == 0 then 0 else 2 * Not(n - 1, a / 2) + Digit(a % 2 == 0)
  }

  lemma {:induction false} OrBits(n: nat, a: nat, b: nat, k: nat)
    requires k < n
    ensures BitAt(Or(n, a, b), k) == (BitAt(a, k) || BitAt(b, k))
  {
    if k > 0 { OrBits(n - 1, a / 2, b / 2, k - 1); }
  }

  lemma {:induction false} AndBits(n: nat, a: nat, b: nat, k: nat)
    requires k < n
    ensures BitAt(And(n, a, b), k) == (BitAt(a, k) && BitAt(b, k))
  {
    if k > 0 { AndBits(n - 1, a / 2, b / 2, k - 1); }
  }

  lemma {:induction false} NotBits(n: nat, a: nat, k: nat)
    requires k < n
    ensures BitAt(Not(n, a), k) == !BitAt(a, k)
  {
    if k > 0 { NotBits(n - 1, a / 2, k - 1); }
  }

  lemma {:induction false} ZeroBits(j: nat)
    ensures !BitAt(0, j)
  {
    if j > 0 { ZeroBits(j - 1); }
  }

  /** The word with bit `k` alone set. */
  lemma {:induction false} MaskBits(k: nat, j: nat)
    ensures BitAt(Pow2(k), j) == (j == k)
  {
    if k > 0 && j > 0 {
      MaskBits(k - 1, j - 1);
    } else if k == 0 && j > 0 {
      ZeroBits(j - 1);
    }
  }

  lemma {:induction false} SomeBit(n: nat, w: nat) returns (k: nat)
    requires 0 < w < Pow2(n)
    ensures k < n && BitAt(w, k)
  {
    if w % 2 == 1 {
      k := 0;
    } else {
      k := SomeBit(n - 1, w / 2);
      k := k + 1;
    }
  }

  // ----- one bit of a word -----

  lemma TestIsBit(n: nat, w: nat, k: nat)
    requires k < n
    ensures (And(n, w, Pow2(k)) != 0) == BitAt(w, k)
  {
    var r := And(n, w, Pow2(k));
    if r != 0 {
      var j := SomeBit(n, r);
      AndBits(n, w, Pow2(k), j);
      MaskBits(k, j);
    } else {
      ZeroBits(k);
      AndBits(n, w, Pow2(k), k);
      MaskBits(k, k);
    }
  }

  /** Setting or clearing a bit of a word changes that bit and no other. */
  lemma StoreBits(n: nat, w: nat, i: nat, j: nat)
    requires i < n && j < n
    ensures BitAt(Or(n, w, Pow2(i)), j) == (i == j || BitAt(w, j))
    ensures BitAt(And(n, w, Not(n, Pow2(i))), j) == (i != j && BitAt(w, j))
  {
    MaskBits(i, j);
    OrBits(n, w, Pow2(i), j);
    NotBits(n, Pow2(i), j);
    AndBits(n, w, Not(n, Pow2(i)), j);
  }

  // ----- the words as a sequence of bits -----

  function ElemIdx(i: nat): nat { i / ELEM_BITS }

  function ElemCnt(n: nat): nat { (n + ELEM_BITS - 1) / ELEM_BITS }

  lemma IndexInRange(i: nat, n: nat)
    requires i < n
    ensures ElemIdx(i) < ElemCnt(n)
  {
  }

  lemma SamePlace(i: nat, j: nat)
    requires ElemIdx(i) == ElemIdx(j) && i % ELEM_BITS == j % ELEM_BITS
    ensures i == j
  {
  }

  ghost predicate Bit(words: seq<Word>, i: nat)
    requires ElemIdx(i) < |words|
  {
    BitAt(words[ElemIdx(i)], i % ELEM_BITS)
  }

  /** `s` is the sequence of the first `|s|` bits of the words. */
  ghost predicate Packs(words: seq<Word>, s: seq<bool>) {
    && |words| == ElemCnt(|s|)
    && forall i :: 0 <= i < |s| ==> ElemIdx(i) < |words| && s[i] == Bit(words, i)
  }

  lemma Unpack(words: seq<Word>, n: nat) returns (s: seq<bool>)
    requires |words| == ElemCnt(n)
    ensures |s| == n && Packs(words, s)
  {
    s := [];
    while |s| < n
      invariant |s| <= n
      invariant forall i :: 0 <= i < |s| ==> ElemIdx(i) < |words| && s[i] == Bit(words, i)
    {
      IndexInRange(|s|, n);
      s := s + [Bit(words, |s|)];
    }
  }

  lemma StoreKeeps(words: seq<Word>, s: seq<bool>, i: nat, w: Word, value: bool)
    requires Packs(words, s) && i < |s|
    requires ElemIdx(i) < |words|
    requires forall k :: 0 <= k < ELEM_BITS ==>
      BitAt(w, k) == if k == i % ELEM_BITS then value else BitAt(words[ElemIdx(i)], k)
    ensures Packs(words[ElemIdx(i) := w], s[i := value])
  {
    var words' := words[ElemIdx(i) := w];
    forall j | 0 <= j < |s| ensures ElemIdx(j) < |words'| && s[i := value][j] == Bit(words', j) {
      IndexInRange(j, |s|);
      if ElemIdx(j) == ElemIdx(i) && j != i {
        if j % ELEM_BITS == i % ELEM_BITS { SamePlace(i, j); }
      }
    }
  }

  ghost predicate AllAre(s: seq<bool>, start: nat, cnt: nat, value: bool) {
    start + cnt <= |s| && forall i :: start <= i < start + cnt ==> s[i] == value
  }

  /** `cnt` entries from `start` on replaced by `value`. */
  ghost function Filled(s: seq<bool>, start: nat, cnt: nat, value: bool): (r: seq<bool>)
    requires start + cnt <= |s|
    ensures |r| == |s|
    ensures forall i :: 0 <= i < |s| ==> r[i] == if start <= i < start + cnt then value else s[i]
    decreases cnt
  {
    if cnt == 0 then s else Filled(s, start, cnt - 1, value)[start + cnt - 1 := value]
  }

  ghost predicate FirstGroup(s: seq<bool>, start: nat, cnt: nat, value: bool, r: Option<nat>) {
    match r
    case None => forall i :: i >= start ==> !AllAre(s, i, cnt, value)
    case Some(k) => k >= start && AllAre(s, k, cnt, value) && forall i :: start <= i < k ==> !AllAre(s, i, cnt, value)
  }

  lemma GroupOrNone(s: seq<bool>, cnt: nat, k: nat)
    requires FirstGroup(s, 0, cnt, false, Some(k))
    ensures !FirstGroup(s, 0, cnt, false, None)
  {
  }

  class BitSet {
    const bitCnt: nat
    const bits: array<Word>

    ghost var view: seq<bool>

    ghost predicate Valid()
      reads this, bits
    {
      |view| == bitCnt && Packs(bits[..], view)
    }

    constructor (n: nat)
      ensures Valid() && fresh(bits) && bitCnt == n
      ensures |view| == n && forall i :: 0 <= i < n ==> !view[i]
    {
      bitCnt := n;
      bits := new Word[ElemCnt(n)];
      view := [];
      new;
      view := Unpack(bits[..], n);
      SetAll(false);
    }

    method Store(i: nat, w: Word, ghost value: bool)
      requires Valid() && i < bitCnt && ElemIdx(i) < bits.Length
      requires forall k :: 0 <= k < ELEM_BITS ==>
        BitAt(w, k) == if k == i % ELEM_BITS then value else BitAt(bits[ElemIdx(i)], k)
      modifies this`view, bits
      ensures Valid() && view == old(view)[i := value]
    {
      StoreKeeps(bits[..], view, i, w, value);
      bits[ElemIdx(i)] := w;
      view := view[i := value];
      assert bits[..] == old(bits[..])[ElemIdx(i) := w];
    }

    method Mark(i: nat)
      requires Valid() && i < bitCnt
      modifies this`view, bits
      ensures Valid() && view == old(view)[i := true]
    {
      IndexInRange(i, bitCnt);
      Pow2Values();
      var w := Or(ELEM_BITS, bits[ElemIdx(i)], Pow2(i % ELEM_BITS));
      forall k | 0 <= k < ELEM_BITS
        ensures BitAt(w, k) == if k == i % ELEM_BITS then true else BitAt(bits[ElemIdx(i)], k)
      {
        StoreBits(ELEM_BITS, bits[ElemIdx(i)], i % ELEM_BITS, k);
      }
      Store(i, w, true);
    }

    method Reset(i: nat)
      requires Valid() && i < bitCnt
      modifies this`view, bits
      ensures Valid() && view == old(view)[i := false]
    {
      IndexInRange(i, bitCnt);
      Pow2Values();
      var w := And(ELEM_BITS, bits[ElemIdx(i)], Not(ELEM_BITS, Pow2(i % ELEM_BITS)));
      forall k | 0 <= k < ELEM_BITS
        ensures BitAt(w, k) == if k == i % ELEM_BITS then false else BitAt(bits[ElemIdx(i)], k)
      {
        StoreBits(ELEM_BITS, bits[ElemIdx(i)], i % ELEM_BITS, k);
      }
      Store(i, w, false);
    }

    method Set(i: nat, value: bool)
      requires Valid() && i < bitCnt
      modifies this`view, bits
      ensures Valid() && view == old(view)[i := value]
    {
      if value { Mark(i); } else { Reset(i); }
    }

    method Test(i: nat) returns (r: bool)
      requires Valid() && i < bitCnt
      ensures r == view[i]
    {
      IndexInRange(i, bitCnt);
      TestIsBit(ELEM_BITS, bits[ElemIdx(i)], i % ELEM_BITS);
      r := And(ELEM_BITS, bits[ElemIdx(i)], Pow2(i % ELEM_BITS)) != 0;
    }

    method SetMultiple(start: nat, cnt: nat, value: bool)
      requires Valid() && start + cnt <= bitCnt
      modifies this`view, bits
      ensures Valid() && view == Filled(old(view), start, cnt, value)
    {
      var i := 0;
      while i < cnt
        invariant i <= cnt && Valid() && view == Filled(old(view), start, i, value)
      {
        Set(start + i, value);
        i := i + 1;
      }
    }

    method SetAll(value: bool)
      requires Valid()
      modifies this`view, bits
      ensures Valid() && view == Filled(old(view), 0, bitCnt, value)
    {
      SetMultiple(0, bitCnt, value);
    }

    method Contains(start: nat, cnt: nat, value: bool) returns (r: bool)
      requires Valid() && start + cnt <= bitCnt
      ensures r == !AllAre(view, start, cnt, !value)
    {
      var i := 0;
      while i < cnt
        invariant i <= cnt && AllAre(view, start, i, !value)
      {
        var b := Test(start + i);
        if b == value { return true; }
        i := i + 1;
      }
      return false;
    }

    /** The least start at or after `start` of `cnt` bits that are all `value`. */
    method Scan(start: nat, cnt: nat, value: bool) returns (r: Option<nat>)
      requires Valid() && start <= bitCnt
      ensures FirstGroup(view, start, cnt, value, r)
    {
      if cnt <= bitCnt {
        var last := bitCnt - cnt;
        var i := start;
        while i <= last
          invariant i >= start && forall j :: start <= j < i ==> !AllAre(view, j, cnt, value)
        {
          var c := Contains(i, cnt, !value);
          if !c { return Some(i); }
          i := i + 1;
        }
      }
      return None;
    }

    method ScanAndFlip(start: nat, cnt: nat, value: bool) returns (r: Option<nat>)
      requires Valid() && start <= bitCnt
      modifies this`view, bits
      ensures Valid() && FirstGroup(old(view), start, cnt, value, r)
      ensures r.None? ==> view == old(view)
      ensures r.Some? ==> view == Filled(old(view), r.value, cnt, !value)
    {
      r := Scan(start, cnt, value);
      if r.Some? { SetMultiple(r.value, cnt, !value); }
    }
  }
}
