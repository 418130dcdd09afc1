/** The chained hash table. Elements are compared by `less`; elements neither of which is less are equal. */
module HashTable {

  import opened Arithmetic
  import opened Bitmap
  import opened Basics
  import opened PowerOfTwo
  import opened Sequences

  // ----- powers of two by bit tricks -----

  const WORD_BITS: nat := 32

  /** x & (x - 1) on n-bit words. */
  function TurnOffLeastBit(n: nat, x: nat): nat
    requires x > 0
  {
    And(n, x, x - 1)
  }

  lemma {:induction false} AndSelf(n: nat, x: nat)
    requires x < Pow2(n)
    ensures And(n, x, x) == x
  {
    if n > 0 { AndSelf(n - 1, x / 2); }
  }

  /** It clears the lowest bit that is set. */
  lemma TurnOffSplits(n: nat, x: nat)
    requires 0 < x < Pow2(n)
    ensures x % 2 == 1 ==> TurnOffLeastBit(n, x) == x - 1
    ensures x % 2 == 0 ==> TurnOffLeastBit(n, x) == 2 * TurnOffLeastBit(n - 1, x / 2)
  {
    if x % 2 == 1 {
      assert (x - 1) / 2 == x / 2;
      AndSelf(n - 1, x / 2);
    } else {
      assert (x - 1) / 2 == x / 2 - 1 && (x - 1) % 2 == 1;
    }
  }

  /** The greatest power of two not above x. */
  function FloorPow2(x: nat): (r: nat)
    requires x > 0
    ensures r <= x < 2 * r
  {
    if x == 1 then 1 else 2 * FloorPow2(x / 2)
  }

  lemma {:induction false} FloorIsPower(x: nat) returns (k: nat)
    requires x > 0
    ensures FloorPow2(x) == Pow2(k)
  {
    if x == 1 { k := 0; } else {
      k := FloorIsPower(x / 2);
      k := k + 1;
    }
  }

  /** Clearing the lowest bit gives zero for a power of two; otherwise it keeps the greatest power of two below. */
  lemma {:induction false} TurnOffKeepsFloor(n: nat, x: nat)
    requires 0 < x < Pow2(n)
    ensures TurnOffLeastBit(n, x) < x
    ensures TurnOffLeastBit(n, x) == 0 <==> x == FloorPow2(x)
    ensures TurnOffLeastBit(n, x) > 0 ==> FloorPow2(TurnOffLeastBit(n, x)) == FloorPow2(x)
  {
    TurnOffSplits(n, x);
    if x % 2 == 0 {
      TurnOffKeepsFloor(n - 1, x / 2);
    } else if x > 1 {
      assert (x - 1) / 2 == x / 2;
    }
  }

  lemma Doubled(n: nat, x: nat, p: nat, m: nat)
    requires p == 2 * m && m > 0 && And(n, x, 2 * m - 1) == x % (2 * m)
    ensures And(n, x, p - 1) == x % p
  {
  }

  lemma MaskStep(n: nat, x: nat, m: nat)
    requires n > 0 && m > 0
    ensures And(n, x, 2 * m - 1) == 2 * And(n - 1, x / 2, m - 1) + x % 2
  {
    assert (2 * m - 1) / 2 == m - 1 && (2 * m - 1) % 2 == 1;
  }

  lemma {:induction false} AndZero(n: nat, x: nat)
    ensures And(n, x, 0) == 0
  {
    if n > 0 { AndZero(n - 1, x / 2); }
  }

  lemma RemainderIs(x: int, d: int, q: int, r: int)
    requires d > 0 && 0 <= r < d && x == q * d + r
    ensures x % d == r
  {
    assert (q + 1) * d == q * d + d;
    DivUnique(x, d, q);
  }

  lemma HalfRemainder(x: nat, m: nat)
    requires m > 0
    ensures x % (2 * m) == 2 * (x / 2 % m) + x % 2
  {
    var q, r := x / 2 / m, x / 2 % m;
    assert x / 2 == q * m + r;
    assert x == 2 * (x / 2) + x % 2;
    assert x == q * (2 * m) + (2 * r + x % 2);
    RemainderIs(x, 2 * m, q, 2 * r + x % 2);
  }

  /** Masking with a power of two less one takes the remainder. */
  lemma {:induction false} MaskIsRemainder(n: nat, x: nat, k: nat, p: nat)
    requires k <= n && p == Pow2(k)
    ensures And(n, x, p - 1) == x % p
  {
    if k == 0 {
      AndZero(n, x);
    } else {
      var m := Pow2(k - 1);
      MaskIsRemainder(n - 1, x / 2, k - 1, m);
      MaskStep(n, x, m);
      HalfRemainder(x, m);
      Doubled(n, x, p, m);
    }
  }

  // ----- buckets -----

  ghost predicate Equal<E>(x: E, y: E, less: (E, E) -> bool) { !less(x, y) && !less(y, x) }

  /** Equality by `less` is an equivalence, and equal elements have equal hashes. */
  ghost predicate HashOrder<E(!new)>(hash: E -> nat, less: (E, E) -> bool) {
    && (forall x :: !less(x, x))
    && (forall x, y, z {:trigger Equal(x, y, less), Equal(y, z, less)} ::
          Equal(x, y, less) && Equal(y, z, less) ==> Equal(x, z, less))
    && (forall x, y {:trigger Equal(x, y, less)} :: Equal(x, y, less) ==> hash(x) == hash(y))
  }

  /** No two of the elements are equal. */
  ghost predicate Unequal<E>(s: seq<E>, less: (E, E) -> bool) {
    forall i, j :: 0 <= i < j < |s| ==> !Equal(s[i], s[j], less)
  }

  ghost predicate Holds<E>(buckets: seq<seq<E>>, e: E) {
    exists i :: 0 <= i < |buckets| && e in buckets[i]
  }

  ghost predicate BucketOk<E>(bucket: seq<E>, i: nat, n: nat, hash: E -> nat, less: (E, E) -> bool)
    requires n > 0
  {
    Unequal(bucket, less) && forall e :: e in bucket ==> hash(e) % n == i
  }

  /** Every element is in the bucket its hash selects, and no two elements of a bucket are equal. */
  ghost predicate Hashed<E>(buckets: seq<seq<E>>, hash: E -> nat, less: (E, E) -> bool) {
    && |buckets| > 0
    && forall i :: 0 <= i < |buckets| ==> BucketOk(buckets[i], i, |buckets|, hash, less)
  }

  /** All the elements, bucket after bucket. */
  ghost function Flat<E>(buckets: seq<seq<E>>): seq<E> {
    if buckets == [] then [] else Flat(buckets[..|buckets| - 1]) + buckets[|buckets| - 1]
  }

  lemma {:induction false} FlatMembers<E>(buckets: seq<seq<E>>, e: E)
    ensures e in Flat(buckets) <==> Holds(buckets, e)
  {
    if buckets != [] {
      var n := |buckets| - 1;
      FlatMembers(buckets[..n], e);
      if Holds(buckets[..n], e) {
        var i :| 0 <= i < n && e in buckets[..n][i];
        assert e in buckets[i];
      }
      if Holds(buckets, e) {
        var i :| 0 <= i < |buckets| && e in buckets[i];
        assert i < n ==> e in buckets[..n][i];
      }
    }
  }

  /** No two elements in all the buckets are equal: equal ones would be in one bucket. */
  lemma {:induction false} FlatUnequal<E(!new)>(buckets: seq<seq<E>>, n: nat, hash: E -> nat, less: (E, E) -> bool)
    requires HashOrder(hash, less) && |buckets| <= n && n > 0
    requires forall i :: 0 <= i < |buckets| ==> BucketOk(buckets[i], i, n, hash, less)
    ensures Unequal(Flat(buckets), less)
  {
    if buckets != [] {
      var m := |buckets| - 1;
      var front, last := Flat(buckets[..m]), buckets[m];
      FlatUnequal(buckets[..m], n, hash, less);
      assert BucketOk(last, m, n, hash, less);
      var s := front + last;
      forall i, j | 0 <= i < j < |s| ensures !Equal(s[i], s[j], less) {
        if i < |front| <= j {
          FlatMembers(buckets[..m], s[i]);
          var k :| 0 <= k < m && s[i] in buckets[..m][k];
          assert BucketOk(buckets[k], k, n, hash, less);
          assert s[j] in last;
        }
      }
    }
  }

  /** Changing one bucket changes the number of elements by the change of that bucket's. */
  lemma {:induction false} FlatLength<E>(buckets: seq<seq<E>>, i: nat, bucket: seq<E>)
    requires i < |buckets|
    ensures |Flat(buckets[i := bucket])| == |Flat(buckets)| - |buckets[i]| + |bucket|
  {
    var n := |buckets| - 1;
    var buckets' := buckets[i := bucket];
    if i < n {
      FlatLength(buckets[..n], i, bucket);
      assert buckets'[..n] == buckets[..n][i := bucket];
    } else {
      assert buckets'[..n] == buckets[..n];
    }
  }

  ghost predicate EqualIn<E>(s: seq<E>, e: E, less: (E, E) -> bool) {
    exists i :: 0 <= i < |s| && Equal(s[i], e, less)
  }

  lemma EqualSymmetric<E(!new)>(x: E, y: E, less: (E, E) -> bool)
    ensures Equal(x, y, less) == Equal(y, x, less)
  {
  }

  /** An element with no equal in its bucket can be put in front of it. */
  lemma PushBucket<E(!new)>(bucket: seq<E>, e: E, n: nat, hash: E -> nat, less: (E, E) -> bool)
    requires n > 0 && BucketOk(bucket, hash(e) % n, n, hash, less) && !EqualIn(bucket, e, less)
    ensures BucketOk([e] + bucket, hash(e) % n, n, hash, less)
  {
    var s := [e] + bucket;
    forall i, j | 0 <= i < j < |s| ensures !Equal(s[i], s[j], less) {
      if i == 0 { EqualSymmetric(bucket[j - 1], e, less); }
    }
  }

  ghost function Pushed<E>(buckets: seq<seq<E>>, e: E, hash: E -> nat): seq<seq<E>>
    requires |buckets| > 0
  {
    var i := hash(e) % |buckets|;
    buckets[i := [e] + buckets[i]]
  }

  /** `buckets` is a table of the elements `s`. */
  ghost predicate TableOf<E(!new)>(buckets: seq<seq<E>>, s: seq<E>, hash: E -> nat, less: (E, E) -> bool) {
    && Hashed(buckets, hash, less)
    && |Flat(buckets)| == |s|
    && forall e :: Holds(buckets, e) <==> e in s
  }

  lemma PushedHolds<E>(buckets: seq<seq<E>>, e: E, hash: E -> nat, x: E)
    requires |buckets| > 0
    ensures Holds(Pushed(buckets, e, hash), x) <==> Holds(buckets, x) || x == e
  {
    var i, after := hash(e) % |buckets|, Pushed(buckets, e, hash);
    if Holds(buckets, x) {
      var k :| 0 <= k < |buckets| && x in buckets[k];
      assert x in after[k];
    }
    if x == e { assert x in after[i]; }
    if Holds(after, x) {
      var k :| 0 <= k < |after| && x in after[k];
      assert x in buckets[k] || x == e;
    }
  }

  lemma PushTable<E(!new)>(buckets: seq<seq<E>>, s: seq<E>, e: E, hash: E -> nat, less: (E, E) -> bool)
    requires TableOf(buckets, s, hash, less) && !EqualIn(buckets[hash(e) % |buckets|], e, less)
    ensures TableOf(Pushed(buckets, e, hash), s + [e], hash, less)
  {
    var n := |buckets|;
    var i, after := hash(e) % n, Pushed(buckets, e, hash);
    assert BucketOk(buckets[i], i, n, hash, less);
    PushBucket(buckets[i], e, n, hash, less);
    forall k | 0 <= k < |after| ensures BucketOk(after[k], k, n, hash, less) {
      assert BucketOk(buckets[k], k, n, hash, less);
    }
    FlatLength(buckets, i, [e] + buckets[i]);
    forall x ensures Holds(after, x) <==> x in s + [e] { PushedHolds(buckets, e, hash, x); }
  }

  /** None equal among all the elements, none equal in the bucket. */
  lemma NoneInBucket<E(!new)>(buckets: seq<seq<E>>, s: seq<E>, e: E, i: nat, less: (E, E) -> bool)
    requires i < |buckets| && (forall x :: Holds(buckets, x) <==> x in s) && !EqualIn(s, e, less)
    ensures !EqualIn(buckets[i], e, less)
  {
    forall k | 0 <= k < |buckets[i]| ensures !Equal(buckets[i][k], e, less) {
      var x := buckets[i][k];
      assert x in buckets[i];
      assert Holds(buckets, x);
      var j :| 0 <= j < |s| && s[j] == x;
    }
  }

  /** An equal element, if there is one, is in the bucket that the hash selects. */
  lemma EqualInBucket<E(!new)>(buckets: seq<seq<E>>, x: E, e: E, hash: E -> nat, less: (E, E) -> bool)
    requires HashOrder(hash, less) && Hashed(buckets, hash, less) && Holds(buckets, x) && Equal(x, e, less)
    ensures x in buckets[hash(e) % |buckets|]
  {
    var i :| 0 <= i < |buckets| && x in buckets[i];
    assert BucketOk(buckets[i], i, |buckets|, hash, less);
  }

  ghost function Dropped<E>(buckets: seq<seq<E>>, i: nat, p: nat): seq<seq<E>>
    requires i < |buckets| && p < |buckets[i]|
  {
    buckets[i := buckets[i][..p] + buckets[i][p + 1..]]
  }

  lemma DroppedHolds<E(!new)>(buckets: seq<seq<E>>, i: nat, p: nat, hash: E -> nat, less: (E, E) -> bool, x: E)
    requires HashOrder(hash, less) && Hashed(buckets, hash, less) && i < |buckets| && p < |buckets[i]|
    ensures Holds(Dropped(buckets, i, p), x) <==> Holds(buckets, x) && x != buckets[i][p]
  {
    var n, after, e := |buckets|, Dropped(buckets, i, p), buckets[i][p];
    assert BucketOk(buckets[i], i, n, hash, less) && e in buckets[i];
    if Holds(buckets, x) && x != e {
      var k :| 0 <= k < |buckets| && x in buckets[k];
      if k == i {
        var q :| 0 <= q < |buckets[i]| && buckets[i][q] == x;
        assert after[i][if q < p then q else q - 1] == x;
      }
      assert x in after[k];
    }
    if Holds(after, x) {
      var k :| 0 <= k < |after| && x in after[k];
      assert x in buckets[k];
      if k == i {
        var q :| 0 <= q < |after[i]| && after[i][q] == x;
        assert buckets[i][if q < p then q else q + 1] == x;
        assert Equal(e, e, less);
      } else {
        assert BucketOk(buckets[k], k, n, hash, less);
      }
    }
  }

  /** Taking an element out of its bucket takes it, and only it, out of the table. */
  lemma DropTable<E(!new)>(buckets: seq<seq<E>>, i: nat, p: nat, hash: E -> nat, less: (E, E) -> bool)
    requires HashOrder(hash, less) && Hashed(buckets, hash, less) && i < |buckets| && p < |buckets[i]|
    ensures Hashed(Dropped(buckets, i, p), hash, less)
    ensures |Flat(Dropped(buckets, i, p))| == |Flat(buckets)| - 1
    ensures forall x :: Holds(Dropped(buckets, i, p), x) <==> Holds(buckets, x) && x != buckets[i][p]
  {
    var n, after, e := |buckets|, Dropped(buckets, i, p), buckets[i][p];
    assert BucketOk(buckets[i], i, n, hash, less);
    forall k | 0 <= k < |after| ensures BucketOk(after[k], k, n, hash, less) {
      assert BucketOk(buckets[k], k, n, hash, less);
    }
    FlatLength(buckets, i, buckets[i][..p] + buckets[i][p + 1..]);
    forall x ensures Holds(after, x) <==> Holds(buckets, x) && x != e {
      DroppedHolds(buckets, i, p, hash, less, x);
    }
  }

  // ----- the table -----

  lemma {:induction false} EmptyFlat<E>(buckets: seq<seq<E>>)
    requires forall i :: 0 <= i < |buckets| ==> buckets[i] == []
    ensures Flat(buckets) == []
  {
    if buckets != [] { EmptyFlat(buckets[..|buckets| - 1]); }
  }

  lemma EmptyTable<E(!new)>(buckets: seq<seq<E>>, hash: E -> nat, less: (E, E) -> bool)
    requires |buckets| > 0 && forall i :: 0 <= i < |buckets| ==> buckets[i] == []
    ensures TableOf(buckets, [], hash, less) && Flat(buckets[..0]) == []
  {
    EmptyFlat(buckets);
  }

  lemma BitsInRange(cnt: nat, n: nat, k: nat)
    requires cnt < Pow2(WORD_BITS) && n == FloorPow2(if cnt / 2 < 4 then 4 else cnt / 2) == Pow2(k)
    ensures 2 <= k <= WORD_BITS && cnt < 4 * n
  {
    Pow2Values();
    assert Pow2(1) == 2;
    if k < 2 { Pow2Monotone(k, 1); }
    if k > WORD_BITS { Pow2Monotone(WORD_BITS, k); }
  }

  lemma UnequalDistinct<E(!new)>(s: seq<E>, less: (E, E) -> bool)
    requires Unequal(s, less) && forall x :: !less(x, x)
    ensures Distinct(s)
  {
    forall i, j | 0 <= i < j < |s| ensures s[i] != s[j] {
      assert !Equal(s[i], s[j], less);
    }
  }

  class Table<E(==, !new)> {
    const hash: E -> nat
    const less: (E, E) -> bool

    var elemCnt: nat
    var buckets: seq<seq<E>>
    ghost var bits: nat

    /** The elements in the table. */
    ghost function View(): set<E>
      reads this
    {
      ToSet(Flat(buckets))
    }

    ghost predicate Valid()
      reads this
    {
      && HashOrder(hash, less) && Hashed(buckets, hash, less)
      && elemCnt == |Flat(buckets)| < Pow2(WORD_BITS)
      && |buckets| == Pow2(bits) && 2 <= bits <= WORD_BITS
    }

    /** An empty table of four buckets. */
    constructor (hash: E -> nat, less: (E, E) -> bool)
      requires HashOrder(hash, less)
      ensures Valid() && View() == {} && this.hash == hash && this.less == less
    {
      this.hash, this.less := hash, less;
      elemCnt, buckets, bits := 0, [[], [], [], []], 2;
      new;
      assert Pow2(2) == 4;
      EmptyFlat<E>([[], [], [], []]);
    }

    lemma ViewIs(e: E)
      ensures e in View() <==> Holds(buckets, e)
    {
      FlatMembers(buckets, e);
    }

    /** The elements are counted, and no two of them are equal. */
    lemma Counted()
      requires Valid()
      ensures elemCnt == |View()| && Unequal(Flat(buckets), less)
    {
      FlatUnequal(buckets, |buckets|, hash, less);
      UnequalDistinct(Flat(buckets), less);
      DistinctSize(Flat(buckets));
    }

    /** The bucket of an element: its hash masked by the number of buckets less one. */
    method FindBucket(e: E) returns (i: nat)
      requires Valid()
      ensures i == hash(e) % |buckets|
    {
      MaskIsRemainder(WORD_BITS, hash(e), bits, |buckets|);
      i := And(WORD_BITS, hash(e), |buckets| - 1);
    }

    /** The place in a bucket of an element equal to `e`. */
    method FindElem(i: nat, e: E) returns (p: Option<nat>)
      requires Valid() && i < |buckets|
      ensures p.Some? ==> p.value < |buckets[i]| && Equal(buckets[i][p.value], e, less)
      ensures p.None? ==> !EqualIn(buckets[i], e, less)
    {
      var j := 0;
      while j < |buckets[i]|
        invariant j <= |buckets[i]| && forall k :: 0 <= k < j ==> !Equal(buckets[i][k], e, less)
      {
        var x := buckets[i][j];
        if !less(x, e) && !less(e, x) { return Some(j); }
        j := j + 1;
      }
      return None;
    }

    lemma FoundIs(i: nat, p: Option<nat>, e: E)
      requires Valid() && i == hash(e) % |buckets|
      requires p.Some? ==> p.value < |buckets[i]| && Equal(buckets[i][p.value], e, less)
      requires p.None? ==> !EqualIn(buckets[i], e, less)
      ensures p.Some? ==> buckets[i][p.value] in View()
      ensures p.None? ==> forall x :: x in View() ==> !Equal(x, e, less)
    {
      if p.Some? {
        assert buckets[i][p.value] in buckets[i];
        ViewIs(buckets[i][p.value]);
      } else {
        forall x | x in View() ensures !Equal(x, e, less) {
          ViewIs(x);
          if Equal(x, e, less) { EqualInBucket(buckets, x, e, hash, less); }
        }
      }
    }

    method Find(e: E) returns (r: Option<E>)
      requires Valid()
      ensures r.Some? ==> r.value in View() && Equal(r.value, e, less)
      ensures r.None? ==> forall x :: x in View() ==> !Equal(x, e, less)
    {
      var i := FindBucket(e);
      var p := FindElem(i, e);
      FoundIs(i, p, e);
      return if p.Some? then Some(buckets[i][p.value]) else None;
    }

    /** Puts an element that has no equal into its bucket. */
    method InsertElem(i: nat, e: E)
      requires Valid() && i == hash(e) % |buckets| && !EqualIn(buckets[i], e, less) && elemCnt + 1 < Pow2(WORD_BITS)
      modifies this`elemCnt, this`buckets
      ensures Valid() && View() == old(View()) + {e} && elemCnt == old(elemCnt) + 1 && |buckets| == old(|buckets|)
    {
      ghost var s := Flat(buckets);
      forall x ensures Holds(buckets, x) <==> x in s { FlatMembers(buckets, x); }
      PushTable(buckets, s, e, hash, less);
      elemCnt := elemCnt + 1;
      buckets := buckets[i := [e] + buckets[i]];
      forall x ensures x in View() <==> x in s + [e] { FlatMembers(buckets, x); }
    }

    /** Takes an element out of its bucket. */
    method RemoveElem(i: nat, p: nat)
      requires Valid() && i < |buckets| && p < |buckets[i]|
      modifies this`elemCnt, this`buckets
      ensures Valid() && View() == old(View()) - {old(buckets[i][p])} && elemCnt == old(elemCnt) - 1
      ensures |buckets| == old(|buckets|)
      ensures buckets[i] == old(buckets[i][..p] + buckets[i][p + 1..])
    {
      ghost var before, e := buckets, buckets[i][p];
      DropTable(buckets, i, p, hash, less);
      elemCnt := elemCnt - 1;
      buckets := buckets[i := buckets[i][..p] + buckets[i][p + 1..]];
      forall x ensures x in View() <==> x in old(View()) && x != e {
        FlatMembers(buckets, x);
        FlatMembers(before, x);
      }
    }

    /** The number of buckets for the elements there are: the greatest power of two up to half of them, at least 4. */
    method BestBucketCnt() returns (n: nat)
      requires Valid()
      ensures n == FloorPow2(if elemCnt / 2 < 4 then 4 else elemCnt / 2)
    {
      n := elemCnt / 2;
      if n < 4 { n := 4; }
      ghost var m := n;
      assert Pow2(WORD_BITS) > 4 by { Pow2Values(); }
      while TurnOffLeastBit(WORD_BITS, n) != 0
        invariant 0 < n < Pow2(WORD_BITS) && FloorPow2(n) == FloorPow2(m)
        decreases n
      {
        TurnOffKeepsFloor(WORD_BITS, n);
        n := TurnOffLeastBit(WORD_BITS, n);
      }
      TurnOffKeepsFloor(WORD_BITS, n);
    }

    method MoveBucket(i: nat, into: seq<seq<E>>, ghost newBits: nat) returns (newBuckets: seq<seq<E>>)
      requires Valid() && i < |buckets| && |into| == Pow2(newBits) && newBits <= WORD_BITS
      requires TableOf(into, Flat(buckets[..i]), hash, less)
      ensures |newBuckets| == |into| && TableOf(newBuckets, Flat(buckets[..i + 1]), hash, less)
    {
      newBuckets := into;
      ghost var before := Flat(buckets[..i]);
      FlatUnequal(buckets[..i + 1], |buckets|, hash, less);
      assert buckets[..i + 1][..i] == buckets[..i];
      ghost var all := before + buckets[i];
      assert Flat(buckets[..i + 1]) == all;
      var j := 0;
      assert before + buckets[i][..0] == before;
      while j < |buckets[i]|
        invariant j <= |buckets[i]| && |newBuckets| == |into|
        invariant TableOf(newBuckets, before + buckets[i][..j], hash, less)
      {
        var e := buckets[i][j];
        MaskIsRemainder(WORD_BITS, hash(e), newBits, |newBuckets|);
        var k := And(WORD_BITS, hash(e), |newBuckets| - 1);
        ghost var moved := before + buckets[i][..j];
        assert forall q :: 0 <= q < |moved| ==> moved[q] == all[q];
        assert all[|moved|] == e;
        assert !EqualIn(moved, e, less);
        NoneInBucket(newBuckets, moved, e, k, less);
        PushTable(newBuckets, moved, e, hash, less);
        newBuckets := newBuckets[k := [e] + newBuckets[k]];
        j := j + 1;
        assert before + buckets[i][..j] == moved + [e];
      }
      assert buckets[i][..j] == buckets[i];
    }

    /** The elements moved into `n` new buckets, one by one. */
    method MoveAll(n: nat, ghost newBits: nat) returns (newBuckets: seq<seq<E>>)
      requires Valid() && n == Pow2(newBits) && newBits <= WORD_BITS
      ensures |newBuckets| == n && TableOf(newBuckets, Flat(buckets), hash, less)
    {
      newBuckets := seq(n, _ => []);
      EmptyTable(newBuckets, hash, less);
      ghost var all := Flat(buckets);
      FlatUnequal(buckets, |buckets|, hash, less);
      var i := 0;
      while i < |buckets|
        invariant i <= |buckets| && |newBuckets| == n && TableOf(newBuckets, Flat(buckets[..i]), hash, less)
      {
        newBuckets := MoveBucket(i, newBuckets, newBits);
        i := i + 1;
      }
      assert buckets[..i] == buckets;
    }

    /** Changes the number of buckets to the best, if there is memory, and moves every element. */
    method Rehash(memory: bool)
      requires Valid()
      modifies this`buckets, this`bits
      ensures Valid() && View() == old(View())
      ensures memory ==> |buckets| == FloorPow2(if elemCnt / 2 < 4 then 4 else elemCnt / 2) && elemCnt < 4 * |buckets|
      ensures !memory ==> buckets == old(buckets)
    {
      var n := BestBucketCnt();
      if n == |buckets| || !memory { return; }
      ghost var k := FloorIsPower(if elemCnt / 2 < 4 then 4 else elemCnt / 2);
      BitsInRange(elemCnt, n, k);
      var newBuckets := MoveAll(n, k);
      forall x ensures x in ToSet(Flat(newBuckets)) <==> x in View() { FlatMembers(newBuckets, x); }
      buckets, bits := newBuckets, k;
    }

    /** Puts an element in, unless there is an equal one, which is returned. */
    method Insert(e: E, memory: bool) returns (r: Option<E>)
      requires Valid() && elemCnt + 1 < Pow2(WORD_BITS)
      modifies this
      ensures Valid() && (memory ==> elemCnt < 4 * |buckets|)
      ensures r.Some? ==> r.value in old(View()) && Equal(r.value, e, less) && View() == old(View())
      ensures r.None? ==> (forall x :: x in old(View()) ==> !Equal(x, e, less)) && View() == old(View()) + {e}
    {
      var i := FindBucket(e);
      var p := FindElem(i, e);
      FoundIs(i, p, e);
      r := if p.Some? then Some(buckets[i][p.value]) else None;
      if p.None? { InsertElem(i, e); }
      Rehash(memory);
    }

    /** The element of a bucket equal to `e` is the only one there. */
    lemma OnlyEqual(i: nat, p: nat, e: E)
      requires Valid() && i < |buckets| && p < |buckets[i]| && Equal(buckets[i][p], e, less)
      ensures !EqualIn(buckets[i][..p] + buckets[i][p + 1..], e, less)
    {
      var b := buckets[i];
      assert BucketOk(b, i, |buckets|, hash, less);
      var rest := b[..p] + b[p + 1..];
      forall k | 0 <= k < |rest| ensures !Equal(rest[k], e, less) {
        var q := if k < p then k else k + 1;
        assert rest[k] == b[q];
        EqualSymmetric(b[p], e, less);
        EqualSymmetric(b[p], b[q], less);
        assert !Equal(b[q], b[p], less) && Equal(e, b[p], less);
      }
    }

    /** Puts an element in, in the place of an equal one if there is one, which is returned. */
    method Replace(e: E, memory: bool) returns (r: Option<E>)
      requires Valid() && elemCnt + 1 < Pow2(WORD_BITS)
      modifies this
      ensures Valid() && (memory ==> elemCnt < 4 * |buckets|)
      ensures r.Some? ==> r.value in old(View()) && Equal(r.value, e, less) && View() == old(View()) - {r.value} + {e}
      ensures r.None? ==> (forall x :: x in old(View()) ==> !Equal(x, e, less)) && View() == old(View()) + {e}
    {
      var i := FindBucket(e);
      var p := FindElem(i, e);
      FoundIs(i, p, e);
      r := if p.Some? then Some(buckets[i][p.value]) else None;
      if p.Some? {
        OnlyEqual(i, p.value, e);
        RemoveElem(i, p.value);
      }
      InsertElem(i, e);
      Rehash(memory);
    }

    /** Takes the element equal to `e` out, if there is one, and returns it. */
    method Delete(e: E, memory: bool) returns (r: Option<E>)
      requires Valid()
      modifies this
      ensures Valid()
      ensures r.Some? ==> r.value in old(View()) && Equal(r.value, e, less) && View() == old(View()) - {r.value}
      ensures r.Some? && memory ==> elemCnt < 4 * |buckets|
      ensures r.None? ==> (forall x :: x in old(View()) ==> !Equal(x, e, less)) && View() == old(View())
    {
      var i := FindBucket(e);
      var p := FindElem(i, e);
      FoundIs(i, p, e);
      if p.None? { return None; }
      r := Some(buckets[i][p.value]);
      RemoveElem(i, p.value);
      Rehash(memory);
    }
  }

  // ----- iterating -----

  lemma {:induction false} FlatGrows<E>(buckets: seq<seq<E>>, n: nat)
    requires n <= |buckets|
    ensures |Flat(buckets[..n])| <= |Flat(buckets)|
    decreases |buckets|
  {
    if n < |buckets| {
      var m := |buckets| - 1;
      FlatGrows(buckets[..m], n);
      assert buckets[..m][..n] == buckets[..n];
    } else {
      assert buckets[..n] == buckets;
    }
  }

  lemma VisitedBound<E>(buckets: seq<seq<E>>, b: nat, pos: int, visited: seq<E>)
    requires b < |buckets| && -1 <= pos < |buckets[b]| && visited == Flat(buckets[..b]) + buckets[b][..pos + 1]
    ensures |visited| <= |Flat(buckets)|
  {
    FlatGrows(buckets, b + 1);
    assert buckets[..b + 1][..b] == buckets[..b];
  }

  /** An iterator is at place `pos` of bucket `bucket`, or before its first place, or past the last bucket. */
  class Iterator<E(==, !new)> {
    const table: Table<E>

    var bucket: nat
    var pos: int
    ghost var visited: seq<E>

    ghost predicate Valid()
      reads this, table
    {
      && bucket <= |table.buckets|
      && (bucket < |table.buckets| ==>
            && -1 <= pos < |table.buckets[bucket]|
            && visited == Flat(table.buckets[..bucket]) + table.buckets[bucket][..pos + 1])
      && (bucket == |table.buckets| ==> visited == Flat(table.buckets))
    }

    /** Before the first element. */
    constructor (table: Table<E>)
      requires table.Valid()
      ensures Valid() && this.table == table && visited == [] && bucket < |table.buckets|
    {
      this.table := table;
      bucket, pos, visited := 0, -1, [];
    }

    /** The next element not visited yet; none when every element has been. */
    method Next() returns (r: Option<E>)
      requires Valid() && bucket < |table.buckets|
      modifies this
      ensures Valid()
      ensures r.Some? ==> bucket < |table.buckets| && visited == old(visited) + [r.value]
      ensures |visited| <= |Flat(table.buckets)|
      ensures r.None? ==> visited == old(visited) == Flat(table.buckets) && bucket == |table.buckets|
    {
      pos := pos + 1;
      ghost var bs := table.buckets;
      while pos == |table.buckets[bucket]|
        invariant bucket < |bs| && bs == table.buckets && 0 <= pos <= |bs[bucket]| && visited == old(visited)
        invariant visited == Flat(bs[..bucket]) + bs[bucket][..pos]
        decreases |bs| - bucket
      {
        assert bs[bucket][..pos] == bs[bucket] && bs[..bucket + 1][..bucket] == bs[..bucket];
        assert visited == Flat(bs[..bucket + 1]);
        bucket := bucket + 1;
        if bucket >= |table.buckets| {
          assert bs[..bucket] == bs;
          return None;
        }
        pos := 0;
        assert bs[bucket][..0] == [];
      }
      r := Some(table.buckets[bucket][pos]);
      visited := visited + [r.value];
      assert bs[bucket][..pos + 1] == bs[bucket][..pos] + [r.value];
      VisitedBound(bs, bucket, pos, visited);
    }
  }

  /** Going on until none is left visits every element of the table exactly once. */
  method VisitAll<E(==, !new)>(table: Table<E>) returns (s: seq<E>)
    requires table.Valid()
    ensures Distinct(s) && ToSet(s) == table.View() && |s| == table.elemCnt
  {
    ghost var all := Flat(table.buckets);
    var it := new Iterator(table);
    s := [];
    var more := true;
    while more
      invariant it.table == table && it.Valid() && fresh(it) && s == it.visited
      invariant more ==> it.bucket < |table.buckets|
      invariant !more ==> s == all
      decreases if more then 1 + |all| - |s| else 0
    {
      var e := it.Next();
      if e.Some? { s := s + [e.value]; } else { more := false; }
    }
    table.Counted();
    UnequalDistinct(all, table.less);
  }
}
