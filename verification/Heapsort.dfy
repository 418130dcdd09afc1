/** The library's heap sort and binary search, on arrays of elements compared by a strcmp-like function. */
module Heapsort {

  import opened Basics

  /** Results of `cmp` have the sign of a total preorder. */
  ghost predicate TotalPreorder<T(!new)>(cmp: (T, T) -> int) {
    && (forall x, y :: cmp(x, y) < 0 <==> cmp(y, x) > 0)
    && (forall x, y, z {:trigger cmp(x, y), cmp(y, z), cmp(x, z)} ::
          cmp(x, y) <= 0 && cmp(y, z) <= 0 ==> cmp(x, z) <= 0)
  }

  ghost predicate Sorted<T>(s: seq<T>, cmp: (T, T) -> int) {
    forall i, j :: 0 <= i < j < |s| ==> cmp(s[i], s[j]) <= 0
  }

  /** The element with 1-based index `k`. */
  function At<T>(s: seq<T>, k: nat): T
    requires 0 < k <= |s|
  {
    s[k - 1]
  }

  /** Node `k` of the tree over the first `cnt` elements is no greater than its parent. */
  ghost predicate Below<T>(s: seq<T>, k: nat, cmp: (T, T) -> int)
    requires 1 < k <= |s|
  {
    cmp(At(s, k), At(s, k / 2)) <= 0
  }

  /** The heap order holds under every node from `lo` on, except under `hole`. */
  ghost predicate HeapFrom<T>(s: seq<T>, lo: nat, hole: nat, cnt: nat, cmp: (T, T) -> int) {
    cnt <= |s| && forall k :: 1 < k <= cnt && k / 2 >= lo && k / 2 != hole ==> Below(s, k, cmp)
  }

  /** What is under `hole` is no greater than what is over it. */
  ghost predicate Bridged<T>(s: seq<T>, lo: nat, hole: nat, cnt: nat, cmp: (T, T) -> int) {
    && cnt <= |s| && 0 < hole
    && (hole / 2 >= lo ==>
          hole / 2 > 0 && forall k :: 1 < k <= cnt && k / 2 == hole ==> cmp(At(s, k), At(s, hole / 2)) <= 0)
  }

  function Swapped<T>(s: seq<T>, i: nat, j: nat): (t: seq<T>)
    requires i < |s| && j < |s|
    ensures |t| == |s|
  {
    s[i := s[j]][j := s[i]]
  }

  lemma SwapPermutes<T>(s: seq<T>, i: nat, j: nat, n: nat)
    requires i < n && j < n && n <= |s|
    ensures multiset(Swapped(s, i, j)[..n]) == multiset(s[..n])
  {
    var t := s[..n];
    assert Swapped(s, i, j)[..n] == t[i := t[j]][j := t[i]];
  }

  /** The greater of a node's children, where it is greater than the node, goes up and the hole goes down. */
  lemma FloatDown<T(!new)>(s: seq<T>, lo: nat, i: nat, max: nat, cnt: nat, cmp: (T, T) -> int)
    requires TotalPreorder(cmp) && 0 < lo <= i && cnt <= |s|
    requires HeapFrom(s, lo, i, cnt, cmp) && Bridged(s, lo, i, cnt, cmp)
    requires i < max <= cnt && max / 2 == i && cmp(At(s, max), At(s, i)) > 0
    requires forall k :: 1 < k <= cnt && k / 2 == i ==> cmp(At(s, k), At(s, max)) <= 0
    ensures var t := Swapped(s, i - 1, max - 1);
      HeapFrom(t, lo, max, cnt, cmp) && Bridged(t, lo, max, cnt, cmp)
  {
    var t := Swapped(s, i - 1, max - 1);
    forall k | 1 < k <= cnt && k / 2 >= lo && k / 2 != max ensures Below(t, k, cmp) {
      if k / 2 == i {
        assert cmp(At(s, k), At(s, max)) <= 0 && cmp(At(s, i), At(s, max)) < 0;
      } else if k == i {
        assert cmp(At(s, max), At(s, i / 2)) <= 0;
      } else {
        assert Below(s, k, cmp);
      }
    }
    forall k | 1 < k <= cnt && k / 2 == max ensures cmp(At(t, k), At(t, max / 2)) <= 0 {
      assert Below(s, k, cmp);
    }
  }

  lemma NoneGreater<T(!new)>(s: seq<T>, lo: nat, i: nat, cnt: nat, cmp: (T, T) -> int)
    requires TotalPreorder(cmp) && 0 < lo <= i <= cnt <= |s| && HeapFrom(s, lo, i, cnt, cmp)
    requires forall k :: 1 < k <= cnt && k / 2 == i ==> cmp(At(s, k), At(s, i)) <= 0
    ensures HeapFrom(s, lo, 0, cnt, cmp)
  {
    forall k | 1 < k <= cnt && k / 2 >= lo ensures Below(s, k, cmp) {
      if k / 2 != i { assert Below(s, k, cmp); }
    }
  }

  /** The greatest of a node and its children, as the two comparisons find it. */
  lemma Greatest<T(!new)>(s: seq<T>, j: nat, max: nat, cnt: nat, cmp: (T, T) -> int)
    requires TotalPreorder(cmp) && 0 < j <= cnt <= |s|
    requires var m := if 2 * j <= cnt && cmp(At(s, 2 * j), At(s, j)) > 0 then 2 * j else j;
      max == if 2 * j + 1 <= cnt && cmp(At(s, 2 * j + 1), At(s, m)) > 0 then 2 * j + 1 else m
    ensures forall k :: 1 < k <= cnt && k / 2 == j ==> cmp(At(s, k), At(s, max)) <= 0
    ensures max == j || (max / 2 == j && j < max <= cnt && cmp(At(s, max), At(s, j)) > 0)
  {
    forall k | 1 < k <= cnt && k / 2 == j ensures cmp(At(s, k), At(s, max)) <= 0 {
      assert k == 2 * j || k == 2 * j + 1;
    }
  }

  /** The first `cnt` elements have been rearranged and the others left. */
  ghost predicate Permuted<T>(s: seq<T>, t: seq<T>, cnt: nat) {
    && |t| == |s| && cnt <= |s|
    && multiset(t[..cnt]) == multiset(s[..cnt])
    && forall k :: cnt <= k < |s| ==> t[k] == s[k]
  }

  method Swap<T>(a: array<T>, i: nat, j: nat, ghost cnt: nat)
    requires i < cnt && j < cnt && cnt <= a.Length
    modifies a
    ensures a[..] == Swapped(old(a[..]), i, j) && Permuted(old(a[..]), a[..], cnt)
  {
    SwapPermutes(a[..], i, j, cnt);
    a[i], a[j] := a[j], a[i];
    assert a[..] == Swapped(old(a[..]), i, j);
  }

  /** The index of the greatest of node `j` and its children. */
  method Largest<T(!new)>(a: array<T>, j: nat, cnt: nat, cmp: (T, T) -> int) returns (max: nat)
    requires TotalPreorder(cmp) && 0 < j <= cnt <= a.Length
    ensures max == j || (max / 2 == j && j < max <= cnt && cmp(At(a[..], max), At(a[..], j)) > 0)
    ensures forall k :: 1 < k <= cnt && k / 2 == j ==> cmp(At(a[..], k), At(a[..], max)) <= 0
  {
    var left, right := 2 * j, 2 * j + 1;
    max := j;
    if left <= cnt && cmp(a[left - 1], a[max - 1]) > 0 { max := left; }
    if right <= cnt && cmp(a[right - 1], a[max - 1]) > 0 { max := right; }
    Greatest(a[..], j, max, cnt, cmp);
  }

  /** Floats element `i` of the first `cnt` down until it is no less than its children. */
  method Heapify<T(!new)>(a: array<T>, i: nat, cnt: nat, cmp: (T, T) -> int)
    requires TotalPreorder(cmp) && 0 < i <= cnt <= a.Length
    requires HeapFrom(a[..], i, i, cnt, cmp)
    modifies a
    ensures HeapFrom(a[..], i, 0, cnt, cmp) && Permuted(old(a[..]), a[..], cnt)
  {
    var j := i;
    while true
      invariant i <= j <= cnt && HeapFrom(a[..], i, j, cnt, cmp) && Bridged(a[..], i, j, cnt, cmp)
      invariant Permuted(old(a[..]), a[..], cnt)
      decreases cnt - j
    {
      var max := Largest(a, j, cnt, cmp);
      ghost var s := a[..];
      if max == j {
        NoneGreater(s, i, j, cnt, cmp);
        break;
      }
      FloatDown(s, i, j, max, cnt, cmp);
      Swap(a, j - 1, max - 1, cnt);
      j := max;
    }
  }

  // ----- sorting -----

  /** The root of a heap is its greatest element. */
  lemma {:induction false} RootIsGreatest<T(!new)>(s: seq<T>, cnt: nat, k: nat, cmp: (T, T) -> int)
    requires TotalPreorder(cmp) && HeapFrom(s, 1, 0, cnt, cmp) && 0 < k <= cnt
    ensures cmp(At(s, k), At(s, 1)) <= 0
  {
    if k > 1 {
      RootIsGreatest(s, cnt, k / 2, cmp);
      assert Below(s, k, cmp);
    } else {
      assert cmp(At(s, 1), At(s, 1)) <= 0;
    }
  }

  /** The elements after the first `i` are sorted and no less than those. */
  ghost predicate Tail<T>(s: seq<T>, i: nat, cmp: (T, T) -> int) {
    && i <= |s|
    && (forall k, l :: i <= k < l < |s| ==> cmp(s[k], s[l]) <= 0)
    && (forall k, l :: 0 <= k < i <= l < |s| ==> cmp(s[k], s[l]) <= 0)
  }

  /** Rearranging what is before it leaves the tail as it is. */
  lemma TailKept<T>(s: seq<T>, t: seq<T>, i: nat, cmp: (T, T) -> int)
    requires Tail(s, i, cmp) && Permuted(s, t, i)
    ensures Tail(t, i, cmp)
  {
    forall k, l | 0 <= k < i <= l < |t| ensures cmp(t[k], t[l]) <= 0 {
      assert t[..i][k] in multiset(t[..i]);
      assert t[k] in s[..i];
      var j :| 0 <= j < i && s[..i][j] == t[k];
      assert s[j] == t[k];
    }
  }

  lemma HeapWithoutRoot<T>(s: seq<T>, i: nat, cmp: (T, T) -> int)
    requires HeapFrom(s, 1, 0, i, cmp) && 1 < i <= |s|
    ensures HeapFrom(Swapped(s, 0, i - 1), 1, 1, i - 1, cmp)
  {
    var t := Swapped(s, 0, i - 1);
    forall k | 1 < k <= i - 1 && k / 2 >= 1 && k / 2 != 1 ensures Below(t, k, cmp) {
      assert Below(s, k, cmp);
    }
  }

  /** Putting the greatest of the first `i` at place `i` lengthens the tail. */
  lemma TailGrows<T(!new)>(s: seq<T>, i: nat, cmp: (T, T) -> int)
    requires TotalPreorder(cmp) && Tail(s, i, cmp) && HeapFrom(s, 1, 0, i, cmp) && 1 < i <= |s|
    ensures Tail(Swapped(s, 0, i - 1), i - 1, cmp)
    ensures HeapFrom(Swapped(s, 0, i - 1), 1, 1, i - 1, cmp)
  {
    var t := Swapped(s, 0, i - 1);
    forall k | 0 <= k < i - 1 ensures cmp(t[k], t[i - 1]) <= 0 {
      RootIsGreatest(s, i, if k == 0 then i else k + 1, cmp);
    }
    forall k, l | 0 <= k < i - 1 <= l < |t| ensures cmp(t[k], t[l]) <= 0 {
      if l > i - 1 { assert cmp(s[if k == 0 then i - 1 else k], s[l]) <= 0; }
    }
    forall k, l | i - 1 <= k < l < |t| ensures cmp(t[k], t[l]) <= 0 {
      assert cmp(s[if k == i - 1 then 0 else k], s[l]) <= 0;
    }
    HeapWithoutRoot(s, i, cmp);
  }

  lemma PermutedJoin<T>(s: seq<T>, t: seq<T>, u: seq<T>, n: nat, m: nat)
    requires Permuted(s, t, n) && Permuted(t, u, m) && m <= n
    ensures Permuted(s, u, n)
  {
    assert u[..n] == u[..m] + u[m..n];
    assert t[..n] == t[..m] + t[m..n];
    assert u[m..n] == t[m..n];
  }

  /** Moves the greatest of the first `i` elements behind the others and makes those a heap again. */
  method MoveRoot<T(!new)>(a: array<T>, i: nat, cmp: (T, T) -> int)
    requires TotalPreorder(cmp) && 1 < i <= a.Length
    requires HeapFrom(a[..], 1, 0, i, cmp) && Tail(a[..], i, cmp)
    modifies a
    ensures HeapFrom(a[..], 1, 0, i - 1, cmp) && Tail(a[..], i - 1, cmp)
    ensures Permuted(old(a[..]), a[..], a.Length)
  {
    ghost var t := a[..];
    TailGrows(t, i, cmp);
    Swap(a, 0, i - 1, a.Length);
    ghost var u := a[..];
    Heapify(a, 1, i - 1, cmp);
    TailKept(u, a[..], i - 1, cmp);
    PermutedJoin(t, u, a[..], a.Length, i - 1);
  }

  method BuildHeap<T(!new)>(a: array<T>, cmp: (T, T) -> int)
    requires TotalPreorder(cmp)
    modifies a
    ensures HeapFrom(a[..], 1, 0, a.Length, cmp) && Permuted(old(a[..]), a[..], a.Length)
    ensures multiset(a[..]) == multiset(old(a[..]))
  {
    var cnt := a.Length;
    var i: nat := cnt / 2;
    while i > 0
      invariant i <= cnt / 2 && HeapFrom(a[..], i + 1, 0, cnt, cmp) && Permuted(old(a[..]), a[..], cnt)
    {
      ghost var t := a[..];
      Heapify(a, i, cnt, cmp);
      PermutedJoin(old(a[..]), t, a[..], cnt, cnt);
      i := i - 1;
    }
    assert a[..cnt] == a[..] && old(a[..])[..cnt] == old(a[..]);
  }

  /** Builds a heap and then moves its greatest element behind it until it is empty. */
  method Sort<T(!new)>(a: array<T>, cmp: (T, T) -> int)
    requires TotalPreorder(cmp)
    modifies a
    ensures Sorted(a[..], cmp) && multiset(a[..]) == multiset(old(a[..]))
  {
    var cnt := a.Length;
    BuildHeap(a, cmp);
    ghost var s := a[..];
    var i: nat := cnt;
    while i > 1
      invariant i <= cnt && (cnt > 0 ==> i > 0)
      invariant HeapFrom(a[..], 1, 0, i, cmp) && Tail(a[..], i, cmp) && Permuted(s, a[..], cnt)
    {
      ghost var t := a[..];
      MoveRoot(a, i, cmp);
      PermutedJoin(s, t, a[..], cnt, cnt);
      i := i - 1;
    }
    assert s[..cnt] == s && a[..cnt] == a[..];
  }

  // ----- searching -----

  lemma NotBefore<T(!new)>(s: seq<T>, key: T, m: nat, cmp: (T, T) -> int)
    requires TotalPreorder(cmp) && Sorted(s, cmp) && m < |s| && cmp(key, s[m]) < 0
    ensures forall i :: m <= i < |s| ==> cmp(key, s[i]) < 0
  {
    forall i | m < i < |s| ensures cmp(key, s[i]) < 0 {
      assert cmp(s[m], s[i]) <= 0;
      assert cmp(s[m], key) > 0;
      assert cmp(s[i], key) > 0;
    }
  }

  lemma NotAfter<T(!new)>(s: seq<T>, key: T, m: nat, cmp: (T, T) -> int)
    requires TotalPreorder(cmp) && Sorted(s, cmp) && m < |s| && cmp(key, s[m]) > 0
    ensures forall i :: 0 <= i <= m ==> cmp(key, s[i]) > 0
  {
    forall i | 0 <= i < m ensures cmp(key, s[i]) > 0 {
      assert cmp(s[i], s[m]) <= 0;
    }
  }

  /** A place of a match, if there is one. */
  method BinarySearch<T(!new)>(key: T, a: array<T>, cmp: (T, T) -> int) returns (r: Option<nat>)
    requires TotalPreorder(cmp) && Sorted(a[..], cmp)
    ensures r.Some? ==> r.value < a.Length && cmp(key, a[r.value]) == 0
    ensures r.None? ==> forall i :: 0 <= i < a.Length ==> cmp(key, a[i]) != 0
  {
    var first, last := 0, a.Length;
    while first < last
      invariant 0 <= first <= last <= a.Length
      invariant forall i :: 0 <= i < first ==> cmp(key, a[i]) > 0
      invariant forall i :: last <= i < a.Length ==> cmp(key, a[i]) < 0
    {
      var range := last - first;
      var middle := first + range / 2;
      var c := cmp(key, a[middle]);
      if c < 0 {
        NotBefore(a[..], key, middle, cmp);
        last := middle;
      } else if c > 0 {
        NotAfter(a[..], key, middle, cmp);
        first := middle + 1;
      } else {
        return Some(middle);
      }
    }
    return None;
  }
}
