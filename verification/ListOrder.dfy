/** The order theory behind the sorting operations of the kernel's linked lists, stated over
    plain sequences: strict weak orders, sortedness, natural runs, one merging pass, and the
    stable sort that the heap code in `LinkedList` is proved to compute. */
module ListOrder {

  import opened PowerOfTwo

  /** `less` is a strict weak order on `u`: asymmetric and negatively transitive. */
  ghost predicate StrictWeakOrder<T>(less: (T, T) -> bool, u: set<T>) {
    && (forall a, b :: a in u && b in u && less(a, b) ==> !less(b, a))
    && (forall a, b, c :: a in u && b in u && c in u && less(a, b) ==> less(a, c) || less(c, b))
  }

  ghost predicate Within<T>(s: seq<T>, u: set<T>) {
    forall i :: 0 <= i < |s| ==> s[i] in u
  }

  /** Adjacent elements are in nondecreasing order: one natural run. */
  ghost predicate IsRun<T>(s: seq<T>, less: (T, T) -> bool) {
    forall i :: 0 < i < |s| ==> !less(s[i], s[i - 1])
  }

  ghost predicate Sorted<T>(s: seq<T>, less: (T, T) -> bool) {
    forall i, j :: 0 <= i < j < |s| ==> !less(s[j], s[i])
  }

  predicate Equivalent<T>(less: (T, T) -> bool, a: T, b: T) {
    !less(a, b) && !less(b, a)
  }

  /** The elements of `s` that `less` cannot tell from `x`, in the order in which they stand. */
  ghost function Class<T>(s: seq<T>, x: T, less: (T, T) -> bool): seq<T> {
    if s == [] then []
    else if Equivalent(less, s[0], x) then [s[0]] + Class(s[1..], x, less)
    else Class(s[1..], x, less)
  }

  /** `t` rearranges `s` and keeps the elements equivalent to any `x` of `u` in their original order. */
  ghost predicate StableRearrangement<T>(s: seq<T>, t: seq<T>, less: (T, T) -> bool, u: set<T>) {
    && multiset(t) == multiset(s)
    && forall x :: x in u ==> Class(t, x, less) == Class(s, x, less)
  }

  // ----- runs and sortedness -----

  lemma {:induction false} RunIsSorted<T>(s: seq<T>, less: (T, T) -> bool, u: set<T>)
    requires StrictWeakOrder(less, u) && Within(s, u) && IsRun(s, less)
    ensures Sorted(s, less)
  {
    if s != [] {
      var t := s[..|s| - 1];
      RunIsSorted(t, less, u);
      forall i | 0 <= i < |t| ensures !less(s[|t|], s[i]) {
        if i < |t| - 1 {
          assert !less(t[|t| - 1], t[i]);
          assert !less(s[|t|], s[|t| - 1]);
        }
      }
      forall i, j | 0 <= i < j < |s| ensures !less(s[j], s[i]) {
        if j < |t| { assert !less(t[j], t[i]); }
      }
    }
  }

  /** A run is extended by the element after it exactly when that one is not below its last element. */
  lemma RunNext<T>(s: seq<T>, i: nat, p: nat, j: nat, less: (T, T) -> bool)
    requires i < p < j <= |s| && IsRun(s[i..p], less)
    ensures !less(s[p], s[p - 1]) ==> IsRun(s[i..p + 1], less)
    ensures less(s[p], s[p - 1]) ==> !IsRun(s[i..j], less)
  {
    var a, b := s[i..p + 1], s[i..j];
    assert b[p - i] == s[p] && b[p - i - 1] == s[p - 1];
    forall k | 0 < k < p - i ensures !less(a[k], a[k - 1]) {
      assert a[k] == s[i..p][k] && a[k - 1] == s[i..p][k - 1];
    }
  }

  /** `j` is the exclusive end of the natural run of the first `m` elements of `s` that starts at `i`. */
  ghost predicate IsRunEndBefore<T>(s: seq<T>, i: nat, j: nat, m: nat, less: (T, T) -> bool) {
    i < j <= m <= |s| && IsRun(s[i..j], less) && (j < m ==> less(s[j], s[j - 1]))
  }

  /** `j` is the exclusive end of the natural run of `s` that starts at `i`. */
  ghost predicate IsRunEnd<T>(s: seq<T>, i: nat, j: nat, less: (T, T) -> bool) {
    IsRunEndBefore(s, i, j, |s|, less)
  }

  /** How many maximal natural runs `s` splits into. */
  ghost function Runs<T>(s: seq<T>, less: (T, T) -> bool): nat {
    if s == [] then 0
    else if |s| == 1 then 1
    else Runs(s[1..], less) + (if less(s[1], s[0]) then 1 else 0)
  }

  lemma {:induction false} RunsOfRun<T>(s: seq<T>, less: (T, T) -> bool)
    requires s != []
    ensures Runs(s, less) >= 1
    ensures IsRun(s, less) <==> Runs(s, less) == 1
  {
    if |s| > 1 {
      RunsOfRun(s[1..], less);
      if IsRun(s[1..], less) {
        forall i | 1 < i < |s| ensures !less(s[i], s[i - 1]) { assert !less(s[1..][i - 1], s[1..][i - 2]); }
      }
      if IsRun(s, less) { assert !less(s[1], s[0]); }
    }
  }

  lemma {:induction false} RunsOfConcat<T>(a: seq<T>, b: seq<T>, less: (T, T) -> bool)
    ensures Runs(a + b, less) <= Runs(a, less) + Runs(b, less)
    ensures a != [] && b != [] && less(b[0], a[|a| - 1]) ==> Runs(a + b, less) == Runs(a, less) + Runs(b, less)
  {
    if a == [] {
      assert a + b == b;
    } else if |a| == 1 {
      if b == [] { assert a + b == a; } else { assert (a + b)[1..] == b; }
    } else {
      RunsOfConcat(a[1..], b, less);
      assert (a + b)[1..] == a[1..] + b;
    }
  }

  // ----- rearranging -----

  /** `s` with `x` inserted before position `k`. */
  ghost function Inserted<T>(s: seq<T>, k: nat, x: seq<T>): seq<T>
    requires k <= |s|
  {
    s[..k] + x + s[k..]
  }

  /** `s` without the positions `i` to `j`. */
  ghost function Removed<T>(s: seq<T>, i: nat, j: nat): seq<T>
    requires i <= j <= |s|
  {
    s[..i] + s[j..]
  }

  /** `s` with the element at `y` moved before the one at `x`. */
  ghost function Moved<T>(s: seq<T>, x: nat, y: nat): (r: seq<T>)
    requires x <= y < |s|
    ensures |r| == |s| && r[..x] == s[..x] && r[x] == s[y] && r[x + 1..y + 1] == s[x..y] && r[y + 1..] == s[y + 1..]
  {
    s[..x] + [s[y]] + s[x..y] + s[y + 1..]
  }

  lemma {:induction false} ClassOfConcat<T>(a: seq<T>, b: seq<T>, x: T, less: (T, T) -> bool)
    ensures Class(a + b, x, less) == Class(a, x, less) + Class(b, x, less)
  {
    if a == [] {
      assert a + b == b;
    } else {
      ClassOfConcat(a[1..], b, x, less);
      assert (a + b)[1..] == a[1..] + b;
    }
  }

  lemma {:induction false} ClassEmpty<T>(s: seq<T>, x: T, less: (T, T) -> bool)
    requires forall i :: 0 <= i < |s| ==> !Equivalent(less, s[i], x)
    ensures Class(s, x, less) == []
  {
    if s != [] { ClassEmpty(s[1..], x, less); }
  }

  lemma StableInside<T>(a: seq<T>, x: seq<T>, y: seq<T>, b: seq<T>, less: (T, T) -> bool, u: set<T>)
    requires StableRearrangement(x, y, less, u)
    ensures StableRearrangement(a + x + b, a + y + b, less, u)
  {
    forall e | e in u ensures Class(a + y + b, e, less) == Class(a + x + b, e, less) {
      ClassOfConcat(a, x, e, less);
      ClassOfConcat(a, y, e, less);
      ClassOfConcat(a + x, b, e, less);
      ClassOfConcat(a + y, b, e, less);
    }
  }

  /** An element may overtake elements that are all greater. */
  lemma Overtake<T>(a: seq<T>, e: T, less: (T, T) -> bool, u: set<T>)
    requires StrictWeakOrder(less, u) && Within(a, u) && e in u
    requires forall i :: 0 <= i < |a| ==> less(e, a[i])
    ensures StableRearrangement(a + [e], [e] + a, less, u)
  {
    forall x | x in u ensures Class([e] + a, x, less) == Class(a + [e], x, less) {
      ClassOfConcat([e], a, x, less);
      ClassOfConcat(a, [e], x, less);
      if Equivalent(less, e, x) {
        ClassEmpty(a, x, less);
      } else {
        assert Class([e], x, less) == [];
      }
    }
  }

  lemma MovedStable<T>(s: seq<T>, x: nat, y: nat, less: (T, T) -> bool, u: set<T>)
    requires StrictWeakOrder(less, u) && Within(s, u) && x <= y < |s|
    requires forall i :: x <= i < y ==> less(s[y], s[i])
    ensures StableRearrangement(s, Moved(s, x, y), less, u)
  {
    var a, b, c := s[..x], s[x..y], s[y + 1..];
    Overtake(b, s[y], less, u);
    StableInside(a, b + [s[y]], [s[y]] + b, c, less, u);
    assert s == a + (b + [s[y]]) + c;
    assert Moved(s, x, y) == a + ([s[y]] + b) + c;
  }

  // ----- merging two runs in place -----

  /** Positions `i` to `m` of `t` while two runs are merged: the elements before `x` are placed, and
      both `x..y` and `y..m`, what is left of the runs, may follow them in order. */
  ghost predicate MergeOrder<T>(t: seq<T>, i: nat, x: nat, y: nat, m: nat, less: (T, T) -> bool)
    requires i <= x <= y <= m <= |t|
  {
    && (forall p, q :: i <= p < q < y ==> !less(t[q], t[p]))
    && (forall p, q :: i <= p < x && y <= q < m ==> !less(t[q], t[p]))
    && (forall p, q :: y <= p < q < m ==> !less(t[q], t[p]))
  }

  lemma MergeStart<T>(t: seq<T>, i: nat, j: nat, m: nat, less: (T, T) -> bool, u: set<T>)
    requires StrictWeakOrder(less, u) && Within(t, u) && i <= j <= m <= |t|
    requires IsRun(t[i..j], less) && IsRun(t[j..m], less)
    ensures MergeOrder(t, i, i, j, m, less)
  {
    var a, b := t[i..j], t[j..m];
    RunIsSorted(a, less, u);
    RunIsSorted(b, less, u);
    forall p, q | i <= p < q < j ensures !less(t[q], t[p]) { assert !less(a[q - i], a[p - i]); }
    forall p, q | j <= p < q < m ensures !less(t[q], t[p]) { assert !less(b[q - j], b[p - j]); }
  }

  lemma MergeKeep<T>(t: seq<T>, i: nat, x: nat, y: nat, m: nat, less: (T, T) -> bool, u: set<T>)
    requires StrictWeakOrder(less, u) && Within(t, u) && i <= x < y < m <= |t|
    requires MergeOrder(t, i, x, y, m, less) && !less(t[y], t[x])
    ensures MergeOrder(t, i, x + 1, y, m, less)
  {
    forall q | y < q < m ensures !less(t[q], t[x]) { assert !less(t[q], t[y]); }
  }

  /** Taking the head of the right run keeps the order and is stable. */
  lemma MergeMove<T>(t: seq<T>, i: nat, x: nat, y: nat, m: nat, less: (T, T) -> bool, u: set<T>)
    requires StrictWeakOrder(less, u) && Within(t, u) && i <= x < y < m <= |t|
    requires MergeOrder(t, i, x, y, m, less) && less(t[y], t[x])
    ensures MergeOrder(Moved(t, x, y), i, x + 1, y + 1, m, less)
    ensures StableRearrangement(t, Moved(t, x, y), less, u)
  {
    var v := Moved(t, x, y);
    forall k | x <= k < y ensures less(t[y], t[k]) && v[k + 1] == t[k] {
      assert k > x ==> !less(t[k], t[x]);
      assert v[k + 1] == v[x + 1..y + 1][k - x];
    }
    assert forall k :: 0 <= k < x ==> v[k] == v[..x][k];
    assert forall k :: y < k < |t| ==> v[k] == v[y + 1..][k - y - 1];
    MovedStable(t, x, y, less, u);
    forall p, q | i <= p < q < y + 1 ensures !less(v[q], v[p]) {
      if q > x {
        assert v[q] == t[q - 1];
        if p == x { assert less(t[y], t[q - 1]); } else if p > x { assert v[p] == t[p - 1]; }
      }
    }
    forall p, q | i <= p < x + 1 && y + 1 <= q < m ensures !less(v[q], v[p]) {
      assert v[q] == t[q];
    }
  }

  /** `t` is reached while merging the runs `i..j` and `j..m` of `s`. */
  ghost predicate Merging<T>(s: seq<T>, t: seq<T>, i: nat, x: nat, y: nat, m: nat, less: (T, T) -> bool, u: set<T>) {
    && i <= x <= y <= m <= |t| == |s|
    && MergeOrder(t, i, x, y, m, less)
    && t[..i] == s[..i] && t[m..] == s[m..]
    && Within(t, u)
    && StableRearrangement(s, t, less, u)
  }

  /** `v` is `t` after a turn of the merge loop with P at `x` and Q at `y`; Q ends up at `z`. */
  ghost predicate MergeTurn<T>(t: seq<T>, v: seq<T>, x: nat, y: nat, z: nat, less: (T, T) -> bool)
    requires x < y < |t|
  {
    if less(t[y], t[x]) then v == Moved(t, x, y) && z == y + 1 else v == t && z == y
  }

  lemma StableWithin<T>(s: seq<T>, t: seq<T>, less: (T, T) -> bool, u: set<T>)
    requires StableRearrangement(s, t, less, u) && Within(s, u)
    ensures Within(t, u) && |t| == |s|
  {
    assert |multiset(s)| == |s| && |multiset(t)| == |t|;
    forall i | 0 <= i < |t| ensures t[i] in u {
      assert t[i] in multiset(t);
      assert t[i] in multiset(s);
    }
  }

  lemma MergingStep<T>(s: seq<T>, t: seq<T>, v: seq<T>, i: nat, x: nat, y: nat, z: nat, m: nat,
                       less: (T, T) -> bool, u: set<T>)
    requires StrictWeakOrder(less, u) && Merging(s, t, i, x, y, m, less, u) && x < y < m
    requires MergeTurn(t, v, x, y, z, less)
    ensures Merging(s, v, i, x + 1, z, m, less, u)
  {
    if less(t[y], t[x]) {
      MergeMove(t, i, x, y, m, less, u);
      StableWithin(t, v, less, u);
      assert v[..i] == v[..x][..i] && v[m..] == v[y + 1..][m - y - 1..];
    } else {
      MergeKeep(t, i, x, y, m, less, u);
    }
  }

  /** `v` is `t` with the two runs `i..j` and `j..m` merged into one, stably. */
  ghost predicate MergedRuns<T>(t: seq<T>, v: seq<T>, i: nat, m: nat, less: (T, T) -> bool, u: set<T>) {
    && i < m <= |t| == |v|
    && v[..i] == t[..i] && v[m..] == t[m..]
    && IsRun(v[i..m], less)
    && StableRearrangement(t, v, less, u)
  }

  lemma MergingDone<T>(s: seq<T>, t: seq<T>, i: nat, x: nat, y: nat, m: nat, less: (T, T) -> bool, u: set<T>)
    requires Merging(s, t, i, x, y, m, less, u) && i < m && (x == y || y == m)
    ensures MergedRuns(s, t, i, m, less, u)
  {
    forall k | 0 < k < |t[i..m]| ensures !less(t[i..m][k], t[i..m][k - 1]) {
      assert !less(t[i + k], t[i + k - 1]);
    }
  }

  // ----- one pass of the natural merge sort -----

  /** The suffix loses one run when its first run is cut off. */
  lemma RunsAfter<T>(t: seq<T>, i: nat, j: nat, less: (T, T) -> bool)
    requires IsRunEnd(t, i, j, less)
    ensures Runs(t[i..], less) == 1 + Runs(t[j..], less)
  {
    var a, b := t[i..j], t[j..];
    RunsOfRun(a, less);
    RunsOfConcat(a, b, less);
    assert t[i..] == a + b;
    if b == [] { assert a + b == a; }
  }

  /** `t` is reached during a pass over `s`: the positions before `i` hold at most `cnt` runs, each
      merged from two of the runs of `s`. */
  ghost predicate Passing<T>(s: seq<T>, t: seq<T>, i: nat, cnt: nat, less: (T, T) -> bool, u: set<T>) {
    && i <= |t|
    && StableRearrangement(s, t, less, u)
    && Runs(t[..i], less) <= cnt
    && 2 * cnt + Runs(t[i..], less) == Runs(s, less)
  }

  lemma PassStart<T>(s: seq<T>, less: (T, T) -> bool, u: set<T>)
    ensures Passing(s, s, 0, 0, less, u)
  {
    assert s[0..] == s && s[..0] == [];
  }

  lemma NextPair<T>(s: seq<T>, t: seq<T>, v: seq<T>, i: nat, j: nat, m: nat, cnt: nat, less: (T, T) -> bool, u: set<T>)
    requires Passing(s, t, i, cnt, less, u)
    requires IsRunEnd(t, i, j, less) && IsRunEnd(t, j, m, less) && MergedRuns(t, v, i, m, less, u)
    ensures Passing(s, v, m, cnt + 1, less, u)
  {
    RunsAfter(t, i, j, less);
    RunsAfter(t, j, m, less);
    RunsOfRun(v[i..m], less);
    RunsOfConcat(v[..i], v[i..m], less);
    assert v[..m] == v[..i] + v[i..m];
  }

  /** What a whole pass that counted `cnt` output runs has done. */
  ghost predicate Passed<T>(s: seq<T>, t: seq<T>, cnt: nat, less: (T, T) -> bool, u: set<T>) {
    && StableRearrangement(s, t, less, u)
    && Runs(t, less) <= cnt
    && cnt == (Runs(s, less) + 1) / 2
  }

  lemma LastRun<T>(s: seq<T>, t: seq<T>, i: nat, cnt: nat, less: (T, T) -> bool, u: set<T>)
    requires Passing(s, t, i, cnt, less, u) && IsRunEnd(t, i, |t|, less)
    ensures Passed(s, t, cnt + 1, less, u)
  {
    RunsAfter(t, i, |t|, less);
    RunsOfConcat(t[..i], t[i..], less);
    assert t == t[..i] + t[i..];
  }

  lemma NoRunLeft<T>(s: seq<T>, t: seq<T>, cnt: nat, less: (T, T) -> bool, u: set<T>)
    requires Passing(s, t, |t|, cnt, less, u)
    ensures Passed(s, t, cnt, less, u)
  {
    assert t[..|t|] == t && t[|t|..] == [];
  }

  // ----- all passes -----

  /** `k` halvings, each rounded up. */
  ghost function Halved(r: nat, k: nat): nat { if k == 0 then r else (Halved(r, k - 1) + 1) / 2 }

  lemma {:induction false} HalvedBound(r: nat, k: nat, m: nat)
    ensures Halved(r, k) > m ==> r > m * Pow2(k)
    decreases k
  {
    if k > 0 && Halved(r, k) > m {
      HalvedBound(r, k - 1, 2 * m);
      assert 2 * m * Pow2(k - 1) == m * Pow2(k);
    }
  }

  /** `t` is `s` after `k` passes that each counted more than one run. */
  ghost predicate AfterPasses<T>(s: seq<T>, t: seq<T>, k: nat, less: (T, T) -> bool, u: set<T>) {
    && Within(t, u)
    && StableRearrangement(s, t, less, u)
    && Runs(t, less) <= Halved(Runs(s, less), k)
    && (k == 0 || Pow2(k) < Runs(s, less))
  }

  /** `t` is `s` sorted stably by `k` passes after the first one. */
  ghost predicate SortedByPasses<T>(s: seq<T>, t: seq<T>, k: nat, less: (T, T) -> bool, u: set<T>) {
    && Sorted(t, less)
    && StableRearrangement(s, t, less, u)
    && (k == 0 || Pow2(k) < Runs(s, less))
  }

  /** A pass that counts at most one run leaves the sequence sorted. */
  lemma LastPass<T>(s: seq<T>, r: seq<T>, t: seq<T>, cnt: nat, k: nat, less: (T, T) -> bool, u: set<T>)
    requires StrictWeakOrder(less, u) && AfterPasses(s, r, k, less, u) && Passed(r, t, cnt, less, u) && cnt <= 1
    ensures SortedByPasses(s, t, k, less, u)
  {
    StableWithin(r, t, less, u);
    if t != [] { RunsOfRun(t, less); }
    RunIsSorted(t, less, u);
  }

  /** While the halvings leave more than one run, their number is below the logarithm. */
  lemma PassesBound(n: nat, r: nat, cnt: nat, k: nat)
    requires r <= Halved(n, k) && 1 < cnt == (r + 1) / 2
    ensures cnt < r && cnt <= Halved(n, k + 1) && Pow2(k + 1) < n
  {
    HalvedBound(n, k + 1, 1);
  }

  /** Any other pass leaves fewer runs, and the number of passes stays below the logarithm. */
  lemma OneMorePass<T>(s: seq<T>, r: seq<T>, t: seq<T>, cnt: nat, k: nat, less: (T, T) -> bool, u: set<T>)
    requires AfterPasses(s, r, k, less, u) && Passed(r, t, cnt, less, u) && cnt > 1
    ensures AfterPasses(s, t, k + 1, less, u) && Runs(t, less) < Runs(r, less)
  {
    StableWithin(r, t, less, u);
    PassesBound(Runs(s, less), Runs(r, less), cnt, k);
  }

  // ----- the stable sort is unique -----

  /** The head of a sorted sequence is the first of its class and nothing is below it. */
  lemma SortedHead<T>(s: seq<T>, t: seq<T>, less: (T, T) -> bool, u: set<T>)
    requires StrictWeakOrder(less, u) && Within(s, u) && s != [] && t != []
    requires Sorted(s, less) && Sorted(t, less) && StableRearrangement(s, t, less, u)
    ensures t[0] == s[0]
  {
    assert s[0] in multiset(s) && s[0] in multiset(t);
    assert t[0] in multiset(t) && t[0] in multiset(s);
    var i :| 0 <= i < |t| && t[i] == s[0];
    var j :| 0 <= j < |s| && s[j] == t[0];
    assert i > 0 ==> !less(t[i], t[0]);
    assert j > 0 ==> !less(s[j], s[0]);
    assert !less(s[0], s[0]) && !less(t[0], t[0]);
    assert Equivalent(less, t[0], s[0]);
    assert Class(s, s[0], less)[0] == s[0];
    assert Class(t, s[0], less)[0] == t[0];
  }

  lemma StableTail<T>(s: seq<T>, t: seq<T>, less: (T, T) -> bool, u: set<T>)
    requires s != [] && t != [] && s[0] == t[0] && StableRearrangement(s, t, less, u)
    ensures StableRearrangement(s[1..], t[1..], less, u)
  {
    assert s == [s[0]] + s[1..] && t == [t[0]] + t[1..];
    assert multiset(t[1..]) == multiset(t) - multiset{t[0]};
    assert multiset(s[1..]) == multiset(s) - multiset{s[0]};
    forall x | x in u ensures Class(t[1..], x, less) == Class(s[1..], x, less) {
      var a, b := Class(s[1..], x, less), Class(t[1..], x, less);
      assert Equivalent(less, s[0], x) ==> ([s[0]] + a)[1..] == a && ([t[0]] + b)[1..] == b;
    }
  }

  /** Sortedness and stability leave no freedom: the sorted stable rearrangement is unique. */
  lemma {:induction false} StableSortUnique<T>(s: seq<T>, t: seq<T>, less: (T, T) -> bool, u: set<T>)
    requires StrictWeakOrder(less, u) && Within(s, u)
    requires Sorted(s, less) && Sorted(t, less) && StableRearrangement(s, t, less, u)
    ensures s == t
  {
    StableWithin(s, t, less, u);
    if s != [] {
      SortedHead(s, t, less, u);
      StableTail(s, t, less, u);
      StableSortUnique(s[1..], t[1..], less, u);
      assert s == [s[0]] + s[1..] && t == [t[0]] + t[1..];
    }
  }

  // ----- ordered insertion -----

  /** Where ordered insertion puts `x`: before the first element that is greater. */
  ghost function InsertPos<T>(s: seq<T>, x: T, less: (T, T) -> bool): (p: nat)
    ensures p <= |s|
    ensures forall i :: 0 <= i < p ==> !less(x, s[i])
    ensures p < |s| ==> less(x, s[p])
  {
    if s == [] || less(x, s[0]) then 0
    else
      var p := InsertPos(s[1..], x, less);
      assert forall i :: 0 <= i < p ==> !less(x, s[1..][i]);
      p + 1
  }

  lemma {:induction false} InsertPosUnique<T>(s: seq<T>, x: T, p: nat, less: (T, T) -> bool)
    requires p <= |s| && (forall i :: 0 <= i < p ==> !less(x, s[i])) && (p < |s| ==> less(x, s[p]))
    ensures p == InsertPos(s, x, less)
  {
    if p > 0 { InsertPosUnique(s[1..], x, p - 1, less); }
  }

  ghost function InsertOrdered<T>(s: seq<T>, x: T, less: (T, T) -> bool): seq<T> {
    Inserted(s, InsertPos(s, x, less), [x])
  }

  lemma InsertOrderedSorts<T>(s: seq<T>, x: T, less: (T, T) -> bool, u: set<T>)
    requires StrictWeakOrder(less, u) && Within(s, u) && x in u && Sorted(s, less)
    ensures Sorted(InsertOrdered(s, x, less), less) && Within(InsertOrdered(s, x, less), u)
  {
    var p := InsertPos(s, x, less);
    var t := InsertOrdered(s, x, less);
    assert t == s[..p] + [x] + s[p..];
    forall i | p <= i < |s| ensures less(x, s[i]) {
      assert p < i ==> !less(s[i], s[p]);
    }
    forall i, j | 0 <= i < j < |t| ensures !less(t[j], t[i]) {
      var i', j' := if i < p then i else i - 1, if j < p then j else j - 1;
      if i != p && j != p { assert !less(s[j'], s[i']); }
    }
  }

  lemma ClassMoveToEnd<T>(a: seq<T>, x: T, b: seq<T>, y: T, less: (T, T) -> bool)
    requires Equivalent(less, x, y) ==> Class(b, y, less) == []
    ensures Class(a + [x] + b, y, less) == Class(a + b, y, less) + Class([x], y, less)
  {
    ClassOfConcat(a + [x], b, y, less);
    ClassOfConcat(a, [x], y, less);
    ClassOfConcat(a, b, y, less);
    if !Equivalent(less, x, y) { assert Class([x], y, less) == []; }
  }

  /** Ordered insertion is stable: the new element goes after its equals. */
  lemma InsertOrderedClass<T>(s: seq<T>, x: T, y: T, less: (T, T) -> bool, u: set<T>)
    requires StrictWeakOrder(less, u) && Within(s, u) && x in u && y in u && Sorted(s, less)
    ensures Class(InsertOrdered(s, x, less), y, less) == Class(s, y, less) + Class([x], y, less)
  {
    var p := InsertPos(s, x, less);
    var b := s[p..];
    if Equivalent(less, x, y) {
      forall i | 0 <= i < |b| ensures !Equivalent(less, b[i], y) {
        assert 0 < i ==> !less(s[p + i], s[p]);
        assert less(x, b[i]);
      }
      ClassEmpty(b, y, less);
    }
    ClassMoveToEnd(s[..p], x, b, y, less);
    assert s == s[..p] + b;
  }

  /** Inserting the elements one after another into an empty list. */
  ghost function InsertionSort<T>(s: seq<T>, less: (T, T) -> bool): seq<T> {
    if s == [] then [] else InsertOrdered(InsertionSort(s[..|s| - 1], less), s[|s| - 1], less)
  }

  lemma InsertedMultiset<T>(r: seq<T>, t: seq<T>, x: T, less: (T, T) -> bool)
    requires multiset(t) == multiset(r)
    ensures multiset(InsertOrdered(t, x, less)) == multiset(r + [x])
  {
    var p := InsertPos(t, x, less);
    assert t == t[..p] + t[p..];
  }

  lemma {:induction false} InsertionSortSorts<T>(s: seq<T>, less: (T, T) -> bool, u: set<T>)
    requires StrictWeakOrder(less, u) && Within(s, u)
    ensures Sorted(InsertionSort(s, less), less) && Within(InsertionSort(s, less), u)
    ensures multiset(InsertionSort(s, less)) == multiset(s)
  {
    if s != [] {
      var r, x := s[..|s| - 1], s[|s| - 1];
      var t := InsertionSort(r, less);
      InsertionSortSorts(r, less, u);
      assert s == r + [x];
      InsertOrderedSorts(t, x, less, u);
      InsertedMultiset(r, t, x, less);
    }
  }

  lemma {:induction false} InsertionSortIsStable<T>(s: seq<T>, y: T, less: (T, T) -> bool, u: set<T>)
    requires StrictWeakOrder(less, u) && Within(s, u) && y in u
    ensures Class(InsertionSort(s, less), y, less) == Class(s, y, less)
  {
    if s != [] {
      var r, x := s[..|s| - 1], s[|s| - 1];
      InsertionSortSorts(r, less, u);
      InsertionSortIsStable(r, y, less, u);
      InsertOrderedClass(InsertionSort(r, less), x, y, less, u);
      ClassOfConcat(r, [x], y, less);
      assert s == r + [x];
    }
  }

  /** Whatever sorts stably computes what repeated ordered insertion computes. */
  lemma StableSortIsInsertionSort<T>(s: seq<T>, t: seq<T>, less: (T, T) -> bool, u: set<T>)
    requires StrictWeakOrder(less, u) && Within(s, u)
    requires Sorted(t, less) && StableRearrangement(s, t, less, u)
    ensures t == InsertionSort(s, less)
  {
    var r := InsertionSort(s, less);
    InsertionSortSorts(s, less, u);
    forall x | x in u ensures Class(t, x, less) == Class(r, x, less) {
      InsertionSortIsStable(s, x, less, u);
    }
    StableSortUnique(r, t, less, u);
  }

  // ----- removing adjacent duplicates -----

  /** Keeps the first element of each group of adjacent equivalent elements. */
  ghost function Unique<T>(s: seq<T>, less: (T, T) -> bool): seq<T>
    decreases |s|
  {
    if |s| <= 1 then s
    else if Equivalent(less, s[0], s[1]) then Unique([s[0]] + s[2..], less)
    else [s[0]] + Unique(s[1..], less)
  }

  /** The elements that `Unique` drops, in order. */
  ghost function Duplicates<T>(s: seq<T>, less: (T, T) -> bool): seq<T>
    decreases |s|
  {
    if |s| <= 1 then []
    else if Equivalent(less, s[0], s[1]) then [s[1]] + Duplicates([s[0]] + s[2..], less)
    else Duplicates(s[1..], less)
  }

  /** `t` and `d` are reached while dropping duplicates from `s`: positions before `i` are final. */
  ghost predicate Dropping<T>(s: seq<T>, d0: seq<T>, t: seq<T>, d: seq<T>, i: nat, less: (T, T) -> bool)
    requires i <= |t|
  {
    && t[..i] + Unique(t[i..], less) == Unique(s, less)
    && d + Duplicates(t[i..], less) == d0 + Duplicates(s, less)
  }

  lemma DropNext<T>(s: seq<T>, d0: seq<T>, t: seq<T>, d: seq<T>, i: nat, less: (T, T) -> bool)
    requires i + 1 < |t| && Equivalent(less, t[i], t[i + 1]) && Dropping(s, d0, t, d, i, less)
    ensures Dropping(s, d0, Removed(t, i + 1, i + 2), d + [t[i + 1]], i, less)
  {
    var r := Removed(t, i + 1, i + 2);
    assert r[i..] == [t[i..][0]] + t[i..][2..];
    assert r[..i] == t[..i];
  }

  lemma KeepNext<T>(s: seq<T>, d0: seq<T>, t: seq<T>, d: seq<T>, i: nat, less: (T, T) -> bool)
    requires i + 1 < |t| && !Equivalent(less, t[i], t[i + 1]) && Dropping(s, d0, t, d, i, less)
    ensures Dropping(s, d0, t, d, i + 1, less)
  {
    assert t[i..][1..] == t[i + 1..];
    assert t[..i + 1] == t[..i] + [t[i]];
  }

  lemma DroppingDone<T>(s: seq<T>, d0: seq<T>, t: seq<T>, d: seq<T>, i: nat, less: (T, T) -> bool)
    requires i + 1 == |t| && Dropping(s, d0, t, d, i, less)
    ensures t == Unique(s, less) && d == d0 + Duplicates(s, less)
  {
    assert t == t[..i] + t[i..];
  }

  lemma MultisetCons<T>(x: T, s: seq<T>)
    ensures multiset([x] + s) == multiset{x} + multiset(s)
  {
  }

  lemma AddInside<T>(a: multiset<T>, b: multiset<T>, c: multiset<T>, d: multiset<T>, e: multiset<T>)
    requires a + b == c + d
    ensures a + (e + b) == c + (e + d)
  {
    assert a + (e + b) == e + (a + b);
  }

  lemma PartitionDrop<T>(s: seq<T>, r: seq<T>, kept: seq<T>, dropped: seq<T>)
    requires |s| > 1 && r == [s[0]] + s[2..] && multiset(kept) + multiset(dropped) == multiset(r)
    ensures multiset(kept) + multiset([s[1]] + dropped) == multiset(s)
  {
    assert s == [s[0]] + ([s[1]] + s[2..]);
    MultisetCons(s[0], [s[1]] + s[2..]);
    MultisetCons(s[1], s[2..]);
    MultisetCons(s[0], s[2..]);
    MultisetCons(s[1], dropped);
    AddInside(multiset(kept), multiset(dropped), multiset{s[0]}, multiset(s[2..]), multiset{s[1]});
  }

  lemma PartitionKeep<T>(s: seq<T>, kept: seq<T>, dropped: seq<T>)
    requires s != [] && multiset(kept) + multiset(dropped) == multiset(s[1..])
    ensures multiset([s[0]] + kept) + multiset(dropped) == multiset(s)
  {
    assert s == [s[0]] + s[1..];
    MultisetCons(s[0], s[1..]);
    MultisetCons(s[0], kept);
  }

  /** Nothing is lost: what stays and what is dropped together are the original list. */
  lemma {:induction false} UniquePartitions<T>(s: seq<T>, less: (T, T) -> bool)
    ensures multiset(Unique(s, less)) + multiset(Duplicates(s, less)) == multiset(s)
    decreases |s|
  {
    if |s| > 1 {
      if Equivalent(less, s[0], s[1]) {
        var r := [s[0]] + s[2..];
        UniquePartitions(r, less);
        PartitionDrop(s, r, Unique(r, less), Duplicates(r, less));
      } else {
        UniquePartitions(s[1..], less);
        PartitionKeep(s, Unique(s[1..], less), Duplicates(s[1..], less));
      }
    }
  }

  lemma {:induction false} UniqueHead<T>(s: seq<T>, less: (T, T) -> bool)
    requires s != []
    ensures Unique(s, less) != [] && Unique(s, less)[0] == s[0]
    decreases |s|
  {
    if |s| > 1 && Equivalent(less, s[0], s[1]) { UniqueHead([s[0]] + s[2..], less); }
  }

  /** No two neighbours that remain are equivalent. */
  lemma {:induction false} UniqueNeighbours<T>(s: seq<T>, less: (T, T) -> bool, i: nat)
    requires i + 1 < |Unique(s, less)|
    ensures !Equivalent(less, Unique(s, less)[i], Unique(s, less)[i + 1])
    decreases |s|
  {
    if |s| > 1 {
      if Equivalent(less, s[0], s[1]) {
        UniqueNeighbours([s[0]] + s[2..], less, i);
      } else if i == 0 {
        UniqueHead(s[1..], less);
      } else {
        UniqueNeighbours(s[1..], less, i - 1);
      }
    }
  }

  lemma UniqueKeepsFirstStep<T>(s: seq<T>, x: T, less: (T, T) -> bool)
    requires |s| > 1
    ensures Class(s, x, less) == Class([s[0]], x, less) + Class([s[1]], x, less) + Class(s[2..], x, less)
    ensures Class([s[0]] + s[2..], x, less) == Class([s[0]], x, less) + Class(s[2..], x, less)
  {
    ClassOfConcat([s[0]], s[2..], x, less);
    ClassOfConcat([s[0], s[1]], s[2..], x, less);
    ClassOfConcat([s[0]], [s[1]], x, less);
    assert s == [s[0], s[1]] + s[2..];
    assert [s[0], s[1]] == [s[0]] + [s[1]];
  }

  /** On a sorted list exactly the first element of every class stays, and the rest of the class
      becomes duplicates in their original order. */
  lemma {:induction false} UniqueKeepsFirst<T>(s: seq<T>, x: T, less: (T, T) -> bool, u: set<T>)
    requires StrictWeakOrder(less, u) && Within(s, u) && x in u && Sorted(s, less)
    ensures Class(s, x, less) == Class(Unique(s, less), x, less) + Class(Duplicates(s, less), x, less)
    ensures |Class(Unique(s, less), x, less)| == if Class(s, x, less) == [] then 0 else 1
    decreases |s|
  {
    if |s| > 1 {
      if Equivalent(less, s[0], s[1]) {
        var r := [s[0]] + s[2..];
        forall i, j | 0 <= i < j < |r| ensures !less(r[j], r[i]) {
          assert r[j] == s[j + 1];
          assert i > 0 ==> r[i] == s[i + 1];
        }
        UniqueKeepsFirst(r, x, less, u);
        UniqueKeepsFirstStep(s, x, less);
        ClassOfConcat([s[1]], Duplicates(r, less), x, less);
        var d := Class(Duplicates(r, less), x, less);
        if Equivalent(less, s[0], x) {
          assert Class(r, x, less) == [s[0]] + Class(s[2..], x, less);
          var k := Class(Unique(r, less), x, less);
          assert |k| == 1 && k[0] == (k + d)[0] == s[0] && (k + d)[1..] == d;
        } else {
          assert Class([s[1]], x, less) == [];
        }
      } else {
        UniqueKeepsFirst(s[1..], x, less, u);
        ClassOfConcat([s[0]], Unique(s[1..], less), x, less);
        if Equivalent(less, s[0], x) {
          forall i | 0 <= i < |s[1..]| ensures !Equivalent(less, s[1..][i], x) {
            assert !less(s[1], s[0]);
            assert i > 0 ==> !less(s[i + 1], s[1]);
            assert less(s[0], s[i + 1]);
          }
          ClassEmpty(s[1..], x, less);
        }
      }
    }
  }
}
