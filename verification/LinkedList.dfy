/** The intrusive doubly linked list of the kernel library: nodes on the heap whose `prev` and
    `next` fields are rewritten in place, between two header elements. The ghost field `elems`
    is the sequence of interior nodes, and `Valid` ties it to the pointers. */
module LinkedList {

  import opened ListOrder
  import opened PowerOfTwo
  import opened Sequences

  class Elem {
    var prev: Elem?
    var next: Elem?

    constructor ()
      ensures prev == null && next == null
    {
      prev, next := null, null;
    }
  }

  /** Consecutive nodes of `c` point at each other. */
  ghost predicate Linked(c: seq<Elem>)
    reads c
  {
    && (forall i {:trigger c[i].next} :: 0 <= i < |c| - 1 ==> c[i].next == c[i + 1])
    && (forall i {:trigger c[i].prev} :: 0 < i < |c| ==> c[i].prev == c[i - 1])
  }

  lemma LinkedConcat(a: seq<Elem>, b: seq<Elem>)
    requires a != [] && b != [] && Linked(a) && Linked(b)
    requires a[|a| - 1].next == b[0] && b[0].prev == a[|a| - 1]
    ensures Linked(a + b)
  {
  }

  lemma LinkedSplit(a: seq<Elem>, b: seq<Elem>)
    requires a != [] && b != [] && Linked(a + b)
    ensures Linked(a) && Linked(b)
    ensures a[|a| - 1].next == b[0] && b[0].prev == a[|a| - 1]
  {
    var c := a + b;
    assert forall i :: 0 <= i < |b| ==> b[i] == c[|a| + i];
    assert forall i :: 0 <= i < |a| ==> a[i] == c[i];
    assert c[|a| - 1].next == c[|a|] && c[|a|].prev == c[|a| - 1];
  }

  ghost predicate Disjoint(a: seq<Elem>, b: seq<Elem>) {
    forall i, j :: 0 <= i < |a| && 0 <= j < |b| ==> a[i] != b[j]
  }

  lemma DistinctSplit(a: seq<Elem>, x: seq<Elem>, b: seq<Elem>)
    requires Distinct(a + x + b)
    ensures Distinct(a) && Distinct(x) && Distinct(b) && Disjoint(a, x) && Disjoint(a, b) && Disjoint(x, b)
  {
    var d := a + x + b;
    assert forall i :: 0 <= i < |a| ==> d[i] == a[i];
    assert forall i :: 0 <= i < |x| ==> d[|a| + i] == x[i];
    assert forall i :: 0 <= i < |b| ==> d[|a| + |x| + i] == b[i];
  }

  /** The four assignments that end list_insert and list_splice: the chain `x`, FIRST through LAST,
      goes between the chains `a` and `b`, before BEFORE. */
  method LinkBetween(before: Elem, first: Elem, last: Elem, ghost a: seq<Elem>, ghost x: seq<Elem>, ghost b: seq<Elem>)
    requires a != [] && x != [] && b != [] && before == b[0] && first == x[0] && last == x[|x| - 1]
    requires Linked(a + b) && Linked(x)
    requires Distinct(a) && Distinct(x) && Distinct(b) && Disjoint(a, x) && Disjoint(a, b) && Disjoint(x, b)
    modifies first, last, before, before.prev
    ensures Linked(a + x + b)
    ensures a[0].prev == old(a[0].prev) && b[|b| - 1].next == old(b[|b| - 1].next)
  {
    LinkedSplit(a, b);
    first.prev := before.prev;
    last.next := before;
    before.prev.next := first;
    before.prev := last;
    assert Linked(a) && Linked(x) && Linked(b);
    LinkedConcat(a, x);
    LinkedConcat(a + x, b);
  }

  /** The two assignments of list_remove and of the first half of list_splice: the chain `x`, FIRST
      through LAST, leaves the chain `a + x + b`. */
  method Unlink(first: Elem, last: Elem, ghost a: seq<Elem>, ghost x: seq<Elem>, ghost b: seq<Elem>)
    requires a != [] && x != [] && b != [] && first == x[0] && last == x[|x| - 1]
    requires Linked(a + x + b)
    requires Distinct(a) && Distinct(x) && Distinct(b) && Disjoint(a, x) && Disjoint(a, b) && Disjoint(x, b)
    modifies first.prev, last.next
    ensures Linked(a + b) && Linked(x)
    ensures a[0].prev == old(a[0].prev) && b[|b| - 1].next == old(b[|b| - 1].next)
    ensures first.prev == old(first.prev) && last.next == old(last.next)
  {
    LinkedSplit(a + x, b);
    LinkedSplit(a, x);
    first.prev.next := last.next;
    last.next.prev := first.prev;
    assert Linked(a) && Linked(x) && Linked(b);
    LinkedConcat(a, b);
  }

  ghost function Reversed<T>(s: seq<T>): seq<T> {
    if s == [] then [] else Reversed(s[1..]) + [s[0]]
  }

  lemma {:induction false} ReversedAt<T>(s: seq<T>)
    ensures |Reversed(s)| == |s|
    ensures forall i :: 0 <= i < |s| ==> Reversed(s)[i] == s[|s| - 1 - i]
  {
    if s != [] { ReversedAt(s[1..]); }
  }

  /** Reversing twice gives the list back. */
  lemma ReversedTwice<T>(s: seq<T>)
    ensures Reversed(Reversed(s)) == s
  {
    ReversedAt(s);
    ReversedAt(Reversed(s));
  }

  /** `d` lists the interior nodes of `c` backwards, and the links run that way. */
  lemma MirrorLinked(c: seq<Elem>, d: seq<Elem>)
    requires |c| > 2 && |d| == |c| && d[0] == c[0] && d[|d| - 1] == c[|c| - 1]
    requires forall p :: 0 < p < |c| - 1 ==> d[p] == c[|c| - 1 - p]
    requires c[0].next == c[|c| - 2] && c[|c| - 1].prev == c[1] && c[1].next == c[|c| - 1] && c[|c| - 2].prev == c[0]
    requires forall p {:trigger c[p].next} :: 1 < p < |c| - 1 ==> c[p].next == c[p - 1]
    requires forall p {:trigger c[p].prev} :: 0 < p < |c| - 2 ==> c[p].prev == c[p + 1]
    ensures Linked(d)
  {
  }

  class List {
    const head: Elem
    const tail: Elem

    ghost var elems: seq<Elem>
    ghost var nodes: set<Elem>  // the nodes whose links this list may change

    ghost function Chain(): seq<Elem>
      reads this
    {
      [head] + elems + [tail]
    }

    /** The node at position `k`; position `|elems|` is the tail. */
    ghost function At(k: nat): Elem
      requires k <= |elems|
      reads this
    {
      if k < |elems| then elems[k] else tail
    }

    ghost predicate Valid()
      reads this, nodes
    {
      && head in nodes && tail in nodes && (forall i :: 0 <= i < |elems| ==> elems[i] in nodes)
      && Linked(Chain()) && head.prev == null && tail.next == null
    }

    lemma {:induction false} NoRepetition(i: nat, j: nat)
      requires Valid() && i < j < |Chain()|
      ensures Chain()[i] != Chain()[j]
      decreases i
    {
      assert Chain()[0] == head && Chain()[j].prev == Chain()[j - 1];
      if i > 0 {
        assert Chain()[i].prev == Chain()[i - 1];
        NoRepetition(i - 1, j - 1);
      }
    }

    /** The links alone force the nodes to be different: a repetition would lead back to the head. */
    lemma ValidDistinct()
      requires Valid()
      ensures Distinct(Chain())
    {
      forall i, j | 0 <= i < j < |Chain()| ensures Chain()[i] != Chain()[j] {
        NoRepetition(i, j);
      }
    }

    lemma AtLinks(k: nat)
      requires Valid() && k <= |elems|
      ensures At(k).prev == (if k == 0 then head else elems[k - 1]) && At(k).prev.next == At(k)
      ensures k < |elems| ==> elems[k] != tail && elems[k].next == At(k + 1) && At(k + 1).prev == elems[k]
      ensures At(k) in nodes && At(k).prev in nodes
    {
      var c := Chain();
      assert c[k + 1] == At(k) && c[k] == if k == 0 then head else elems[k - 1];
      if k < |elems| { assert c[k + 2] == At(k + 1); }
    }

    lemma AtInjective(k: nat, l: nat)
      requires Valid() && k <= |elems| && l <= |elems| && At(k) == At(l)
      ensures k == l
    {
      ValidDistinct();
      assert Chain()[k + 1] == At(k) && Chain()[l + 1] == At(l);
    }

    /** The chain cut at the positions `i` and `j`. */
    lemma Cut(i: nat, j: nat) returns (a: seq<Elem>, x: seq<Elem>, b: seq<Elem>)
      requires Valid() && i <= j <= |elems|
      ensures a == [head] + elems[..i] && x == elems[i..j] && b == elems[j..] + [tail]
      ensures Linked(a + x + b) && Distinct(a) && Distinct(x) && Distinct(b)
      ensures Disjoint(a, x) && Disjoint(a, b) && Disjoint(x, b)
      ensures b[0] == At(j) && (j > 0 ==> elems[j - 1].next == At(j))
    {
      a, x, b := [head] + elems[..i], elems[i..j], elems[j..] + [tail];
      assert Chain() == a + x + b;
      ValidDistinct();
      DistinctSplit(a, x, b);
      AtLinks(j);
    }

    /** list_init. */
    constructor ()
      ensures Valid() && elems == [] && fresh(nodes)
    {
      head := new Elem();
      tail := new Elem();
      elems := [];
      nodes := {head, tail};
      new;
      head.next := tail;
      tail.prev := head;
    }

    // ----- insertion and removal -----

    /** Inserts the detached nodes `x`, FIRST through LAST, before BEFORE, the node at position `k`. */
    method LinkIn(before: Elem, first: Elem, last: Elem, ghost x: seq<Elem>, ghost k: nat)
      requires Valid() && k <= |elems| && before == At(k)
      requires x != [] && first == x[0] && last == x[|x| - 1] && Distinct(x) && Linked(x)
      requires forall i :: 0 <= i < |x| ==> x[i] !in nodes
      modifies this, first, last, nodes
      ensures Valid() && elems == Inserted(old(elems), k, x)
      ensures nodes == old(nodes) + set e | e in x
    {
      ghost var a, y, b := Cut(k, k);
      assert a + y + b == a + b;
      AtLinks(k);
      assert forall i :: 0 <= i < |a| ==> a[i] in nodes;
      assert forall i :: 0 <= i < |b| ==> b[i] in nodes;
      LinkBetween(before, first, last, a, x, b);
      elems := Inserted(elems, k, x);
      nodes := nodes + set e | e in x;
      assert Chain() == a + x + b;
    }

    /** Takes out FIRST through LAST, positions `i` to `j`. */
    static method TakeOut(first: Elem, last: Elem, ghost src: List, ghost i: nat, ghost j: nat)
      requires src.Valid() && i < j <= |src.elems| && first == src.elems[i] && last == src.elems[j - 1]
      modifies src, src.nodes
      ensures src.Valid() && src.elems == Removed(old(src.elems), i, j)
      ensures src.nodes == old(src.nodes) - (set e | e in old(src.elems)[i..j])
      ensures Distinct(old(src.elems)[i..j]) && Linked(old(src.elems)[i..j])
      ensures first.prev == old(first.prev) && last.next == old(last.next)
    {
      ghost var a, x, b := src.Cut(i, j);
      src.AtLinks(i);
      src.AtLinks(j);
      Unlink(first, last, a, x, b);
      src.elems := Removed(src.elems, i, j);
      src.nodes := src.nodes - (set e | e in x);
      assert src.Chain() == a + b;
      assert src.head == a[0] && src.tail == b[|b| - 1];
      assert forall k :: 0 <= k < i ==> src.elems[k] == a[k + 1];
      assert forall k :: i <= k < |src.elems| ==> src.elems[k] == b[k - i];
    }

    /** list_insert: ELEM goes just before BEFORE, the node at position `k`. */
    method Insert(before: Elem, elem: Elem, ghost k: nat)
      requires Valid() && k <= |elems| && before == At(k) && elem !in nodes
      modifies this, elem, nodes
      ensures Valid() && nodes == old(nodes) + {elem}
      ensures elems == Inserted(old(elems), k, [elem])
    {
      LinkIn(before, elem, elem, [elem], k);
    }

    method PushFront(elem: Elem)
      requires Valid() && elem !in nodes
      modifies this, elem, nodes
      ensures Valid() && nodes == old(nodes) + {elem} && elems == [elem] + old(elems)
    {
      AtLinks(0);
      Insert(head.next, elem, 0);
    }

    method PushBack(elem: Elem)
      requires Valid() && elem !in nodes
      modifies this, elem, nodes
      ensures Valid() && nodes == old(nodes) + {elem} && elems == old(elems) + [elem]
    {
      Insert(tail, elem, |elems|);
    }

    /** list_remove: unlinks the node at position `k` and returns its successor. */
    method Remove(elem: Elem, ghost k: nat) returns (succ: Elem)
      requires Valid() && k < |elems| && elem == elems[k]
      modifies this, nodes
      ensures Valid() && nodes == old(nodes) - {elem}
      ensures elems == Removed(old(elems), k, k + 1) && succ == At(k)
      ensures elem.prev == old(elem.prev) && elem.next == old(elem.next)
    {
      AtLinks(k);
      assert elems[k..k + 1] == [elem];
      TakeOut(elem, elem, this, k, k + 1);
      succ := elem.next;
    }

    method PopFront() returns (front: Elem)
      requires Valid() && elems != []
      modifies this, nodes
      ensures Valid() && front == old(elems)[0] && elems == old(elems)[1..] && nodes == old(nodes) - {front}
    {
      AtLinks(0);
      front := head.next;
      var _ := Remove(front, 0);
    }

    method PopBack() returns (back: Elem)
      requires Valid() && elems != []
      modifies this, nodes
      ensures Valid() && back == old(elems)[|old(elems)| - 1] && elems == old(elems)[..|old(elems)| - 1]
      ensures nodes == old(nodes) - {back}
    {
      AtLinks(|elems|);
      back := tail.prev;
      var _ := Remove(back, |elems| - 1);
    }

    /** list_splice inside one list: removes FIRST up to END (exclusive), positions `i` to `j`, and
        inserts them before BEFORE, which has position `k` in what is then left of the list. */
    method Splice(before: Elem, first: Elem, end: Elem, ghost i: nat, ghost j: nat, ghost k: nat)
      requires Valid() && i <= j <= |elems| && first == At(i) && end == At(j)
      requires k <= |elems| - (j - i) && before == At(if k < i then k else k + j - i)
      modifies this, nodes
      ensures Valid() && nodes == old(nodes)
      ensures elems == Inserted(Removed(old(elems), i, j), k, old(elems)[i..j])
    {
      ghost var s, x := elems, elems[i..j];
      if first == end {
        AtInjective(i, j);
        assert Removed(s, i, j) == s && Inserted(s, k, x) == s;
        return;
      }
      AtLinks(j);
      var last := end.prev;
      TakeOut(first, last, this, i, j);
      LinkIn(before, first, last, x, k);
    }

    /** list_splice between two lists. */
    method SpliceFrom(before: Elem, first: Elem, end: Elem, ghost src: List, ghost i: nat, ghost j: nat, ghost k: nat)
      requires Valid() && src.Valid() && src != this && nodes !! src.nodes
      requires i <= j <= |src.elems| && first == src.At(i) && end == src.At(j)
      requires k <= |elems| && before == At(k)
      modifies this, src, nodes, src.nodes
      ensures Valid() && src.Valid() && nodes !! src.nodes
      ensures elems == Inserted(old(elems), k, old(src.elems)[i..j])
      ensures src.elems == Removed(old(src.elems), i, j)
    {
      ghost var x := src.elems[i..j];
      if first == end {
        src.AtInjective(i, j);
        assert Inserted(elems, k, x) == elems && Removed(src.elems, i, j) == src.elems;
        return;
      }
      src.AtLinks(j);
      var last := end.prev;
      TakeOut(first, last, src, i, j);
      LinkIn(before, first, last, x, k);
    }

    // ----- traversal -----

    /** list_size. */
    method Size() returns (cnt: nat)
      requires Valid()
      ensures cnt == |elems|
    {
      cnt := 0;
      AtLinks(0);
      var e := head.next;
      while e != tail
        invariant cnt <= |elems| && e == At(cnt)
        decreases |elems| - cnt
      {
        AtLinks(cnt);
        e := e.next;
        cnt := cnt + 1;
      }
      AtInjective(cnt, |elems|);
    }

    /** The loop of list_reverse: swaps the two links of every node from FIRST to END (exclusive). */
    static method FlipLinks(first: Elem, end: Elem, ghost c: seq<Elem>)
      requires |c| > 2 && Distinct(c) && Linked(c) && first == c[1] && end == c[|c| - 1]
      modifies c[1..|c| - 1]
      ensures forall p {:trigger c[p].prev} {:trigger c[p].next} ::
        0 < p < |c| - 1 ==> c[p].prev == c[p + 1] && c[p].next == c[p - 1]
    {
      var e := first;
      ghost var i := 1;
      while e != end
        invariant 1 <= i < |c| && e == c[i]
        invariant forall p {:trigger c[p].prev} {:trigger c[p].next} ::
          0 < p < i ==> c[p].prev == c[p + 1] && c[p].next == c[p - 1]
        invariant forall p {:trigger c[p].prev} {:trigger c[p].next} ::
          i <= p < |c| - 1 ==> c[p].next == c[p + 1] && c[p].prev == c[p - 1]
        decreases |c| - i
      {
        assert e in c[1..|c| - 1];
        e.prev, e.next := e.next, e.prev;
        e := e.prev;
        i := i + 1;
      }
    }

    /** list_reverse. */
    method Reverse()
      requires Valid()
      modifies this, nodes
      ensures Valid() && elems == Reversed(old(elems)) && nodes == old(nodes)
    {
      ValidDistinct();
      ghost var c := Chain();
      assert c[0] == head && c[|c| - 1] == tail && c[1] == head.next;
      ReversedAt(elems);
      if head.next != tail {
        assert c[1..|c| - 1] == elems;
        FlipLinks(head.next, tail, c);
        head.next, tail.prev := tail.prev, head.next;
        head.next.prev, tail.prev.next := tail.prev.next, head.next.prev;
        elems := Reversed(elems);
        ghost var d := Chain();
        assert forall p :: 0 < p < |c| - 1 ==> d[p] == c[|c| - 1 - p];
        MirrorLinked(c, d);
      }
    }

    // ----- sorting -----

    /** is_sorted: whether positions `i` to `j`, the nodes A up to B (exclusive), form one run. */
    method IsSorted(a: Elem, b: Elem, less: (Elem, Elem) -> bool, ghost i: nat, ghost j: nat) returns (r: bool)
      requires Valid() && i <= j <= |elems| && a == At(i) && b == At(j)
      ensures r <==> IsRun(elems[i..j], less)
    {
      if a != b {
        AtLinks(i);
        var e: Elem := a.next;
        ghost var p := i + 1;
        while e != b
          invariant i < p <= j && e == At(p) && e.prev == elems[p - 1]
          invariant IsRun(elems[i..p], less)
          decreases j - p
        {
          AtLinks(p);
          RunNext(elems, i, p, j, less);
          if less(e, e.prev) { return false; }
          e := e.next;
          p := p + 1;
        }
        AtInjective(p, j);
      } else {
        AtInjective(i, j);
      }
      return true;
    }

    /** find_end_of_run. */
    method FindEndOfRun(a: Elem, b: Elem, less: (Elem, Elem) -> bool, ghost i: nat, ghost m: nat)
      returns (e: Elem, ghost j: nat)
      requires Valid() && i < m <= |elems| && a == elems[i] && b == At(m)
      ensures IsRunEndBefore(elems, i, j, m, less) && e == At(j)
    {
      AtLinks(i);
      e := a.next;
      j := i + 1;
      while e != b && !less(e, e.prev)
        invariant i < j <= m && e == At(j) && e.prev == elems[j - 1]
        invariant IsRun(elems[i..j], less)
        decreases m - j
      {
        AtLinks(j);
        RunNext(elems, i, j, m, less);
        e := e.next;
        j := j + 1;
      }
      if e == b { AtInjective(j, m); }
    }

    /** One step of inplace_merge: Q, at position `y`, moves before P, at position `x`. */
    method MoveBefore(p: Elem, q: Elem, ghost x: nat, ghost y: nat) returns (r: Elem)
      requires Valid() && x < y < |elems| && p == elems[x] && q == elems[y]
      modifies this, nodes
      ensures Valid() && nodes == old(nodes) && elems == Moved(old(elems), x, y)
      ensures p == At(x + 1) && r == At(y + 1) && forall k :: y < k <= |elems| ==> At(k) == old(At(k))
    {
      AtLinks(y);
      r := q.next;
      ghost var s := elems;
      Splice(p, r.prev, r, y, y + 1, x);
      assert elems == Moved(s, x, y);
    }

    /** A turn of the loop of inplace_merge: either P moves past its element or Q's element moves
        before it. */
    method MergeStep(p0: Elem, q0: Elem, less: (Elem, Elem) -> bool, ghost x: nat, ghost y0: nat, ghost m: nat)
      returns (p: Elem, q: Elem, ghost y: nat)
      requires Valid() && x < y0 < m <= |elems| && p0 == elems[x] && q0 == elems[y0]
      modifies this, nodes
      ensures Valid() && nodes == old(nodes) && MergeTurn(old(elems), elems, x, y0, y, less)
      ensures |elems| == old(|elems|) && p == At(x + 1) && q == At(y) && At(m) == old(At(m))
    {
      if !less(q0, p0) {
        AtLinks(x);
        p, q, y := p0.next, q0, y0;
      } else {
        p, y := p0, y0 + 1;
        q := MoveBefore(p0, q0, x, y0);
      }
    }

    /** inplace_merge: merges the runs at positions `i` to `j` and `j` to `m` into one. */
    method InplaceMerge(a0: Elem, a1b0: Elem, b1: Elem, less: (Elem, Elem) -> bool,
                        ghost i: nat, ghost j: nat, ghost m: nat, ghost u: set<Elem>)
      requires Valid() && StrictWeakOrder(less, u) && Within(elems, u) && i < j < m <= |elems|
      requires a0 == At(i) && a1b0 == At(j) && b1 == At(m)
      requires IsRun(elems[i..j], less) && IsRun(elems[j..m], less)
      modifies this, nodes
      ensures Valid() && nodes == old(nodes) && MergedRuns(old(elems), elems, i, m, less, u) && b1 == At(m)
    {
      var p, q := a0, a1b0;
      ghost var s, x, y := elems, i, j;
      MergeStart(s, i, j, m, less, u);
      while p != q && q != b1
        invariant Valid() && nodes == old(nodes) && Merging(s, elems, i, x, y, m, less, u)
        invariant p == At(x) && q == At(y) && b1 == At(m)
        decreases m - x
      {
        ghost var t, y0 := elems, y;
        p, q, y := MergeStep(p, q, less, x, y, m);
        MergingStep(s, t, elems, i, x, y0, y, m, less, u);
        x := x + 1;
      }
      if p == q { AtInjective(x, y); } else { AtInjective(y, m); }
      MergingDone(s, elems, i, x, y, m, less, u);
    }

    /** One step of a pass of list_sort: merges the run at A0, position `i`, with the run after it
        and returns where that one ended; `last` if there is no second run. */
    method MergePair(a0: Elem, less: (Elem, Elem) -> bool, ghost i: nat, ghost u: set<Elem>)
      returns (last: bool, b1: Elem, ghost j: nat, ghost m: nat)
      requires Valid() && StrictWeakOrder(less, u) && Within(elems, u) && i < |elems| && a0 == elems[i]
      modifies this, nodes
      ensures Valid() && nodes == old(nodes)
      ensures IsRunEnd(old(elems), i, j, less) && (last <==> j == |old(elems)|)
      ensures last ==> elems == old(elems)
      ensures !last ==> IsRunEnd(old(elems), j, m, less) && MergedRuns(old(elems), elems, i, m, less, u) && b1 == At(m)
    {
      var a1b0;
      a1b0, j := FindEndOfRun(a0, tail, less, i, |elems|);
      b1, m := tail, |elems|;
      last := a1b0 == tail;
      if last {
        AtInjective(j, |elems|);
      } else {
        b1, m := FindEndOfRun(a1b0, tail, less, j, |elems|);
        InplaceMerge(a0, a1b0, b1, less, i, j, m, u);
      }
    }

    /** One pass of list_sort: it counts half of the natural runs, rounded up, and leaves at most
        as many runs as it counted. */
    method SortPass(less: (Elem, Elem) -> bool, ghost u: set<Elem>) returns (cnt: nat)
      requires Valid() && StrictWeakOrder(less, u) && Within(elems, u)
      modifies this, nodes
      ensures Valid() && Passed(old(elems), elems, cnt, less, u)
      ensures nodes == old(nodes)
    {
      cnt := 0;
      AtLinks(0);
      var a0: Elem := head.next;
      ghost var s := elems;
      ghost var i: nat := 0;
      PassStart(elems, less, u);
      while a0 != tail
        invariant Valid() && i <= |elems| && a0 == At(i)
        invariant Passing(s, elems, i, cnt, less, u)
        invariant nodes == old(nodes)
        decreases Runs(s, less) - 2 * cnt
      {
        cnt := cnt + 1;
        ghost var t := elems;
        StableWithin(s, t, less, u);
        var last, b1, j, m := MergePair(a0, less, i, u);
        if last {
          LastRun(s, t, i, cnt - 1, less, u);
          return;
        }
        NextPair(s, t, elems, i, j, m, cnt - 1, less, u);
        a0, i := b1, m;
      }
      AtInjective(i, |elems|);
      NoRunLeft(s, elems, cnt, less, u);
    }

    /** A pass of list_sort over a list that `more` passes have left; `again` if it counted more than
        one run. */
    method NextPass(less: (Elem, Elem) -> bool, ghost s: seq<Elem>, ghost more: nat, ghost u: set<Elem>)
      returns (again: bool)
      requires Valid() && StrictWeakOrder(less, u) && AfterPasses(s, elems, more, less, u)
      modifies this, nodes
      ensures Valid() && nodes == old(nodes)
      ensures !again ==> SortedByPasses(s, elems, more, less, u)
      ensures again ==> AfterPasses(s, elems, more + 1, less, u) && Runs(elems, less) < old(Runs(elems, less))
    {
      ghost var r := elems;
      var cnt := SortPass(less, u);
      again := cnt > 1;
      if again {
        OneMorePass(s, r, elems, cnt, more, less, u);
      } else {
        LastPass(s, r, elems, cnt, more, less, u);
      }
    }

    /** The passes of list_sort. After the first one there are `more` passes, fewer than the binary
        logarithm of the number of natural runs. */
    method SortPasses(less: (Elem, Elem) -> bool, ghost u: set<Elem>) returns (ghost more: nat)
      requires Valid() && StrictWeakOrder(less, u) && Within(elems, u)
      modifies this, nodes
      ensures Valid() && nodes == old(nodes) && SortedByPasses(old(elems), elems, more, less, u)
    {
      ghost var s := elems;
      more := 0;
      var again := NextPass(less, s, more, u);
      while again
        invariant Valid() && nodes == old(nodes)
        invariant again ==> AfterPasses(s, elems, more + 1, less, u)
        invariant !again ==> SortedByPasses(s, elems, more, less, u)
        decreases again, Runs(elems, less)
      {
        more := more + 1;
        again := NextPass(less, s, more, u);
      }
    }

    /** list_sort: the list ends up sorted, with equal elements in their original order, and is
        what repeated ordered insertion would have built. */
    method Sort(less: (Elem, Elem) -> bool) returns (ghost more: nat)
      requires Valid() && StrictWeakOrder(less, set x | x in elems)
      modifies this, nodes
      ensures Valid() && nodes == old(nodes) && Sorted(elems, less)
      ensures StableRearrangement(old(elems), elems, less, set x | x in old(elems))
      ensures elems == InsertionSort(old(elems), less)
      ensures more == 0 || Pow2(more) < Runs(old(elems), less)
    {
      ghost var s, u := elems, set x | x in elems;
      more := SortPasses(less, u);
      StableSortIsInsertionSort(s, elems, less, u);
    }

    // ----- ordered lists -----

    /** list_insert_ordered. */
    method InsertInOrder(elem: Elem, less: (Elem, Elem) -> bool)
      requires Valid() && elem !in nodes
      modifies this, elem, nodes
      ensures Valid() && nodes == old(nodes) + {elem} && elems == InsertOrdered(old(elems), elem, less)
    {
      AtLinks(0);
      var e: Elem := head.next;
      ghost var i := 0;
      while e != tail && !less(elem, e)
        invariant i <= |elems| && e == At(i)
        invariant forall p :: 0 <= p < i ==> !less(elem, elems[p])
        decreases |elems| - i
        modifies {}
      {
        AtLinks(i);
        e := e.next;
        i := i + 1;
      }
      if e == tail { AtInjective(i, |elems|); }
      assert i == InsertPos(elems, elem, less) by { InsertPosUnique(elems, elem, i, less); }
      Insert(e, elem, i);
    }

    /** A list other than this one, with nodes of its own. */
    ghost predicate Apart(other: List)
      reads this, other, other.nodes
    {
      other.Valid() && other != this && nodes !! other.nodes
    }

    /** The step of list_unique for an element that equals its predecessor. */
    method DropElem(e: Elem, dst: List?, ghost k: nat)
      requires Valid() && k < |elems| && e == elems[k]
      requires dst != null ==> Apart(dst)
      modifies this, nodes, dst, if dst == null then {} else dst.nodes
      ensures Valid() && elems == Removed(old(elems), k, k + 1) && nodes <= old(nodes)
      ensures dst != null ==> Apart(dst) && dst.elems == old(dst.elems) + [e]
      ensures dst != null ==> nodes + dst.nodes == old(nodes + dst.nodes)
    {
      AtLinks(k);
      var _ := Remove(e, k);
      if dst != null { dst.PushBack(e); }
    }

    /** list_unique: every element that equals its predecessor leaves the list, for DUPLICATES if that
        is not null. */
    method RemoveDuplicates(duplicates: List?, less: (Elem, Elem) -> bool)
      requires Valid()
      requires duplicates != null ==> Apart(duplicates)
      modifies this, nodes, duplicates, if duplicates == null then {} else duplicates.nodes
      ensures Valid() && elems == Unique(old(elems), less)
      ensures duplicates != null ==>
        Apart(duplicates) && duplicates.elems == old(duplicates.elems) + Duplicates(old(elems), less)
    {
      AtLinks(0);
      if head.next == tail {
        AtInjective(0, |elems|);
        return;
      }
      var elem: Elem := head.next;
      ghost var s, d: seq<Elem> := elems, [];
      ghost var i: nat := 0;
      var next: Elem := elem.next;
      while next != tail
        invariant Valid() && i < |elems| && elem == elems[i] && next == At(i + 1) && nodes <= old(nodes)
        invariant duplicates != null ==> Apart(duplicates) && duplicates.elems == old(duplicates.elems) + d
        invariant duplicates != null ==> nodes + duplicates.nodes == old(nodes + duplicates.nodes)
        invariant Dropping(s, [], elems, d, i, less)
        decreases |elems| - i
      {
        if !less(elem, next) && !less(next, elem) {
          DropNext(s, [], elems, d, i, less);
          DropElem(next, duplicates, i + 1);
          d := d + [next];
        } else {
          KeepNext(s, [], elems, d, i, less);
          elem := next;
          i := i + 1;
        }
        AtLinks(i);
        next := elem.next;
      }
      AtInjective(i + 1, |elems|);
      DroppingDone(s, [], elems, d, i, less);
    }
  }
}
