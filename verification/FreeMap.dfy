/** The free map: which sectors of the file system device are in use. Whether a write of the map to its
    own file succeeds is an outcome given to each call. */
module FreeMap {

  import opened Bitmap
  import opened Basics
  import opened Sequences

  /** NoSpace also stands for a map that could not be written; Crash for using a map file that is not open. */
  datatype Outcome = Done | NoSpace | Crash

  /** The sectors `got` were all free in `s`, are distinct, and each is the first that was still free. */
  ghost predicate FirstFit(s: seq<bool>, got: seq<Sector>) {
    forall i :: 0 <= i < |got| ==>
      && got[i] < |s| && !s[got[i]]
      && (forall j :: 0 <= j < i ==> got[j] < got[i])
      && (forall x :: 0 <= x < got[i] ==> s[x] || x in got[..i])
  }

  /** `s` with the sectors `got` in use as well. */
  ghost function Taken(s: seq<bool>, got: seq<Sector>): (r: seq<bool>)
    ensures |r| == |s|
    ensures forall x :: 0 <= x < |s| ==> r[x] == (s[x] || x in got)
  {
    seq(|s|, x requires 0 <= x < |s| => s[x] || x in got)
  }

  lemma TakenNext(s: seq<bool>, got: seq<Sector>, x: Sector)
    requires x < |s|
    ensures Taken(s, got + [x]) == Taken(s, got)[x := true]
  {
  }

  lemma StillFreeIsLater(s: seq<bool>, a: seq<Sector>, j: nat, x: Sector)
    requires FirstFit(s, a) && j < |a| && x < |s| && !Taken(s, a)[x]
    ensures a[j] < x
  {
    assert a[j] in a;
  }

  /** Two allocations one after the other are one. */
  lemma FirstFitJoin(s: seq<bool>, a: seq<Sector>, b: seq<Sector>)
    requires FirstFit(s, a) && FirstFit(Taken(s, a), b)
    ensures FirstFit(s, a + b) && Taken(Taken(s, a), b) == Taken(s, a + b)
  {
    var c := a + b;
    forall i | 0 <= i < |c|
      ensures c[i] < |s| && !s[c[i]]
      ensures forall j :: 0 <= j < i ==> c[j] < c[i]
      ensures forall x :: 0 <= x < c[i] ==> s[x] || x in c[..i]
    {
      if i < |a| {
        assert c[..i] == a[..i];
      } else {
        var k := i - |a|;
        assert c[..i] == a + b[..k];
        assert !Taken(s, a)[b[k]];
        forall j | 0 <= j < |a| ensures a[j] < b[k] {
          assert a[j] in a;
          StillFreeIsLater(s, a, j, b[k]);
        }
      }
    }
  }

  /** `s` with the sectors `gone` free again. */
  ghost function Freed(s: seq<bool>, gone: seq<Sector>): (r: seq<bool>)
    ensures |r| == |s|
    ensures forall x :: 0 <= x < |s| ==> r[x] == (s[x] && x !in gone)
  {
    seq(|s|, x requires 0 <= x < |s| => s[x] && x !in gone)
  }

  lemma FreedNext(s: seq<bool>, gone: seq<Sector>, x: Sector)
    requires x < |s|
    ensures Freed(s, gone + [x]) == Freed(s, gone)[x := false]
  {
  }

  /** Giving back what was taken restores the map. */
  lemma FreedTaken(s: seq<bool>, got: seq<Sector>)
    requires FirstFit(s, got)
    ensures Freed(Taken(s, got), got) == s
  {
  }

  lemma FirstFitDistinct(s: seq<bool>, got: seq<Sector>)
    requires FirstFit(s, got)
    ensures Distinct(got)
    ensures forall i :: 0 <= i < |got| ==> got[i] < |s| && Taken(s, got)[got[i]]
  {
    forall i | 0 <= i < |got| ensures Taken(s, got)[got[i]] { assert got[i] in got; }
  }

  lemma FirstFitNext(s: seq<bool>, got: seq<Sector>, r: Option<nat>)
    requires FirstFit(s, got) && FirstGroup(Taken(s, got), 0, 1, false, r) && r.Some?
    ensures r.value < |s| && FirstFit(s, got + [r.value])
  {
    var t, x := Taken(s, got), r.value;
    assert !t[x];
    forall y | 0 <= y < x ensures t[y] {
      assert !AllAre(t, y, 1, false);
    }
    forall j | 0 <= j < |got| ensures got[j] < x {
      assert got[j] in got && t[got[j]];
    }
    var got' := got + [x];
    forall i | 0 <= i < |got'| ensures forall y :: 0 <= y < got'[i] ==> s[y] || y in got'[..i] {
      assert got'[..i] == got[..i];
    }
  }

  ghost function FreeSectors(s: seq<bool>): set<Sector> {
    set x | 0 <= x < |s| && !s[x]
  }

  /** What is taken is no longer free. */
  lemma FreeAfter(s: seq<bool>, got: seq<Sector>)
    requires FirstFit(s, got)
    ensures |got| <= |FreeSectors(s)| && |FreeSectors(Taken(s, got))| == |FreeSectors(s)| - |got|
  {
    FirstFitDistinct(s, got);
    DistinctSize(got);
    SubsetSize(ToSet(got), FreeSectors(s));
    assert FreeSectors(Taken(s, got)) == FreeSectors(s) - ToSet(got);
  }

  lemma NoneFree(s: seq<bool>)
    ensures FirstGroup(s, 0, 1, false, None) <==> |FreeSectors(s)| == 0
  {
    if FirstGroup(s, 0, 1, false, None) {
      forall x | 0 <= x < |s| ensures s[x] { assert !AllAre(s, x, 1, false); }
      assert FreeSectors(s) == {};
    } else {
      var x :| x >= 0 && AllAre(s, x, 1, false);
      assert x in FreeSectors(s);
    }
  }

  /** `cnt` allocations from the `first` on succeed: so many sectors are free and, where the map is written to
      its file, so are the writes. */
  ghost predicate Able(s: seq<bool>, open: bool, written: nat -> bool, first: nat, cnt: nat) {
    cnt <= |FreeSectors(s)| && (open ==> forall k :: first <= k < first + cnt ==> written(k))
  }

  lemma AbleJoin(s: seq<bool>, got: seq<Sector>, open: bool, written: nat -> bool, first: nat, cnt: nat)
    requires FirstFit(s, got) && Able(s, open, written, first, |got|)
    ensures Able(Taken(s, got), open, written, first + |got|, cnt) <==> Able(s, open, written, first, |got| + cnt)
  {
    FreeAfter(s, got);
  }

  lemma AbleNext(s: seq<bool>, open: bool, written: nat -> bool, first: nat, i: nat, upto: nat)
    requires Able(s, open, written, first, Least(i, upto))
    requires i >= upto || (i < |FreeSectors(s)| && (open ==> written(first + i)))
    ensures Able(s, open, written, first, Least(i + 1, upto))
  {
  }

  lemma NotAble(s: seq<bool>, open: bool, written: nat -> bool, first: nat, i: nat, cnt: nat)
    requires Able(s, open, written, first, i) && i < cnt && !(i < |FreeSectors(s)| && (open ==> written(first + i)))
    ensures !Able(s, open, written, first, cnt)
    ensures !open ==> |FreeSectors(s)| == i
  {
  }

  /** The first `i` entries have been filled: those below `upto` with sectors taken, the others with zero. */
  ghost predicate Entries(before: seq<Sector>, now: seq<Sector>, s: seq<bool>, used: seq<bool>, i: nat, upto: nat) {
    && |now| == |before| && i <= |now|
    && FirstFit(s, now[..Least(i, upto)]) && used == Taken(s, now[..Least(i, upto)])
    && (forall k :: upto <= k < i ==> now[k] == 0)
    && (forall k :: i <= k < |now| ==> now[k] == before[k])
  }

  lemma EntryZeroed(before: seq<Sector>, now: seq<Sector>, s: seq<bool>, used: seq<bool>, i: nat, upto: nat)
    requires Entries(before, now, s, used, i, upto) && upto <= i < |now|
    ensures Entries(before, now[i := 0], s, used, i + 1, upto)
  {
    assert now[i := 0][..upto] == now[..upto];
  }

  lemma EntryTaken(before: seq<Sector>, now: seq<Sector>, s: seq<bool>, used: seq<bool>, i: nat, upto: nat, x: Sector)
    requires |now| == |before| && i < upto && i < |now| && FirstFit(s, now[..i] + [x])
    requires used == Taken(s, now[..i] + [x])
    requires forall k :: i <= k < |now| ==> now[k] == before[k]
    ensures Entries(before, now[i := x], s, used, i + 1, upto)
  {
    assert now[i := x][..i + 1] == now[..i] + [x];
  }

  ghost predicate Bounded(before: seq<Sector>, now: seq<Sector>, n: nat) {
    |now| == |before| && forall k :: 0 <= k < |now| ==> now[k] == before[k] || now[k] == 0 || now[k] < n
  }

  lemma EntriesBounded(before: seq<Sector>, now: seq<Sector>, s: seq<bool>, used: seq<bool>, i: nat, upto: nat)
    requires Entries(before, now, s, used, i, upto)
    ensures Bounded(before, now, |s|)
  {
    forall k | 0 <= k < Least(i, upto) ensures now[k] < |s| { assert now[..Least(i, upto)][k] == now[k]; }
  }

  class Map {
    const bitmap: BitSet

    var fileOpen: bool

    ghost predicate Valid()
      reads this, bitmap, bitmap.bits
    {
      bitmap.Valid()
    }

    ghost function Used(): seq<bool>
      reads this, bitmap
    {
      bitmap.view
    }

    constructor (bitmap: BitSet)
      requires bitmap.Valid()
      ensures this.bitmap == bitmap && !fileOpen && Valid()
    {
      this.bitmap := bitmap;
      fileOpen := false;
    }

    /** `cnt` consecutive sectors: the first such group that is free, or none and nothing changed. */
    method Allocate(cnt: nat, written: bool) returns (r: Option<Sector>)
      requires Valid()
      modifies bitmap`view, bitmap.bits
      ensures Valid()
      ensures r.None? ==> Used() == old(Used())
      ensures r.None? <==> (fileOpen && !written) || FirstGroup(old(Used()), 0, cnt, false, None)
      ensures r.Some? ==> FirstGroup(old(Used()), 0, cnt, false, r)
      ensures r.Some? ==> Used() == Filled(old(Used()), r.value, cnt, true)
    {
      r := bitmap.ScanAndFlip(0, cnt, false);
      if r.Some? {
        GroupOrNone(old(Used()), cnt, r.value);
        if fileOpen && !written {
          bitmap.SetMultiple(r.value, cnt, false);
          assert Used() == old(Used());
          r := None;
        }
      }
    }

    /** False when the map file is not open: writing it then crashes. */
    method Release(sector: Sector, cnt: nat) returns (ok: bool)
      requires Valid() && AllAre(Used(), sector, cnt, true)
      modifies bitmap`view, bitmap.bits
      ensures Valid() && ok == fileOpen
      ensures Used() == Filled(old(Used()), sector, cnt, false)
    {
      bitmap.SetMultiple(sector, cnt, false);
      ok := fileOpen;
    }

    /** Makes the listed sectors free; false when the map file is not open, which crashes after the first. */
    method ReleaseArray(sectors: array<Sector>, cnt: nat) returns (ok: bool)
      requires Valid() && cnt <= sectors.Length && Distinct(sectors[..cnt])
      requires forall i :: 0 <= i < cnt ==> sectors[i] < |Used()| && Used()[sectors[i]]
      modifies bitmap`view, bitmap.bits
      ensures Valid() && ok == (fileOpen || cnt == 0)
      ensures Used() == Freed(old(Used()), sectors[..if ok then cnt else 1])
    {
      ghost var s, gone := Used(), sectors[..cnt];
      var i := 0;
      assert Freed(s, gone[..0]) == s;
      while i < cnt
        invariant i <= cnt && Valid() && sectors[..cnt] == gone
        invariant i > 0 ==> fileOpen
        invariant Used() == Freed(s, gone[..i])
      {
        assert gone[i] !in gone[..i];
        FreedNext(s, gone[..i], gone[i]);
        assert gone[..i + 1] == gone[..i] + [gone[i]];
        var released := Release(sectors[i], 1);
        assert Used() == Freed(s, gone[..i])[gone[i] := false];
        if !released {
          assert sectors[..1] == gone[..1];
          return false;
        }
        i := i + 1;
      }
      assert gone[..i] == gone;
      return true;
    }

    /** One more sector, after `got` have been taken out of `s`. */
    method AllocateNext(written: bool, ghost s: seq<bool>, ghost got: seq<Sector>) returns (r: Option<Sector>)
      requires Valid() && FirstFit(s, got) && Used() == Taken(s, got)
      modifies bitmap`view, bitmap.bits
      ensures Valid()
      ensures r.Some? <==> |got| < |FreeSectors(s)| && (fileOpen ==> written)
      ensures r.None? ==> Used() == Taken(s, got)
      ensures r.Some? ==> FirstFit(s, got + [r.value]) && Used() == Taken(s, got + [r.value]) && r.value < |s|
    {
      FreeAfter(s, got);
      NoneFree(Taken(s, got));
      r := Allocate(1, written);
      if r.Some? {
        FirstFitNext(s, got, r);
        TakenNext(s, got, r.value);
        assert Used() == Taken(s, got)[r.value := true];
      }
    }

    /** Gives back the sectors taken out of `s` so far. */
    method Rollback(sectors: array<Sector>, cnt: nat, ghost s: seq<bool>) returns (r: Outcome)
      requires Valid() && cnt <= sectors.Length
      requires FirstFit(s, sectors[..cnt]) && Used() == Taken(s, sectors[..cnt])
      modifies bitmap`view, bitmap.bits
      ensures Valid() && r == if fileOpen || cnt == 0 then NoSpace else Crash
      ensures r.NoSpace? ==> Used() == s
    {
      FirstFitDistinct(s, sectors[..cnt]);
      FreedTaken(s, sectors[..cnt]);
      forall i | 0 <= i < cnt ensures sectors[i] < |Used()| && Used()[sectors[i]] {
        assert sectors[..cnt][i] == sectors[i];
      }
      var released := ReleaseArray(sectors, cnt);
      r := if released then NoSpace else Crash;
    }

    /** One turn of the loop: zero past `upto`, and before it another sector, if one can be had. */
    method FillEntry(sectors: array<Sector>, i: nat, upto: nat, written: bool, ghost s: seq<bool>,
                     ghost before: seq<Sector>)
      returns (ok: bool)
      requires Valid() && i < sectors.Length && Entries(before, sectors[..], s, Used(), i, upto)
      modifies bitmap`view, bitmap.bits, sectors
      ensures Valid() && Entries(before, sectors[..], s, Used(), if ok then i + 1 else i, upto)
      ensures ok <==> i >= upto || (i < |FreeSectors(s)| && (fileOpen ==> written))
    {
      ghost var now := sectors[..];
      if i >= upto {
        EntryZeroed(before, now, s, Used(), i, upto);
        sectors[i] := 0;
      } else {
        var next := AllocateNext(written, s, now[..i]);
        if next.None? { return false; }
        EntryTaken(before, now, s, Used(), i, upto, next.value);
        sectors[i] := next.value;
      }
      assert sectors[..] == now[i := sectors[i]];
      return true;
    }

    /** Fills the first `upto` of `cnt` entries with sectors taken one at a time and zeroes the others, or
        gives back what it took. The k-th write of the map succeeds or fails as `written(first + k)` says. */
    method AllocateArray(cnt: nat, upto: nat, sectors: array<Sector>, written: nat -> bool, first: nat)
      returns (r: Outcome)
      requires Valid() && cnt <= sectors.Length
      modifies bitmap`view, bitmap.bits, sectors
      ensures Valid()
      ensures r.Done? <==> Able(old(Used()), fileOpen, written, first, Least(cnt, upto))
      ensures r.Crash? <==> !fileOpen && 0 < |FreeSectors(old(Used()))| < Least(cnt, upto)
      ensures r.Done? ==> Entries(old(sectors[..]), sectors[..], old(Used()), Used(), cnt, upto)
      ensures r.NoSpace? ==> Used() == old(Used())
      ensures Bounded(old(sectors[..]), sectors[..], |Used()|)
    {
      ghost var s, before := Used(), sectors[..];
      var i := 0;
      assert Able(s, fileOpen, written, first, 0);
      while i < cnt
        invariant i <= cnt && Valid() && Entries(before, sectors[..], s, Used(), i, upto)
        invariant Able(s, fileOpen, written, first, Least(i, upto))
      {
        var ok := FillEntry(sectors, i, upto, written(first + i), s, before);
        if !ok {
          EntriesBounded(before, sectors[..], s, Used(), i, upto);
          NotAble(s, fileOpen, written, first, i, Least(cnt, upto));
          r := Rollback(sectors, i, s);
          return;
        }
        AbleNext(s, fileOpen, written, first, i, upto);
        i := i + 1;
      }
      EntriesBounded(before, sectors[..], s, Used(), cnt, upto);
      return Done;
    }
  }

  /** With the map's file not open, one sector free and two requested, giving the first back crashes. */
  method RollbackCrashes() returns (r: Outcome)
    ensures r.Crash?
  {
    var bitmap := new BitSet(1);
    var freeMap := new Map(bitmap);
    ghost var s := freeMap.Used();
    assert FreeSectors(s) == {0};
    var sectors := new Sector[2](_ => 0);
    r := freeMap.AllocateArray(2, 2, sectors, _ => true, 0);
  }
}
