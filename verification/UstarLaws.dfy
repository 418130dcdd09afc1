/** What stripped names, octal fields, headers and parsed entries are, apart from how they are computed. */
module UstarLaws {

  import opened Basics
  import opened Printf
  import opened SectorWords
  import opened Ustar

  // ----- stripped names -----

  /** "/", "./" and "../". */
  const PREFIXES: set<seq<Byte>> := {[SLASH], [DOT, SLASH], [DOT, DOT, SLASH]}

  ghost predicate NoPrefix(s: seq<Byte>) { forall p :: p in PREFIXES ==> !(p <= s) }

  /** No such prefix, not empty and not "..". */
  ghost predicate Ordinary(s: seq<Byte>) { s != [] && s != [DOT, DOT] && NoPrefix(s) }

  lemma NoPrefixIff(s: seq<Byte>)
    ensures NoPrefix(s) <==> !Antisocial(s)
  {
    assert [SLASH] in PREFIXES && [DOT, SLASH] in PREFIXES && [DOT, DOT, SLASH] in PREFIXES;
    assert Antisocial(s) <==> [SLASH] <= s || [DOT, SLASH] <= s || [DOT, DOT, SLASH] <= s;
  }

  lemma PrefixIs(s: seq<Byte>)
    requires Antisocial(s)
    ensures s[..PrefixLength(s)] in PREFIXES
  {
    var n := PrefixLength(s);
    if n == 1 {
      assert s[..1] == [SLASH];
    } else if n == 2 {
      assert s[..2] == [DOT, SLASH];
    } else {
      assert s[..3] == [DOT, DOT, SLASH];
    }
  }

  /** An ordinary name is its own result. */
  lemma OrdinaryStays(s: seq<Byte>)
    requires Ordinary(s)
    ensures Stripped(s) == s
  {
    NoPrefixIff(s);
  }

  /** A prefix does not matter to the result. */
  lemma PrefixGoes(p: seq<Byte>, s: seq<Byte>)
    requires p in PREFIXES
    ensures Stripped(p + s) == Stripped(s)
  {
    assert (p + s)[|p|..] == s;
    assert PrefixLength(p + s) == |p|;
  }

  /** The first `k` characters are prefixes one after the other. */
  ghost predicate Chain(s: seq<Byte>, k: nat)
    decreases k
  {
    || k == 0
    || (k >= 1 && [SLASH] <= s && Chain(s[1..], k - 1))
    || (k >= 2 && [DOT, SLASH] <= s && Chain(s[2..], k - 2))
    || (k >= 3 && [DOT, DOT, SLASH] <= s && Chain(s[3..], k - 3))
  }

  lemma ChainNext(s: seq<Byte>, n: nat, j: nat)
    requires n <= |s| && s[..n] in PREFIXES && Chain(s[n..], j)
    ensures Chain(s, n + j)
  {
    assert s[..n] <= s;
  }

  lemma ResultIsOrdinary(s: seq<Byte>)
    ensures Ordinary(Stripped(s))
  {
    StrippedIsSafe(s);
    NoPrefixIff(Stripped(s));
  }

  /** The result is an ordinary name, and is what is left after a chain of prefixes; "." if that is nothing or "..". */
  lemma {:induction false} StrippedIs(s: seq<Byte>) returns (k: nat)
    ensures k <= |s| && Chain(s, k) && NoPrefix(s[k..]) && Ordinary(Stripped(s))
    ensures Stripped(s) == if s[k..] == [] || s[k..] == [DOT, DOT] then [DOT] else s[k..]
    decreases |s|
  {
    ResultIsOrdinary(s);
    NoPrefixIff(s);
    if Antisocial(s) {
      var n := PrefixLength(s);
      var j := StrippedIs(s[n..]);
      PrefixIs(s);
      ChainNext(s, n, j);
      k := n + j;
      assert s[k..] == s[n..][j..];
    } else {
      k := 0;
      assert s[0..] == s;
    }
  }

  // ----- octal fields -----

  predicate IsOctal(c: Byte) { Ch('0') <= c <= Ch('7') }

  /** The number of octal digits that a field begins with. */
  ghost function Digits(s: seq<Byte>): (n: nat)
    ensures n <= |s| && (forall i :: 0 <= i < n ==> IsOctal(s[i])) && (n < |s| ==> !IsOctal(s[n]))
  {
    if s != [] && IsOctal(s[0]) then 1 + Digits(s[1..]) else 0
  }

  /** The value of octal digits, most significant first. */
  ghost function OctalValue(s: seq<Byte>): int {
    if s == [] then 0 else 8 * OctalValue(s[..|s| - 1]) + (s[|s| - 1] - Ch('0'))
  }

  lemma EightTimes(d: int, p: int, rest: int)
    ensures 8 * (d * p + rest) == d * (8 * p) + 8 * rest
  {
  }

  lemma {:induction false} OctalValueCons(s: seq<Byte>)
    requires s != []
    ensures OctalValue(s) == (s[0] - Ch('0')) * Pow8(|s| - 1) + OctalValue(s[1..])
  {
    var n := |s| - 1;
    if n > 0 {
      OctalValueCons(s[..n]);
      assert s[..n][1..] == s[1..][..n - 1] && s[1..][n - 1] == s[n];
      EightTimes(s[0] - Ch('0'), Pow8(n - 1), OctalValue(s[1..][..n - 1]));
    } else {
      assert s[..0] == [] && s[1..] == [];
    }
  }

  lemma {:induction false} OctalValueBounds(s: seq<Byte>)
    requires forall i :: 0 <= i < |s| ==> IsOctal(s[i])
    ensures 0 <= OctalValue(s) < Pow8(|s|)
  {
    if s != [] { OctalValueBounds(s[..|s| - 1]); }
  }

  /** A field of value `v`: one or more octal digits, then a space or a null byte, and a value that fits 32 bits. */
  ghost predicate IsOctalField(s: seq<Byte>, v: int) {
    var n := Digits(s);
    0 < n < |s| && (s[n] == Ch(' ') || s[n] == 0) && v == OctalValue(s[..n]) < 0x1_0000_0000
  }

  /** What is left of a field after digits of value `value`. */
  ghost function RestIs(s: seq<Byte>, any: bool, value: nat): Option<int> {
    var n := Digits(s);
    var v := value * Pow8(n) + OctalValue(s[..n]);
    if n < |s| && (s[n] == Ch(' ') || s[n] == 0) && (any || n > 0) && v < 0x1_0000_0000 then Some(v) else None
  }

  lemma Scaled(value: nat, d: nat, p: nat)
    ensures value * (8 * p) + d * p == (d + value * 8) * p
  {
  }

  lemma {:induction false} Pow8Positive(n: nat)
    ensures Pow8(n) > 0
  {
    if n > 0 { Pow8Positive(n - 1); }
  }

  lemma TooLargeAlready(value: nat, n: nat)
    requires value >= 0x2000_0000 && n > 0
    ensures value * Pow8(n) >= 0x1_0000_0000
  {
    Pow8Positive(n - 1);
    assert value * Pow8(n) == value * 8 * Pow8(n - 1);
    assert value * 8 * Pow8(n - 1) >= value * 8;
  }

  lemma RestAfterDigit(s: seq<Byte>, any: bool, value: nat)
    requires s != [] && IsOctal(s[0])
    ensures RestIs(s, any, value) ==
      if value >= 0x2000_0000 then None else RestIs(s[1..], true, s[0] - Ch('0') + value * 8)
  {
    var n, d := Digits(s), s[0] - Ch('0');
    OctalValueCons(s[..n]);
    assert s[..n][1..] == s[1..][..n - 1];
    OctalValueBounds(s[1..][..n - 1]);
    Scaled(value, d, Pow8(n - 1));
    if value >= 0x2000_0000 { TooLargeAlready(value, n); }
  }

  lemma {:induction false} OctalRestIs(s: seq<Byte>, any: bool, value: nat)
    requires value < 0x1_0000_0000
    ensures OctalRest(s, any, value) == RestIs(s, any, value)
    decreases |s|
  {
    if s != [] && IsOctal(s[0]) {
      RestAfterDigit(s, any, value);
      if value < 0x2000_0000 { OctalRestIs(s[1..], true, s[0] - Ch('0') + value * 8); }
    } else {
      assert s[..0] == [];
    }
  }

  /** parse_octal_field accepts exactly the octal fields, with their values. */
  lemma OctalFieldIff(s: seq<Byte>, v: nat)
    ensures OctalRest(s, false, 0) == Some(v) <==> IsOctalField(s, v)
    ensures OctalRest(s, false, 0).None? <==> forall w: nat :: !IsOctalField(s, w)
  {
    OctalRestIs(s, false, 0);
    var n := Digits(s);
    OctalValueBounds(s[..n]);
    assert 0 * Pow8(n) == 0;
    if IsOctalField(s, OctalValue(s[..n])) { assert OctalRest(s, false, 0) == Some(OctalValue(s[..n])); }
  }

  // ----- checksums -----

  ghost function Total(s: seq<Byte>): nat { if s == [] then 0 else Total(s[..|s| - 1]) + s[|s| - 1] }

  lemma {:induction false} TotalBefore(h: seq<Byte>, n: nat)
    requires n <= |h| && n <= 148
    ensures SumTo(h, n) == Total(h[..n])
  {
    if n > 0 {
      TotalBefore(h, n - 1);
      assert h[..n][..n - 1] == h[..n - 1];
    } else {
      assert h[..0] == [];
    }
  }

  lemma {:induction false} TotalInside(h: seq<Byte>, n: nat)
    requires 148 <= n <= |h| && n <= 156
    ensures SumTo(h, n) == Total(h[..148]) + 32 * (n - 148)
  {
    if n == 148 { TotalBefore(h, 148); } else { TotalInside(h, n - 1); }
  }

  lemma {:induction false} TotalAfter(h: seq<Byte>, n: nat)
    requires 156 <= n <= |h|
    ensures SumTo(h, n) == Total(h[..148]) + 256 + Total(h[156..n])
  {
    if n == 156 {
      TotalInside(h, 156);
      assert h[156..156] == [];
    } else {
      TotalAfter(h, n - 1);
      assert h[156..n][..n - 157] == h[156..n - 1];
    }
  }

  /** The checksum is the sum of all bytes outside its field, and eight spaces. */
  lemma ChksumIs(h: seq<Byte>)
    requires |h| == 512
    ensures SumTo(h, 512) == Total(h[..148]) + 8 * 32 + Total(h[156..])
  {
    TotalAfter(h, 512);
    assert h[156..512] == h[156..];
  }

  lemma {:induction false} ByteChangesSum(h: seq<Byte>, i: nat, b: Byte, n: nat)
    requires i < |h| && n <= |h| && !(148 <= i < 156)
    ensures SumTo(h[i := b], n) == SumTo(h, n) + if i < n then b - h[i] else 0
  {
    if n > 0 { ByteChangesSum(h, i, b, n - 1); }
  }

  // ----- parsing -----

  ghost predicate AllZero(h: seq<Byte>) { forall i :: 0 <= i < |h| ==> h[i] == 0 }

  /** All that a header must be to be taken for an entry of `size` bytes and type `typ`. */
  ghost predicate Acceptable(h: seq<Byte>, typ: Byte, size: nat)
    requires |h| == 512
  {
    && h[257..263] == Literal("ustar") + [0] && h[263] == Ch('0') && h[264] == Ch('0')
    && IsOctalField(h[148..156], SumTo(h, 512))
    && h[99] == 0 && h[345] == 0 && h[156] == typ
    && ((typ == Ch('0') && IsOctalField(h[124..136], size) && size <= 0x7fff_ffff) || (typ == Ch('5') && size == 0))
  }

  /** A header is taken for an entry exactly if it is acceptable, and then under its stripped name. */
  lemma ParseIff(h: seq<Byte>, typ: Byte, size: nat)
    requires |h| == 512
    ensures Parse(h) == Entry(Stripped(CString(h[..100])), typ, size) <==> Acceptable(h, typ, size)
    ensures Parse(h).Entry? ==> Parse(h).name == Stripped(CString(h[..100]))
  {
    OctalFieldIff(h[148..156], SumTo(h, 512));
    OctalFieldIff(h[124..136], size);
    assert h[263..265] == [h[263], h[264]];
    if h[257..263] == MAGIC + [0] { assert h[257] == h[257..263][0] == Ch('u'); }
  }

  /** The end of the archive is a block of zeros. */
  lemma EndIff(h: seq<Byte>)
    requires |h| == 512
    ensures Parse(h) == EndOfArchive <==> AllZero(h)
  {
  }

  /** The complaints, in the order in which they are made. */
  const COMPLAINTS: seq<Error> :=
    [NotUstar, InvalidVersion, CorruptChksum, ChksumMismatch, NameTooLong, UnimplementedType, CorruptSize, TooLarge]

  ghost predicate NoOctalField(s: seq<Byte>) { forall v: nat :: !IsOctalField(s, v) }

  /** What each of them says of a header. */
  ghost predicate Wrong(h: seq<Byte>, e: Error)
    requires |h| == 512
  {
    match e
    case NotUstar => h[257..263] != Literal("ustar") + [0]
    case InvalidVersion => h[263] != Ch('0') || h[264] != Ch('0')
    case CorruptChksum => NoOctalField(h[148..156])
    case ChksumMismatch => !IsOctalField(h[148..156], SumTo(h, 512))
    case NameTooLong => h[99] != 0 || h[345] != 0
    case UnimplementedType => h[156] != Ch('0') && h[156] != Ch('5')
    case CorruptSize => h[156] == Ch('0') && NoOctalField(h[124..136])
    case TooLarge => h[156] == Ch('0') && forall v: nat :: v <= 0x7fff_ffff ==> !IsOctalField(h[124..136], v)
  }

  /** Complaint `i` is the first that is true of a header; past the last one, none is. */
  ghost predicate FirstWrong(h: seq<Byte>, i: nat)
    requires |h| == 512 && i <= |COMPLAINTS|
  {
    (i < |COMPLAINTS| ==> Wrong(h, COMPLAINTS[i])) && forall j :: 0 <= j < i ==> !Wrong(h, COMPLAINTS[j])
  }

  lemma FieldIs(s: seq<Byte>)
    ensures OctalRest(s, false, 0).None? ==> NoOctalField(s)
    ensures OctalRest(s, false, 0).Some? ==>
      IsOctalField(s, OctalRest(s, false, 0).value) && OctalRest(s, false, 0).value >= 0
    ensures forall v: nat, w: nat :: IsOctalField(s, v) && IsOctalField(s, w) ==> v == w
  {
    OctalFieldIff(s, 0);
    OctalRestIs(s, false, 0);
  }

  /** A header is refused with the first complaint about it, and is accepted exactly if there is none. */
  lemma FailsWithFirst(h: seq<Byte>, i: nat)
    requires |h| == 512 && !AllZero(h) && i <= |COMPLAINTS| && FirstWrong(h, i)
    ensures if i < |COMPLAINTS| then Parse(h) == Failure(COMPLAINTS[i]) else Parse(h).Entry?
  {
    FieldIs(h[148..156]);
    FieldIs(h[124..136]);
    assert h[263..265] == [h[263], h[264]];
    assert i > 0 ==> !Wrong(h, COMPLAINTS[0]);
    assert i > 1 ==> !Wrong(h, COMPLAINTS[1]);
    assert i > 2 ==> !Wrong(h, COMPLAINTS[2]);
    assert i > 3 ==> !Wrong(h, COMPLAINTS[3]);
    assert i > 4 ==> !Wrong(h, COMPLAINTS[4]);
    assert i > 5 ==> !Wrong(h, COMPLAINTS[5]);
    assert i > 6 ==> !Wrong(h, COMPLAINTS[6]);
    assert i > 7 ==> !Wrong(h, COMPLAINTS[7]);
  }

  lemma AcceptedChksum(h: seq<Byte>)
    requires |h| == 512 && Parse(h).Entry?
    ensures OctalRest(h[148..156], false, 0) == Some(SumTo(h, 512)) && h[257..263] == MAGIC + [0]
  {
  }

  /** A header that would be accepted is refused once any one byte outside its checksum field has changed. */
  lemma CorruptionIsDetected(h: seq<Byte>, i: nat, b: Byte)
    requires |h| == 512 && Parse(h).Entry? && i < 512 && !(148 <= i < 156) && b != h[i]
    ensures Parse(h[i := b]).Failure?
  {
    var g := h[i := b];
    AcceptedChksum(h);
    ByteChangesSum(h, i, b, 512);
    assert g[148..156] == h[148..156];
    assert h[257] == h[257..263][0] == Ch('u') && h[258] == h[257..263][1] == Ch('s');
    assert g[257] != 0 || g[258] != 0;
  }

  // ----- headers -----

  lemma OctalInField(v: nat, width: nat)
    requires v < Pow8(width) && width > 0 && v < 0x1_0000_0000
    ensures |OctalText(v, width)| == width && IsOctalField(Padded(OctalText(v, width), width + 1), v)
  {
    var n := OctalTextIs(v, width);
    OctalRoundTrip(v, width, [0]);
    assert Padded(OctalText(v, width), width + 1) == OctalText(v, width) + [0];
    OctalFieldIff(Padded(OctalText(v, width), width + 1), v);
  }

  /** The fields before the checksum, by their places in the format. */
  ghost predicate FrontIs(h: seq<Byte>, name: seq<Byte>, typ: Byte, size: nat)
    requires |h| == 512
  {
    && |name| < 100 && h[..100] == Padded(name, 100)
    && IsOctalField(h[100..108], if typ == Ch('0') then 0x1a4 else 0x1ed)
    && h[108..116] == Literal("0000000") + [0] && h[116..124] == Literal("0000000") + [0]
    && IsOctalField(h[124..136], size) && IsOctalField(h[136..148], 1136102400)
  }

  /** And those after it. */
  ghost predicate BackIs(h: seq<Byte>, typ: Byte)
    requires |h| == 512
  {
    && h[156] == typ && AllZero(h[157..257])
    && h[257..263] == Literal("ustar") + [0] && h[263..265] == Literal("00")
    && h[265..297] == Padded(Literal("root"), 32) && h[297..329] == Padded(Literal("root"), 32)
    && AllZero(h[329..512])
  }

  lemma FrontPlaces(name: seq<Byte>, typ: Byte, size: int)
    requires |name| < NAME_SIZE && |OctalText(Mode(typ), 7)| == 7
    requires |OctalText(AsUnsigned(size), 11)| == 11 && |OctalText(MTIME, 11)| == 11
    ensures var f := Front(name, typ, size);
      && |f| == 148 && f[..100] == Padded(name, 100) && f[100..108] == Padded(OctalText(Mode(typ), 7), 8)
      && f[108..116] == Padded(OWNER, 8) && f[116..124] == Padded(OWNER, 8)
      && f[124..136] == Padded(OctalText(AsUnsigned(size), 11), 12) && f[136..148] == Padded(OctalText(MTIME, 11), 12)
  {
  }

  lemma BackPlaces(typ: Byte)
    ensures var b := Back(typ);
      && |b| == 356 && b[0] == typ && b[1..101] == Nulls(100) && b[101..107] == Padded(MAGIC, 6)
      && b[107..109] == [ZERO, ZERO] && b[109..141] == Padded(ROOT, 32) && b[141..173] == Padded(ROOT, 32)
      && b[173..] == Nulls(183)
  {
  }

  lemma HeaderHalves(front: seq<Byte>, f: seq<Byte>, back: seq<Byte>)
    requires |front| == 148 && |f| == 8 && |back| == 356
    ensures var h := front + f + back; |h| == 512 && h[..148] == front && h[156..] == back
  {
  }

  lemma FrontSlices(h: seq<Byte>, f: seq<Byte>)
    requires |h| == 512 && |f| == 148 && h[..148] == f
    ensures h[..100] == f[..100] && h[100..108] == f[100..108] && h[108..116] == f[108..116]
    ensures h[116..124] == f[116..124] && h[124..136] == f[124..136] && h[136..148] == f[136..148]
  {
  }

  lemma ModeField(typ: Byte)
    requires typ in {REGULAR, DIRECTORY}
    ensures |OctalText(Mode(typ), 7)| == 7
    ensures IsOctalField(Padded(OctalText(Mode(typ), 7), 8), if typ == Ch('0') then 0x1a4 else 0x1ed)
  {
    FieldLimits();
    OctalInField(Mode(typ), 7);
  }

  lemma SizeField(v: nat)
    requires v < 0x1_0000_0000
    ensures |OctalText(v, 11)| == 11 && IsOctalField(Padded(OctalText(v, 11), 12), v)
  {
    FieldLimits();
    OctalInField(v, 11);
  }

  lemma FrontFrom(h: seq<Byte>, name: seq<Byte>, typ: Byte, size: nat, mode: seq<Byte>, length: seq<Byte>,
                  time: seq<Byte>)
    requires |h| == 512 && |name| < 100 && h[..100] == Padded(name, 100)
    requires h[100..108] == mode && IsOctalField(mode, if typ == Ch('0') then 0x1a4 else 0x1ed)
    requires h[108..116] == Literal("0000000") + [0] && h[116..124] == Literal("0000000") + [0]
    requires h[124..136] == length && IsOctalField(length, size)
    requires h[136..148] == time && IsOctalField(time, 1136102400)
    ensures FrontIs(h, name, typ, size)
  {
  }

  lemma OwnerField()
    ensures Padded(OWNER, 8) == Literal("0000000") + [0]
  {
  }

  lemma FrontHolds(h: seq<Byte>, name: seq<Byte>, typ: Byte, size: int)
    requires |h| == 512 && |name| < NAME_SIZE && typ in {REGULAR, DIRECTORY}
    requires |OctalText(Mode(typ), 7)| == 7 && |OctalText(AsUnsigned(size), 11)| == 11 && |OctalText(MTIME, 11)| == 11
    requires h[..148] == Front(name, typ, size)
    ensures FrontIs(h, name, typ, AsUnsigned(size))
  {
    FrontPlaces(name, typ, size);
    FrontSlices(h, Front(name, typ, size));
    OwnerField();
    ModeField(typ);
    SizeField(AsUnsigned(size));
    SizeField(MTIME);
    FrontFrom(h, name, typ, AsUnsigned(size), Padded(OctalText(Mode(typ), 7), 8),
              Padded(OctalText(AsUnsigned(size), 11), 12), Padded(OctalText(MTIME, 11), 12));
  }

  lemma BackHolds(h: seq<Byte>, typ: Byte)
    requires |h| == 512 && h[156..] == Back(typ)
    ensures BackIs(h, typ)
  {
    var b := h[156..];
    BackPlaces(typ);
    assert h[156] == b[0] && h[157..257] == b[1..101] && h[257..263] == b[101..107] && h[263..265] == b[107..109];
    assert h[265..297] == b[109..141] && h[297..329] == b[141..173] && h[329..512] == b[173..];
    assert Padded(MAGIC, 6) == MAGIC + [0] && Literal("00") == [ZERO, ZERO];
  }

  /** Every field of a header that is made, at its place. */
  lemma HeaderIs(name: seq<Byte>, typ: Byte, size: int)
    requires |name| < 100 && typ in {REGULAR, DIRECTORY}
    ensures var h := Header(name, typ, size); FrontIs(h, name, typ, AsUnsigned(size)) && BackIs(h, typ)
  {
    FieldsFit(typ, size);
    var front, back := Front(name, typ, size), Back(typ);
    FrontPlaces(name, typ, size);
    BackPlaces(typ);
    ChksumFits(front + Nulls(CHKSUM_SIZE) + back);
    HeaderHalves(front, Padded(OctalText(Chksum(front, back), CHKSUM_DIGITS), CHKSUM_SIZE), back);
    FrontHolds(Header(name, typ, size), name, typ, size);
    BackHolds(Header(name, typ, size), typ);
  }

  /** An ordinary name, its type and its size come back as they went in. */
  lemma OrdinaryRoundTrip(name: seq<Byte>, typ: Byte, size: int)
    requires NoNul(name) && Ordinary(name) && |name| < 100
    requires (typ == Ch('0') && 0 <= size <= 0x7fff_ffff) || (typ == Ch('5') && size == 0)
    ensures Parse(Header(name, typ, size)) == Entry(name, typ, size)
  {
    OrdinaryStays(name);
    ParseUndoesMake(name, typ, size);
  }
}
