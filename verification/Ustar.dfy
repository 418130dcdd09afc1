/** Headers of the "ustar" archive format of the pax utility in SUSv3: making one and parsing it back. */
module Ustar {

  import opened Basics
  import opened PowerOfTwo
  import opened Printf
  import opened SectorWords

  const HEADER_SIZE: nat := 512
  const NAME_SIZE: nat := 100
  const SLASH: Byte := Ch('/')
  const DOT: Byte := Ch('.')
  const REGULAR: Byte := Ch('0')
  const DIRECTORY: Byte := Ch('5')
  const INT_MAX: nat := 0x7fff_ffff
  const ULONG_LIMIT: nat := 0x1_0000_0000

  // ----- file names -----

  ghost predicate NoNul(s: seq<Byte>) { forall i :: 0 <= i < |s| ==> s[i] != 0 }

  /** The name starts with "/", "./" or "../". */
  predicate Antisocial(s: seq<Byte>) {
    || (|s| > 0 && s[0] == SLASH)
    || (|s| > 1 && s[0] == DOT && s[1] == SLASH)
    || (|s| > 2 && s[0] == DOT && s[1] == DOT && s[2] == SLASH)
  }

  /** The number of characters up to the first slash, and that. */
  function PrefixLength(s: seq<Byte>): nat
    requires Antisocial(s)
  {
    if s[0] == SLASH then 1 else if s[1] == SLASH then 2 else 3
  }

  /** The name without such prefixes; "." for nothing and for "..". */
  function Stripped(s: seq<Byte>): seq<Byte>
    decreases |s|
  {
    if Antisocial(s) then Stripped(s[PrefixLength(s)..])
    else if s == [] || s == [DOT, DOT] then [DOT] else s
  }

  /** A stripped name leads nowhere outside: it is not empty, absolute or "..", nor under "..". */
  lemma {:induction false} StrippedIsSafe(s: seq<Byte>)
    ensures !Antisocial(Stripped(s)) && Stripped(s) != [] && Stripped(s) != [DOT, DOT]
    ensures NoNul(s) ==> NoNul(Stripped(s))
    decreases |s|
  {
    if Antisocial(s) { StrippedIsSafe(s[PrefixLength(s)..]); }
  }

  lemma StrippedTwice(s: seq<Byte>)
    ensures Stripped(Stripped(s)) == Stripped(s)
  {
    StrippedIsSafe(s);
  }

  method StripPrefixes(name: seq<Byte>) returns (r: seq<Byte>)
    ensures r == Stripped(name)
  {
    r := name;
    while Antisocial(r)
      invariant Stripped(r) == Stripped(name)
      decreases |r|
    {
      var i := 0;
      while r[i] != SLASH
        invariant i < |r| && i < PrefixLength(r)
        invariant i + 1 == PrefixLength(r) ==> r[i] == SLASH
        decreases |r| - i
      {
        i := i + 1;
      }
      r := r[i + 1..];
    }
    if r == [] || r == [DOT, DOT] { r := [DOT]; }
  }

  // ----- octal fields -----

  /** The value of an octal field, digits ended by a space or a null byte, of which `s` is what is left after
      the digits that made `value`, if there were `any`. */
  function OctalRest(s: seq<Byte>, any: bool, value: nat): Option<nat> {
    if s == [] then None
    else if ZERO <= s[0] <= ZERO + 7 then
      if value > (ULONG_LIMIT - 1) / 8 then None else OctalRest(s[1..], true, s[0] - ZERO + value * 8)
    else if s[0] == SPACE || s[0] == 0 then (if any then Some(value) else None)
    else None
  }

  method ParseOctalField(s: seq<Byte>) returns (r: Option<nat>)
    ensures r == OctalRest(s, false, 0)
  {
    var value, ofs := 0, 0;
    while ofs < |s|
      invariant ofs <= |s| && value >= 0 && OctalRest(s[ofs..], ofs > 0, value) == OctalRest(s, false, 0)
    {
      var c := s[ofs];
      assert s[ofs..][1..] == s[ofs + 1..];
      if ZERO <= c <= ZERO + 7 {
        if value > (ULONG_LIMIT - 1) / 8 { return None; }
        value := c - ZERO + value * 8;
      } else if c == SPACE || c == 0 {
        return if ofs > 0 then Some(value) else None;
      } else {
        return None;
      }
      ofs := ofs + 1;
    }
    return None;
  }

  /** What `%0<width>o` prints. */
  function OctalText(v: nat, width: nat): seq<Byte> {
    Text(v, false, false, BASE_O, Conversion(Flags(false, false, false, false, true, false), width, -1))
  }

  lemma {:induction false} OctalLength(v: nat, k: nat)
    requires v < Pow8(k)
    ensures |Numeral(v, 8)| <= k
  {
    if v > 0 {
      OctalLength(v / 8, k - 1);
    }
  }

  /** A number that fits is printed in exactly the width, with zeros in front. */
  lemma OctalTextIs(v: nat, width: nat) returns (n: nat)
    requires v < Pow8(width) && width > 0
    ensures OctalText(v, width) == Repeat(ZERO, n) + Numeral(v, 8) && |OctalText(v, width)| == width
    ensures n > 0 || v > 0
  {
    OctalLength(v, width);
    ReversedIsNumeral(v, BASE_O, 0);
    var c := Conversion(Flags(false, false, false, false, true, false), width, -1);
    var pad := PadCount(v, false, false, BASE_O, c);
    var buffer := Backwards(Buffer(v, BASE_O, c));
    n := if v == 0 then pad + 1 else pad;
    assert buffer == if v == 0 then [ZERO] else Numeral(v, 8);
    assert OctalText(v, width) == Repeat(ZERO, pad) + buffer;
    assert Repeat(ZERO, pad) + buffer == Repeat(ZERO, n) + Numeral(v, 8);
  }

  lemma {:induction false} ZerosRead(n: nat, t: seq<Byte>, any: bool)
    ensures OctalRest(Repeat(ZERO, n) + t, any, 0) == OctalRest(t, any || n > 0, 0)
  {
    var s := Repeat(ZERO, n) + t;
    if n > 0 {
      ZerosRead(n - 1, t, true);
      assert s[1..] == Repeat(ZERO, n - 1) + t;
    } else {
      assert s == t;
    }
  }

  lemma {:induction false} NumeralRead(v: nat, t: seq<Byte>, any: bool)
    requires v < ULONG_LIMIT
    ensures OctalRest(Numeral(v, 8) + t, any, 0) == OctalRest(t, any || v > 0, v)
  {
    if v > 0 {
      var d := [ZERO + v % 8];
      NumeralRead(v / 8, d + t, any);
      assert Numeral(v, 8) + t == Numeral(v / 8, 8) + (d + t);
      assert (d + t)[1..] == t;
    } else {
      assert Numeral(0, 8) + t == t;
    }
  }

  lemma ZerosAndNumeralRead(v: nat, n: nat, t: seq<Byte>)
    requires (v > 0 || n > 0) && v < ULONG_LIMIT && t != [] && t[0] == 0
    ensures OctalRest(Repeat(ZERO, n) + (Numeral(v, 8) + t), false, 0) == Some(v)
  {
    ZerosRead(n, Numeral(v, 8) + t, false);
    NumeralRead(v, t, n > 0);
  }

  /** A number printed into an octal field, and a null byte, is read back from it. */
  lemma OctalRoundTrip(v: nat, width: nat, t: seq<Byte>)
    requires v < Pow8(width) && width > 0 && v < ULONG_LIMIT && t != [] && t[0] == 0
    ensures OctalRest(OctalText(v, width) + t, false, 0) == Some(v)
  {
    var n := OctalTextIs(v, width);
    Regroup(Repeat(ZERO, n), Numeral(v, 8), t);
    ZerosAndNumeralRead(v, n, t);
  }

  // ----- headers -----

  const CHKSUM_AT: nat := 148
  const CHKSUM_SIZE: nat := 8

  function Nulls(n: nat): (z: seq<Byte>)
    ensures |z| == n && forall i :: 0 <= i < n ==> z[i] == 0
  {
    seq(n, _ => 0)
  }

  /** A text in a field of `n` bytes, filled up with null bytes. */
  function Padded(t: seq<Byte>, n: nat): (f: seq<Byte>)
    requires |t| <= n
    ensures |f| == n
  {
    t + Nulls(n - |t|)
  }

  /** The sum of the first `n` bytes of a header, as if its checksum field were all spaces. */
  function SumTo(h: seq<Byte>, n: nat): nat
    requires n <= |h|
  {
    if n == 0 then 0
    else SumTo(h, n - 1) + if CHKSUM_AT <= n - 1 < CHKSUM_AT + CHKSUM_SIZE then SPACE else h[n - 1]
  }

  method CalculateChksum(h: array<Byte>) returns (chksum: nat)
    requires h.Length == HEADER_SIZE
    ensures chksum == SumTo(h[..], HEADER_SIZE)
  {
    chksum := 0;
    var i := 0;
    while i < HEADER_SIZE
      invariant i <= HEADER_SIZE && chksum == SumTo(h[..], i)
    {
      var inChksumField := i >= CHKSUM_AT && i < CHKSUM_AT + CHKSUM_SIZE;
      chksum := chksum + if inChksumField then SPACE else h[i];
      i := i + 1;
    }
  }

  /** The checksum does not depend on the checksum field. */
  lemma {:induction false} SumIgnoresField(g: seq<Byte>, h: seq<Byte>, n: nat)
    requires |g| == |h| && n <= |h|
    requires forall i :: 0 <= i < |h| && !(CHKSUM_AT <= i < CHKSUM_AT + CHKSUM_SIZE) ==> g[i] == h[i]
    ensures SumTo(g, n) == SumTo(h, n)
  {
    if n > 0 { SumIgnoresField(g, h, n - 1); }
  }

  lemma {:induction false} SumBound(h: seq<Byte>, n: nat)
    requires n <= |h|
    ensures SumTo(h, n) <= 255 * n
  {
    if n > 0 { SumBound(h, n - 1); }
  }

  function Literal(s: string): seq<Byte>
    requires forall i :: 0 <= i < |s| ==> s[i] as int < 128
  {
    seq(|s|, i requires 0 <= i < |s| => Ch(s[i]))
  }

  const OWNER: seq<Byte> := Literal("0000000")
  const MAGIC: seq<Byte> := Literal("ustar")
  const ROOT: seq<Byte> := Literal("root")
  const MTIME: nat := 1136102400

  function Mode(typ: Byte): nat { if typ == REGULAR then 420 else 493 }   // 0644 and 0755

  /** A C int as printf's %o takes it. */
  function AsUnsigned(size: int): nat { size % ULONG_LIMIT }

  /** The fields before the checksum. */
  function Front(name: seq<Byte>, typ: Byte, size: int): seq<Byte>
    requires |name| < NAME_SIZE && |OctalText(Mode(typ), 7)| == 7
    requires |OctalText(AsUnsigned(size), 11)| == 11 && |OctalText(MTIME, 11)| == 11
  {
    Padded(name, NAME_SIZE) + Padded(OctalText(Mode(typ), 7), 8) + Padded(OWNER, 8) + Padded(OWNER, 8)
    + Padded(OctalText(AsUnsigned(size), 11), 12) + Padded(OctalText(MTIME, 11), 12)
  }

  /** The fields after it: type, link name, magic, version, user, group, device, prefix and padding. */
  function Back(typ: Byte): seq<Byte> {
    [typ] + Nulls(100) + Padded(MAGIC, 6) + [ZERO, ZERO] + Padded(ROOT, 32) + Padded(ROOT, 32) + Nulls(183)
  }

  /** What fits in the checksum and mode fields, and in the size and time fields. */
  lemma FieldLimits()
    ensures Pow8(7) == 0x20_0000 && Pow8(11) == 0x2_0000_0000
  {
    assert Pow8(3) == 512;
    assert Pow8(5) == 64 * Pow8(3);
    assert Pow8(7) == 64 * Pow8(5);
    assert Pow8(9) == 64 * Pow8(7);
  }

  lemma FieldsFit(typ: Byte, size: int)
    ensures |OctalText(Mode(typ), 7)| == 7
    ensures |OctalText(AsUnsigned(size), 11)| == 11 && |OctalText(MTIME, 11)| == 11
    ensures AsUnsigned(size) < Pow8(11)
  {
    FieldLimits();
    var n := OctalTextIs(Mode(typ), 7);
    n := OctalTextIs(AsUnsigned(size), 11);
    n := OctalTextIs(MTIME, 11);
  }

  const CHKSUM_DIGITS: nat := 7
  const BACK_SIZE: nat := 356

  lemma ChksumFits(h: seq<Byte>)
    requires |h| == HEADER_SIZE
    ensures SumTo(h, HEADER_SIZE) < Pow8(7) && SumTo(h, HEADER_SIZE) < ULONG_LIMIT
    ensures |OctalText(SumTo(h, HEADER_SIZE), CHKSUM_DIGITS)| == CHKSUM_DIGITS
  {
    SumBound(h, HEADER_SIZE);
    FieldLimits();
    var n := OctalTextIs(SumTo(h, HEADER_SIZE), CHKSUM_DIGITS);
  }

  /** The checksum of a header of these two halves. */
  ghost function Chksum(front: seq<Byte>, back: seq<Byte>): nat
    requires |front| == CHKSUM_AT && |back| == BACK_SIZE
  {
    SumTo(front + Nulls(CHKSUM_SIZE) + back, HEADER_SIZE)
  }

  /** The two halves with the checksum between them. */
  ghost function Summed(front: seq<Byte>, back: seq<Byte>): (h: seq<Byte>)
    requires |front| == CHKSUM_AT && |back| == BACK_SIZE
    ensures |h| == HEADER_SIZE
  {
    ChksumFits(front + Nulls(CHKSUM_SIZE) + back);
    front + Padded(OctalText(Chksum(front, back), CHKSUM_DIGITS), CHKSUM_SIZE) + back
  }

  /** The header of a file of a name already stripped. */
  ghost function Header(name: seq<Byte>, typ: Byte, size: int): (h: seq<Byte>)
    requires |name| < NAME_SIZE
    ensures |h| == HEADER_SIZE
  {
    FieldsFit(typ, size);
    Summed(Front(name, typ, size), Back(typ))
  }

  // ----- parsing -----

  datatype Error =
    | NotUstar | InvalidVersion | CorruptChksum | ChksumMismatch
    | NameTooLong | UnimplementedType | CorruptSize | TooLarge

  datatype Parsed = EndOfArchive | Entry(name: seq<Byte>, typ: Byte, size: nat) | Failure(error: Error)

  /** The string that begins a field. */
  function CString(s: seq<Byte>): seq<Byte> {
    if s == [] || s[0] == 0 then [] else [s[0]] + CString(s[1..])
  }

  predicate AllNull(s: seq<Byte>) { forall i :: 0 <= i < |s| ==> s[i] == 0 }

  /** The rest of parsing, once the checksum is right. */
  function ParseEntry(h: seq<Byte>): Parsed
    requires |h| == HEADER_SIZE
  {
    if h[NAME_SIZE - 1] != 0 || h[345] != 0 then Failure(NameTooLong)
    else if h[156] != REGULAR && h[156] != DIRECTORY then Failure(UnimplementedType)
    else if h[156] == REGULAR then
      match OctalRest(h[124..136], false, 0)
      case None => Failure(CorruptSize)
      case Some(n) => if n > INT_MAX then Failure(TooLarge) else Entry(Stripped(CString(h[..NAME_SIZE])), REGULAR, n)
    else Entry(Stripped(CString(h[..NAME_SIZE])), DIRECTORY, 0)
  }

  function Parse(h: seq<Byte>): Parsed
    requires |h| == HEADER_SIZE
  {
    if AllNull(h) then EndOfArchive
    else if h[257..263] != MAGIC + [0] then Failure(NotUstar)
    else if h[263..265] != [ZERO, ZERO] then Failure(InvalidVersion)
    else
      match OctalRest(h[CHKSUM_AT..CHKSUM_AT + CHKSUM_SIZE], false, 0)
      case None => Failure(CorruptChksum)
      case Some(c) => if c != SumTo(h, HEADER_SIZE) then Failure(ChksumMismatch) else ParseEntry(h)
  }

  lemma {:induction false} CStringOfPadded(t: seq<Byte>, n: nat)
    requires NoNul(t) && |t| < n
    ensures CString(Padded(t, n)) == t
  {
    if t != [] {
      CStringOfPadded(t[1..], n - 1);
      assert Padded(t, n)[1..] == Padded(t[1..], n - 1);
    }
  }

  lemma FrontFields(name: seq<Byte>, typ: Byte, size: int)
    requires |name| < NAME_SIZE && |OctalText(Mode(typ), 7)| == 7
    requires |OctalText(AsUnsigned(size), 11)| == 11 && |OctalText(MTIME, 11)| == 11
    ensures var f := Front(name, typ, size);
      && |f| == CHKSUM_AT && f[..NAME_SIZE] == Padded(name, NAME_SIZE)
      && f[124..136] == OctalText(AsUnsigned(size), 11) + [0]
  {
  }

  lemma BackFields(typ: Byte)
    ensures var b := Back(typ);
      |b| == BACK_SIZE && b[0] == typ && b[101..107] == MAGIC + [0] && b[107..109] == [ZERO, ZERO] && b[189] == 0
  {
  }

  /** Where the fields of the two halves are in the whole. */
  lemma Slices(front: seq<Byte>, f: seq<Byte>, back: seq<Byte>)
    requires |front| == CHKSUM_AT && |f| == CHKSUM_SIZE && |back| == BACK_SIZE
    ensures var h := front + f + back;
      && h[..NAME_SIZE] == front[..NAME_SIZE]
      && h[124..136] == front[124..136] && h[NAME_SIZE - 1] == front[NAME_SIZE - 1]
      && h[CHKSUM_AT..CHKSUM_AT + CHKSUM_SIZE] == f
      && h[156] == back[0] && h[257..263] == back[101..107] && h[263..265] == back[107..109] && h[345] == back[189]
  {
  }

  /** The checksum field of a header holds the header's own checksum. */
  lemma ChksumAgrees(front: seq<Byte>, back: seq<Byte>)
    requires |front| == CHKSUM_AT && |back| == BACK_SIZE
    ensures var h := Summed(front, back);
      OctalRest(h[CHKSUM_AT..CHKSUM_AT + CHKSUM_SIZE], false, 0) == Some(SumTo(h, HEADER_SIZE))
  {
    var u, h, sum := front + Nulls(CHKSUM_SIZE) + back, Summed(front, back), Chksum(front, back);
    ChksumFits(u);
    var text := OctalText(sum, CHKSUM_DIGITS);
    SumIgnoresField(u, h, HEADER_SIZE);
    Slices(front, Padded(text, CHKSUM_SIZE), back);
    assert Padded(text, CHKSUM_SIZE) == text + [0];
    OctalRoundTrip(sum, CHKSUM_DIGITS, [0]);
  }

  /** A header whose halves hold the right fields is parsed as far as its entry. */
  lemma ParsedToEntry(front: seq<Byte>, back: seq<Byte>)
    requires |front| == CHKSUM_AT && |back| == BACK_SIZE && back[0] != 0
    requires back[101..107] == MAGIC + [0] && back[107..109] == [ZERO, ZERO]
    ensures Parse(Summed(front, back)) == ParseEntry(Summed(front, back))
  {
    var h, text := Summed(front, back), OctalText(Chksum(front, back), CHKSUM_DIGITS);
    ChksumFits(front + Nulls(CHKSUM_SIZE) + back);
    ChksumAgrees(front, back);
    Slices(front, Padded(text, CHKSUM_SIZE), back);
    assert h[156] != 0;
  }

  lemma EntryParsed(front: seq<Byte>, back: seq<Byte>, t: seq<Byte>, size: nat)
    requires |front| == CHKSUM_AT && |back| == BACK_SIZE && back[0] in {REGULAR, DIRECTORY} && back[189] == 0
    requires NoNul(t) && |t| < NAME_SIZE && Stripped(t) == t && front[..NAME_SIZE] == Padded(t, NAME_SIZE)
    requires OctalRest(front[124..136], false, 0) == Some(size)
    ensures ParseEntry(Summed(front, back)) ==
      if back[0] == DIRECTORY then Entry(t, DIRECTORY, 0)
      else if size <= INT_MAX then Entry(t, REGULAR, size) else Failure(TooLarge)
  {
    var text := OctalText(Chksum(front, back), CHKSUM_DIGITS);
    ChksumFits(front + Nulls(CHKSUM_SIZE) + back);
    Slices(front, Padded(text, CHKSUM_SIZE), back);
    CStringOfPadded(t, NAME_SIZE);
    assert front[NAME_SIZE - 1] == front[..NAME_SIZE][NAME_SIZE - 1] == 0;
  }

  lemma UnsignedSize(size: int)
    requires -0x8000_0000 <= size <= INT_MAX
    ensures size >= 0 ==> AsUnsigned(size) == size
    ensures size < 0 ==> AsUnsigned(size) > INT_MAX
  {
  }

  lemma MadeParsed(t: seq<Byte>, typ: Byte, size: int)
    requires NoNul(t) && |t| < NAME_SIZE && Stripped(t) == t && typ in {REGULAR, DIRECTORY}
    ensures Parse(Header(t, typ, size)) ==
      if typ == DIRECTORY then Entry(t, DIRECTORY, 0)
      else if AsUnsigned(size) <= INT_MAX then Entry(t, REGULAR, AsUnsigned(size)) else Failure(TooLarge)
  {
    FieldsFit(typ, size);
    FrontFields(t, typ, size);
    BackFields(typ);
    var n := AsUnsigned(size);
    OctalRoundTrip(n, 11, [0]);
    var front, back := Front(t, typ, size), Back(typ);
    ParsedToEntry(front, back);
    EntryParsed(front, back, t, n);
  }

  /** Parsing undoes making, for every name that fits, both types and every size an int can hold; a negative
      size, which is printed as a large one, is refused. */
  lemma ParseUndoesMake(name: seq<Byte>, typ: Byte, size: int)
    requires NoNul(name) && |Stripped(name)| < NAME_SIZE && typ in {REGULAR, DIRECTORY}
    requires -0x8000_0000 <= size <= INT_MAX
    ensures Parse(Header(Stripped(name), typ, size)) ==
      if typ == DIRECTORY then Entry(Stripped(name), typ, 0)
      else if size >= 0 then Entry(Stripped(name), typ, size)
      else Failure(TooLarge)
  {
    var t := Stripped(name);
    StrippedIsSafe(name);
    StrippedTwice(name);
    MadeParsed(t, typ, size);
    UnsignedSize(size);
  }

  // ----- making and parsing in place -----

  /** strlcpy and snprintf into a field of `n` bytes: as much of the text as fits, and a null byte. */
  method PutText(h: array<Byte>, n: nat, t: seq<Byte>, ghost a: seq<Byte>, at: nat, ghost b: seq<Byte>)
    requires n > 0 && |t| < n && |a| == at && h[..] == a + Nulls(n) + b
    modifies h
    ensures h[..] == a + Padded(t, n) + b
  {
    var len := if |t| < n - 1 then |t| else n - 1;
    forall i | at <= i < at + len {
      h[i] := t[i - at];
    }
    h[at + len] := 0;
    assert h[..] == a + Padded(t, n) + b;
  }

  lemma SplitNulls(m: nat, n: nat)
    ensures Nulls(m + n) == Nulls(m) + Nulls(n)
  {
  }

  /** Puts a text into the first field of what is still null. */
  method PutNext(h: array<Byte>, n: nat, t: seq<Byte>, ghost a: seq<Byte>, at: nat)
    requires n > 0 && |t| < n && |a| == at && at + n <= HEADER_SIZE && h[..] == a + Nulls(HEADER_SIZE - at)
    modifies h
    ensures h[..] == (a + Padded(t, n)) + Nulls(HEADER_SIZE - at - n)
  {
    SplitNulls(n, HEADER_SIZE - at - n);
    assert a + Nulls(HEADER_SIZE - at) == a + Nulls(n) + Nulls(HEADER_SIZE - at - n);
    PutText(h, n, t, a, at, Nulls(HEADER_SIZE - at - n));
  }

  method PutFront(h: array<Byte>, name: seq<Byte>, typ: Byte, size: int)
    requires h.Length == HEADER_SIZE && |name| < NAME_SIZE && h[..] == Nulls(HEADER_SIZE)
    requires |OctalText(Mode(typ), 7)| == 7
    requires |OctalText(AsUnsigned(size), 11)| == 11 && |OctalText(MTIME, 11)| == 11
    modifies h
    ensures h[..] == Front(name, typ, size) + Nulls(HEADER_SIZE - CHKSUM_AT)
  {
    assert h[..] == [] + Nulls(HEADER_SIZE);
    PutNext(h, NAME_SIZE, name, [], 0);
    ghost var a := Padded(name, NAME_SIZE);
    assert [] + a == a;
    PutNext(h, 8, OctalText(Mode(typ), 7), a, 100);
    a := a + Padded(OctalText(Mode(typ), 7), 8);
    PutNext(h, 8, OWNER, a, 108);
    a := a + Padded(OWNER, 8);
    PutNext(h, 8, OWNER, a, 116);
    a := a + Padded(OWNER, 8);
    PutNext(h, 12, OctalText(AsUnsigned(size), 11), a, 124);
    a := a + Padded(OctalText(AsUnsigned(size), 11), 12);
    PutNext(h, 12, OctalText(MTIME, 11), a, 136);
  }

  method PutOwners(h: array<Byte>, ghost a: seq<Byte>)
    requires h.Length == HEADER_SIZE && |a| == 265 && h[..] == a + Nulls(247)
    modifies h
    ensures h[..] == a + (Padded(ROOT, 32) + (Padded(ROOT, 32) + Nulls(183)))
  {
    ghost var b := Padded(ROOT, 32) + Nulls(183);
    SplitNulls(32, 215);
    assert h[..] == (a + Nulls(32)) + Nulls(215);
    PutNext(h, 32, ROOT, a + Nulls(32), 297);
    assert h[..] == a + Nulls(32) + b;
    PutText(h, 32, ROOT, a, 265, b);
  }

  lemma BackIs(front: seq<Byte>, typ: Byte)
    ensures front + Nulls(CHKSUM_SIZE) + [typ] + Nulls(100) + Padded(MAGIC, 6) + [ZERO, ZERO]
      + (Padded(ROOT, 32) + (Padded(ROOT, 32) + Nulls(183))) == front + Nulls(CHKSUM_SIZE) + Back(typ)
  {
  }

  method PutBack(h: array<Byte>, typ: Byte, ghost front: seq<Byte>)
    requires h.Length == HEADER_SIZE && |front| == CHKSUM_AT && h[..] == front + Nulls(HEADER_SIZE - CHKSUM_AT)
    modifies h
    ensures h[..] == front + Nulls(CHKSUM_SIZE) + Back(typ)
  {
    h[156] := typ;
    ghost var a := front + Nulls(CHKSUM_SIZE) + [typ] + Nulls(100);
    assert h[..] == a + Nulls(255);
    PutNext(h, 6, MAGIC, a, 257);
    a := a + Padded(MAGIC, 6);
    h[263], h[264] := ZERO, ZERO;
    a := a + [ZERO, ZERO];
    assert h[..] == a + Nulls(247);
    PutOwners(h, a);
    BackIs(front, typ);
  }

  /** Makes the header of a file, if its stripped name is not too long. */
  method MakeHeader(name: seq<Byte>, typ: Byte, size: int, h: array<Byte>) returns (ok: bool)
    requires h.Length == HEADER_SIZE && NoNul(name) && typ in {REGULAR, DIRECTORY}
    modifies h
    ensures ok == (|Stripped(name)| < NAME_SIZE)
    ensures ok ==> h[..] == Header(Stripped(name), typ, size)
    ensures !ok ==> h[..] == old(h[..])
  {
    var fileName := StripPrefixes(name);
    if |fileName| > 99 { return false; }
    forall i | 0 <= i < HEADER_SIZE { h[i] := 0; }
    assert h[..] == Nulls(HEADER_SIZE);
    FieldsFit(typ, size);
    PutFront(h, fileName, typ, size);
    ghost var front, back := Front(fileName, typ, size), Back(typ);
    PutBack(h, typ, front);
    var chksum := CalculateChksum(h);
    ChksumFits(h[..]);
    PutText(h, CHKSUM_SIZE, OctalText(chksum, CHKSUM_DIGITS), front, CHKSUM_AT, back);
    return true;
  }

  method IsAllZeros(h: array<Byte>) returns (r: bool)
    ensures r == AllNull(h[..])
  {
    var i := 0;
    while i < h.Length
      invariant i <= h.Length && forall k :: 0 <= k < i ==> h[k] == 0
    {
      if h[i] != 0 { return false; }
      i := i + 1;
    }
    return true;
  }

  /** Parses a header, or says that it ends the archive or what is wrong with it. */
  method ParseHeader(h: array<Byte>) returns (r: Parsed)
    requires h.Length == HEADER_SIZE
    ensures r == Parse(h[..])
  {
    var zeros := IsAllZeros(h);
    if zeros { return EndOfArchive; }
    if h[257..263] != MAGIC + [0] { return Failure(NotUstar); }
    if h[263] != ZERO || h[264] != ZERO { return Failure(InvalidVersion); }
    var chksum := ParseOctalField(h[CHKSUM_AT..CHKSUM_AT + CHKSUM_SIZE]);
    if chksum.None? { return Failure(CorruptChksum); }
    var sum := CalculateChksum(h);
    if chksum.value != sum { return Failure(ChksumMismatch); }
    if h[NAME_SIZE - 1] != 0 || h[345] != 0 { return Failure(NameTooLong); }
    if h[156] != REGULAR && h[156] != DIRECTORY { return Failure(UnimplementedType); }
    var size := 0;
    if h[156] == REGULAR {
      var n := ParseOctalField(h[124..136]);
      if n.None? { return Failure(CorruptSize); }
      if n.value > INT_MAX { return Failure(TooLarge); }
      size := n.value;
    }
    var name := StripPrefixes(CString(h[..NAME_SIZE]));
    return Entry(name, h[156], size);
  }
}
