/** Integer conversions of printf and their inverse, atoi. Text is a sequence of bytes. */
module Printf {

  import opened Arithmetic
  import opened PowerOfTwo
  import opened SectorWords

  function Ch(c: char): Byte
    requires c as int < 128
  {
    c as int
  }

  const MINUS_SIGN: Byte := Ch('-')
  const PLUS_SIGN: Byte := Ch('+')
  const SPACE: Byte := Ch(' ')
  const ZERO: Byte := Ch('0')
  const COMMA: Byte := Ch(',')

  datatype Flags = Flags(minus: bool, plus: bool, space: bool, pound: bool, zero: bool, group: bool)

  /** A conversion; precision -1 is none. */
  datatype Conversion = Conversion(flags: Flags, width: int, precision: int)

  /** A base: `x` is the letter of its prefix, or 0, and `upper` says which letters are its digits. */
  datatype Base = Base(base: nat, upper: bool, x: Byte, group: nat)

  const BASE_D: Base := Base(10, false, 0, 3)
  const BASE_O: Base := Base(8, false, 0, 3)
  const BASE_X: Base := Base(16, false, Ch('x'), 4)
  const BASE_UPPER_X: Base := Base(16, true, Ch('X'), 4)

  ghost predicate IsBase(b: Base) { b in {BASE_D, BASE_O, BASE_X, BASE_UPPER_X} }

  function DigitOf(b: Base, d: nat): Byte
    requires d < b.base <= 16
  {
    if d < 10 then ZERO + d else if b.upper then Ch('A') + (d - 10) else Ch('a') + (d - 10)
  }

  // ----- what is printed -----

  function SignText(isSigned: bool, negative: bool, f: Flags): seq<Byte> {
    if !isSigned then []
    else if f.plus then [if negative then MINUS_SIGN else PLUS_SIGN]
    else if f.space then [if negative then MINUS_SIGN else SPACE]
    else if negative then [MINUS_SIGN] else []
  }

  lemma DivLess(v: nat, d: nat)
    requires v > 0 && d >= 2
    ensures 0 <= v / d < v
  {
    var q := v / d;
    assert q * d <= v;
    if q > 0 { assert q * d >= q * 2; }
  }

  lemma DivByMore(v: nat, c: nat, d: nat)
    requires 0 < c <= d
    ensures v / d <= v / c
  {
    var q, p := v / d, v / c;
    DivBounds(v, d);
    DivBounds(v, c);
    MulMonotone(c, d, q);
    MulCancelLess(q, p + 1, c);
  }

  /** The last digit of `v`, after `cnt` digits, and the comma of the grouping flag. */
  function NextDigit(v: nat, b: Base, grouped: bool, cnt: nat): seq<Byte>
    requires 2 <= b.base <= 16 && b.group > 0
  {
    (if grouped && cnt > 0 && cnt % b.group == 0 then [COMMA] else []) + [DigitOf(b, v % b.base)]
  }

  /** The digits of `v`, least significant first, after `cnt` digits, with the commas of the grouping flag. */
  function Reversed(v: nat, b: Base, grouped: bool, cnt: nat): seq<Byte>
    requires 2 <= b.base <= 16 && b.group > 0
    decreases v
  {
    if v == 0 then []
    else
      DivLess(v, b.base);
      NextDigit(v, b, grouped, cnt) + Reversed(v / b.base, b, grouped, cnt + 1)
  }

  function Repeat(c: Byte, n: nat): (r: seq<Byte>)
    ensures |r| == n && forall i :: 0 <= i < n ==> r[i] == c
  {
    seq(n, _ => c)
  }

  function Backwards(s: seq<Byte>): (r: seq<Byte>)
    ensures |r| == |s| && forall i :: 0 <= i < |s| ==> r[i] == s[|s| - 1 - i]
  {
    seq(|s|, i requires 0 <= i < |s| => s[|s| - 1 - i])
  }

  const BUF_SIZE: nat := 64

  /** Digits with zeros up to the precision, as far as the buffer allows. */
  function Precise(digits: seq<Byte>, c: Conversion): seq<Byte> {
    var precision := if c.precision < 0 then 1 else c.precision;
    var n := if precision < BUF_SIZE - 1 then precision else BUF_SIZE - 1;
    if |digits| < n then digits + Repeat(ZERO, n - |digits|) else digits
  }

  /** The digit buffer: the digits, zeros up to the precision, and a zero for `#o` that does not begin with one. */
  function Buffer(v: nat, b: Base, c: Conversion): seq<Byte>
    requires 2 <= b.base <= 16 && b.group > 0
  {
    var s := Precise(Reversed(v, b, c.flags.group, 0), c);
    if c.flags.pound && b.base == 8 && (s == [] || s[|s| - 1] != ZERO) then s + [ZERO] else s
  }

  function Prefix(v: nat, b: Base, f: Flags): seq<Byte> {
    if f.pound && v > 0 && b.x != 0 then [ZERO, b.x] else []
  }

  function PadCount(v: nat, isSigned: bool, negative: bool, b: Base, c: Conversion): nat
    requires 2 <= b.base <= 16 && b.group > 0
  {
    var pad := c.width - |Buffer(v, b, c)| - |Prefix(v, b, c.flags)| - |SignText(isSigned, negative, c.flags)|;
    if pad < 0 then 0 else pad
  }

  /** The text of an integer conversion. */
  function Text(v: nat, isSigned: bool, negative: bool, b: Base, c: Conversion): seq<Byte>
    requires 2 <= b.base <= 16 && b.group > 0
  {
    var pad := PadCount(v, isSigned, negative, b, c);
    Repeat(SPACE, if !c.flags.minus && !c.flags.zero then pad else 0)
    + SignText(isSigned, negative, c.flags)
    + Prefix(v, b, c.flags)
    + Repeat(ZERO, if c.flags.zero then pad else 0)
    + Backwards(Buffer(v, b, c))
    + Repeat(SPACE, if c.flags.minus then pad else 0)
  }

  ghost function Pow8(k: nat): nat { if k == 0 then 1 else 8 * Pow8(k - 1) }

  lemma {:induction false} Pow8Is(k: nat)
    ensures Pow8(k) == Pow2(3 * k)
  {
    if k > 0 {
      Pow8Is(k - 1);
      Pow2Add(3, 3 * (k - 1));
      assert Pow2(3) == 8;
    }
  }

  lemma OneDigitLess(v: nat, base: nat, p: nat)
    requires v < 8 * p && base >= 8
    ensures v / base < p
  {
    DivByMore(v, 8, base);
  }

  lemma DigitAndComma(v: nat, b: Base, grouped: bool, cnt: nat)
    requires v > 0 && 2 <= b.base <= 16 && b.group > 0
    ensures |Reversed(v, b, grouped, cnt)| <= 2 + |Reversed(v / b.base, b, grouped, cnt + 1)|
  {
  }

  /** A number below 8^k has at most k digits, each with at most a comma. */
  lemma {:induction false} DigitsBound(v: nat, b: Base, grouped: bool, cnt: nat, k: nat)
    requires 8 <= b.base <= 16 && b.group > 0 && v < Pow8(k)
    ensures |Reversed(v, b, grouped, cnt)| <= 2 * k
    decreases k
  {
    if v > 0 {
      OneDigitLess(v, b.base, Pow8(k - 1));
      DigitsBound(v / b.base, b, grouped, cnt + 1, k - 1);
      DigitAndComma(v, b, grouped, cnt);
    }
  }

  lemma SixtyFourBits(v: U64, b: Base, grouped: bool)
    requires 8 <= b.base <= 16 && b.group > 0
    ensures |Reversed(v, b, grouped, 0)| <= 44
  {
    Pow2Values();
    Pow2Add(32, 32);
    Pow2Monotone(64, 66);
    Pow8Is(22);
    DigitsBound(v, b, grouped, 0, 22);
  }

  /** The digit buffer is never overrun: at every base and under every flag it holds at most its 64 bytes. */
  lemma BufferFits(v: U64, b: Base, c: Conversion)
    requires IsBase(b)
    ensures |Buffer(v, b, c)| <= BUF_SIZE
  {
    SixtyFourBits(v, b, c.flags.group);
  }

  method PutDigit(v: nat, b: Base, grouped: bool, digitCnt: nat, buf: array<Byte>, at: nat) returns (cp: nat)
    requires 2 <= b.base <= 16 && b.group > 0 && at + |NextDigit(v, b, grouped, digitCnt)| <= buf.Length
    modifies buf
    ensures cp <= buf.Length && buf[..cp] == old(buf[..at]) + NextDigit(v, b, grouped, digitCnt)
  {
    cp := at;
    if grouped && digitCnt > 0 && digitCnt % b.group == 0 {
      buf[cp] := COMMA;
      cp := cp + 1;
    }
    buf[cp] := DigitOf(b, v % b.base);
    cp := cp + 1;
  }

  /** Fills the buffer with the digits, least significant first. */
  method FillDigits(value: U64, b: Base, grouped: bool, buf: array<Byte>) returns (cp: nat)
    requires 8 <= b.base <= 16 && b.group > 0 && buf.Length == BUF_SIZE
    modifies buf
    ensures cp <= 44 && buf[..cp] == Reversed(value, b, grouped, 0)
  {
    var v: nat, digitCnt: nat := value, 0;
    cp := 0;
    SixtyFourBits(value, b, grouped);
    ghost var all := Reversed(value, b, grouped, 0);
    while v > 0
      invariant cp <= BUF_SIZE && buf[..cp] + Reversed(v, b, grouped, digitCnt) == all
      decreases v
    {
      DivLess(v, b.base);
      ghost var done, next := buf[..cp], NextDigit(v, b, grouped, digitCnt);
      ghost var rest := Reversed(v / b.base, b, grouped, digitCnt + 1);
      assert all == done + (next + rest) == (done + next) + rest;
      cp := PutDigit(v, b, grouped, digitCnt, buf, cp);
      v := v / b.base;
      digitCnt := digitCnt + 1;
    }
  }

  /** The zeros that the precision asks for. */
  method AddPrecision(c: Conversion, buf: array<Byte>, filled: nat) returns (cp: nat)
    requires buf.Length == BUF_SIZE && filled <= 44
    modifies buf
    ensures cp < BUF_SIZE && buf[..cp] == Precise(old(buf[..filled]), c)
  {
    cp := filled;
    var precision := if c.precision < 0 then 1 else c.precision;
    ghost var digits := buf[..filled];
    while cp < precision && cp < BUF_SIZE - 1
      invariant filled <= cp < BUF_SIZE && (cp > filled ==> cp <= precision)
      invariant buf[..cp] == digits + Repeat(ZERO, cp - filled)
    {
      buf[cp] := ZERO;
      cp := cp + 1;
      assert Repeat(ZERO, cp - filled) == Repeat(ZERO, cp - filled - 1) + [ZERO];
    }
    assert digits + Repeat(ZERO, 0) == digits;
  }

  /** The zeros that precision and the `#` flag ask for. */
  method AddZeros(b: Base, c: Conversion, buf: array<Byte>, filled: nat, ghost value: U64) returns (cp: nat)
    requires 8 <= b.base <= 16 && b.group > 0 && buf.Length == BUF_SIZE && filled <= 44
    requires buf[..filled] == Reversed(value, b, c.flags.group, 0)
    modifies buf
    ensures cp <= BUF_SIZE && buf[..cp] == Buffer(value, b, c)
  {
    cp := AddPrecision(c, buf, filled);
    if c.flags.pound && b.base == 8 && (cp == 0 || buf[cp - 1] != ZERO) {
      buf[cp] := ZERO;
      cp := cp + 1;
    }
  }

  method EmitBackwards(buf: array<Byte>, n: nat) returns (r: seq<Byte>)
    requires n <= buf.Length
    ensures r == Backwards(buf[..n])
  {
    var cp := n;
    r := [];
    while cp > 0
      invariant 0 <= cp <= n && |r| == n - cp
      invariant forall i :: 0 <= i < |r| ==> r[i] == buf[n - 1 - i]
    {
      cp := cp - 1;
      r := r + [buf[cp]];
    }
  }

  /** The digits and zeros, most significant first. */
  method RenderDigits(value: U64, b: Base, c: Conversion) returns (r: seq<Byte>)
    requires IsBase(b)
    ensures r == Backwards(Buffer(value, b, c))
  {
    var buf := new Byte[BUF_SIZE];
    var cp := FillDigits(value, b, c.flags.group, buf);
    cp := AddZeros(b, c, buf, cp, value);
    r := EmitBackwards(buf, cp);
  }

  method OutputDup(c: Byte, cnt: nat) returns (r: seq<Byte>)
    ensures r == Repeat(c, cnt)
  {
    r := [];
    while |r| < cnt
      invariant |r| <= cnt && r == Repeat(c, |r|)
    {
      r := r + [c];
    }
  }

  /** Prints an integer: `output` is the sequence of the characters put out. */
  method FormatInteger(value: U64, isSigned: bool, negative: bool, b: Base, c: Conversion) returns (output: seq<Byte>)
    requires IsBase(b)
    ensures output == Text(value, isSigned, negative, b, c)
  {
    var sign := SignText(isSigned, negative, c.flags);
    var prefix := Prefix(value, b, c.flags);
    var digits := RenderDigits(value, b, c);
    var padCnt := c.width - |digits| - |prefix| - |sign|;
    if padCnt < 0 { padCnt := 0; }
    assert padCnt == PadCount(value, isSigned, negative, b, c);
    var spaces := OutputDup(SPACE, if !c.flags.minus && !c.flags.zero then padCnt else 0);
    var zeros := OutputDup(ZERO, if c.flags.zero then padCnt else 0);
    var after := OutputDup(SPACE, if c.flags.minus then padCnt else 0);
    output := spaces + sign + prefix + zeros + digits + after;
  }

  // ----- atoi -----

  predicate IsSpace(c: Byte) { c == SPACE || 9 <= c <= 13 }

  predicate IsDigit(c: Byte) { ZERO <= c <= ZERO + 9 }

  /** A result of 32-bit signed arithmetic. */
  function Wrap32(x: int): int { (x + 0x8000_0000) % 0x1_0000_0000 - 0x8000_0000 }

  function SkipSpace(s: seq<Byte>): seq<Byte> {
    if s != [] && IsSpace(s[0]) then SkipSpace(s[1..]) else s
  }

  /** The value, kept negative, of the digits `s` begins with, after those that made `value`. */
  function ParseDigits(s: seq<Byte>, value: int): int {
    if s != [] && IsDigit(s[0]) then ParseDigits(s[1..], Wrap32(value * 10 - (s[0] - ZERO))) else value
  }

  function ValueOf(s: seq<Byte>): int {
    var t := SkipSpace(s);
    if t != [] && t[0] == PLUS_SIGN then Wrap32(-ParseDigits(t[1..], 0))
    else if t != [] && t[0] == MINUS_SIGN then ParseDigits(t[1..], 0)
    else Wrap32(-ParseDigits(t, 0))
  }

  method Atoi(s: seq<Byte>) returns (r: int)
    ensures r == ValueOf(s)
  {
    var i := 0;
    while i < |s| && IsSpace(s[i])
      invariant i <= |s| && SkipSpace(s[i..]) == SkipSpace(s)
    {
      i := i + 1;
    }
    var negative := false;
    ghost var t := s[i..];
    if i < |s| && s[i] == PLUS_SIGN {
      i := i + 1;
    } else if i < |s| && s[i] == MINUS_SIGN {
      negative := true;
      i := i + 1;
    }
    ghost var u := s[i..];
    var value := 0;
    while i < |s| && IsDigit(s[i])
      invariant i <= |s| && ParseDigits(s[i..], value) == ParseDigits(u, 0)
    {
      value := Wrap32(value * 10 - (s[i] - ZERO));
      i := i + 1;
    }
    r := if negative then value else Wrap32(-value);
  }

  /** The digits of `v` in a base up to ten, most significant first; none for zero. */
  ghost function Numeral(v: nat, base: nat): seq<Byte>
    requires 2 <= base <= 10
    decreases v
  {
    if v == 0 then [] else
      DivLess(v, base);
      Numeral(v / base, base) + [ZERO + v % base]
  }

  lemma {:induction false} ReversedIsNumeral(v: nat, b: Base, cnt: nat)
    requires 2 <= b.base <= 10 && b.group > 0
    ensures Backwards(Reversed(v, b, false, cnt)) == Numeral(v, b.base)
    decreases v
  {
    if v > 0 {
      DivLess(v, b.base);
      ReversedIsNumeral(v / b.base, b, cnt + 1);
      var d, rest := DigitOf(b, v % b.base), Reversed(v / b.base, b, false, cnt + 1);
      assert Reversed(v, b, false, cnt) == [d] + rest;
      assert Backwards([d] + rest) == Backwards(rest) + [d];
    }
  }

  lemma {:induction false} SpacesSkipped(n: nat, t: seq<Byte>)
    ensures SkipSpace(Repeat(SPACE, n) + t) == SkipSpace(t)
  {
    var s := Repeat(SPACE, n) + t;
    if n > 0 {
      SpacesSkipped(n - 1, t);
      assert s[1..] == Repeat(SPACE, n - 1) + t;
    } else {
      assert s == t;
    }
  }

  lemma {:induction false} ZerosParsed(n: nat, t: seq<Byte>)
    ensures ParseDigits(Repeat(ZERO, n) + t, 0) == ParseDigits(t, 0)
  {
    var s := Repeat(ZERO, n) + t;
    if n > 0 {
      ZerosParsed(n - 1, t);
      assert s[1..] == Repeat(ZERO, n - 1) + t;
    } else {
      assert s == t;
    }
  }

  lemma Regroup(a: seq<Byte>, b: seq<Byte>, c: seq<Byte>)
    ensures (a + b) + c == a + (b + c)
  {
  }

  lemma DigitParsed(v: nat, t: seq<Byte>)
    requires 0 < v <= 0x8000_0000
    ensures ParseDigits([ZERO + v % 10] + t, 0 - v / 10) == ParseDigits(t, 0 - v)
  {
    var s := [ZERO + v % 10] + t;
    assert s[1..] == t;
    assert (0 - v / 10) * 10 - (s[0] - ZERO) == 0 - v;
  }

  /** Parsing the digits of `v` gives `-v`, without wrapping on the way. */
  lemma {:induction false} DecimalParsed(v: nat, t: seq<Byte>)
    requires v <= 0x8000_0000
    ensures ParseDigits(Numeral(v, 10) + t, 0) == ParseDigits(t, 0 - v)
  {
    if v > 0 {
      var d := [ZERO + v % 10];
      DecimalParsed(v / 10, d + t);
      DigitParsed(v, t);
      var head := Numeral(v / 10, 10);
      assert Numeral(v, 10) == head + d;
      Regroup(head, d, t);
    } else {
      assert Numeral(0, 10) + t == t;
    }
  }

  /** The digit part of a decimal conversion: zeros and the digits. */
  lemma DecimalBuffer(v: nat, c: Conversion) returns (n: nat)
    requires !c.flags.group
    ensures Backwards(Buffer(v, BASE_D, c)) == Repeat(ZERO, n) + Numeral(v, 10)
  {
    var digits, s := Reversed(v, BASE_D, false, 0), Buffer(v, BASE_D, c);
    ReversedIsNumeral(v, BASE_D, 0);
    n := |s| - |digits|;
    assert s == digits + Repeat(ZERO, n);
    assert Backwards(s) == Repeat(ZERO, n) + Backwards(digits);
  }

  ghost function Body(zeros: nat, n: nat, m: nat, after: nat): seq<Byte> {
    Repeat(ZERO, zeros) + (Repeat(ZERO, n) + (Numeral(m, 10) + Repeat(SPACE, after)))
  }

  lemma TextParts(before: seq<Byte>, sign: seq<Byte>, zeros: seq<Byte>, more: seq<Byte>, digits: seq<Byte>,
                  after: seq<Byte>)
    ensures before + sign + [] + zeros + (more + digits) + after ==
      before + (sign + (zeros + (more + (digits + after))))
  {
  }

  lemma BodyParsed(zeros: nat, n: nat, m: nat, after: nat)
    requires m <= 0x8000_0000
    ensures ParseDigits(Body(zeros, n, m, after), 0) == 0 - m
  {
    var tail := Repeat(SPACE, after);
    ZerosParsed(zeros, Repeat(ZERO, n) + (Numeral(m, 10) + tail));
    ZerosParsed(n, Numeral(m, 10) + tail);
    DecimalParsed(m, tail);
  }

  lemma LeadingSpaces(n: nat, t: seq<Byte>)
    ensures ValueOf(Repeat(SPACE, n) + t) == ValueOf(t)
  {
    SpacesSkipped(n, t);
  }

  /** What follows the sign: digits, or nothing but spaces. */
  ghost predicate Unsigned(body: seq<Byte>) {
    body == [] || IsDigit(body[0]) || (IsSpace(body[0]) && SkipSpace(body) == [])
  }

  lemma NoSignRead(body: seq<Byte>, m: nat)
    requires Unsigned(body) && ParseDigits(body, 0) == 0 - m && m < 0x8000_0000
    ensures ValueOf(body) == m
  {
    var t := SkipSpace(body);
    assert ParseDigits(t, 0) == 0 - m;
    assert Wrap32(m) == m;
  }

  lemma SpaceRead(body: seq<Byte>)
    ensures ValueOf([SPACE] + body) == ValueOf(body)
  {
    assert ([SPACE] + body)[1..] == body;
  }

  lemma PlusRead(body: seq<Byte>, m: nat)
    requires ParseDigits(body, 0) == 0 - m && m < 0x8000_0000
    ensures ValueOf([PLUS_SIGN] + body) == m
  {
    assert ([PLUS_SIGN] + body)[1..] == body;
    assert Wrap32(m) == m;
  }

  lemma MinusRead(body: seq<Byte>)
    ensures ValueOf([MINUS_SIGN] + body) == ParseDigits(body, 0)
  {
    assert ([MINUS_SIGN] + body)[1..] == body;
  }

  lemma SignRead(body: seq<Byte>, m: nat, negative: bool, f: Flags)
    requires ParseDigits(body, 0) == 0 - m && Unsigned(body)
    requires m <= 0x8000_0000 && (!negative ==> m < 0x8000_0000)
    ensures ValueOf(SignText(true, negative, f) + body) == if negative then 0 - m else m
  {
    if negative {
      MinusRead(body);
    } else if f.plus {
      PlusRead(body, m);
    } else {
      NoSignRead(body, m);
      if f.space { SpaceRead(body); } else { assert [] + body == body; }
    }
  }

  lemma {:induction false} DecimalHead(v: nat)
    requires v > 0
    ensures Numeral(v, 10) != [] && IsDigit(Numeral(v, 10)[0])
  {
    if v >= 10 { DecimalHead(v / 10); }
  }

  lemma BodyStart(zeros: nat, n: nat, m: nat, after: nat)
    ensures Unsigned(Body(zeros, n, m, after))
  {
    var tail := Repeat(SPACE, after);
    var body := Repeat(ZERO, zeros) + (Repeat(ZERO, n) + (Numeral(m, 10) + tail));
    if zeros == 0 && n == 0 {
      if m == 0 {
        assert body == tail + [];
        SpacesSkipped(after, []);
      } else {
        DecimalHead(m);
        assert body == Numeral(m, 10) + tail;
      }
    } else if zeros == 0 {
      assert body == Repeat(ZERO, n) + (Numeral(m, 10) + tail);
    }
  }

  /** atoi reads back what %d prints, for every int, whatever the flags, the width and the precision. */
  lemma AtoiUndoesPrint(v: int, c: Conversion)
    requires -0x8000_0000 <= v < 0x8000_0000 && !c.flags.group
    ensures ValueOf(Text(if v < 0 then -v else v, true, v < 0, BASE_D, c)) == v
  {
    var m: nat, negative := if v < 0 then -v else v, v < 0;
    var pad := PadCount(m, true, negative, BASE_D, c);
    var before: nat := if !c.flags.minus && !c.flags.zero then pad else 0;
    var zeros: nat := if c.flags.zero then pad else 0;
    var after: nat := if c.flags.minus then pad else 0;
    var n := DecimalBuffer(m, c);
    var sign, body := SignText(true, negative, c.flags), Body(zeros, n, m, after);
    TextParts(Repeat(SPACE, before), sign, Repeat(ZERO, zeros), Repeat(ZERO, n), Numeral(m, 10), Repeat(SPACE, after));
    BodyParsed(zeros, n, m, after);
    BodyStart(zeros, n, m, after);
    SignRead(body, m, negative, c.flags);
    LeadingSpaces(before, sign + body);
  }
}
