/** What printed integers are: their digits read back in every base, the commas of grouping, and where padding goes;
    and what atoi makes of any text. */
module PrintfLaws {

  import opened Printf
  import opened SectorWords

  // ----- digits -----

  /** The value of a digit of any base up to 16, in either case; none for other characters. */
  ghost function DigitValue(c: Byte): int {
    if Ch('0') <= c <= Ch('9') then c - Ch('0')
    else if Ch('a') <= c <= Ch('f') then c - Ch('a') + 10
    else if Ch('A') <= c <= Ch('F') then c - Ch('A') + 10
    else -1
  }

  /** A digit has its value, and its letter the case of its base. */
  lemma DigitReads(b: Base, d: nat)
    requires d < b.base <= 16
    ensures DigitValue(DigitOf(b, d)) == d
    ensures d >= 10 ==> (Ch('A') <= DigitOf(b, d) <= Ch('F') <==> b.upper)
  {
  }

  /** The value of a numeral, most significant digit first. */
  ghost function NumeralValue(s: seq<Byte>, base: nat): int {
    if s == [] then 0 else NumeralValue(s[..|s| - 1], base) * base + DigitValue(s[|s| - 1])
  }

  /** All characters are digits of the base. */
  ghost predicate IsNumeral(s: seq<Byte>, b: Base) {
    forall i :: 0 <= i < |s| ==>
      0 <= DigitValue(s[i]) < b.base && (DigitValue(s[i]) >= 10 ==> (Ch('A') <= s[i] <= Ch('F') <==> b.upper))
  }

  /** `s` is a numeral of `v` in the base. */
  ghost predicate Reads(s: seq<Byte>, b: Base, v: int) { IsNumeral(s, b) && NumeralValue(s, b.base) == v }

  lemma NumeralNext(s: seq<Byte>, b: Base, d: nat, v: int)
    requires d < b.base <= 16 && Reads(s, b, v)
    ensures Reads(s + [DigitOf(b, d)], b, v * b.base + d)
  {
    DigitReads(b, d);
    var t := s + [DigitOf(b, d)];
    assert t[..|t| - 1] == s;
  }

  lemma BackwardsCons(c: Byte, s: seq<Byte>)
    ensures Backwards([c] + s) == Backwards(s) + [c]
  {
  }

  lemma DigitBefore(v: nat, b: Base, cnt: nat)
    requires 2 <= b.base <= 16 && b.group > 0 && v > 0
    ensures Reversed(v, b, false, cnt) == [DigitOf(b, v % b.base)] + Reversed(v / b.base, b, false, cnt + 1)
  {
  }

  lemma DivMod(v: nat, d: nat)
    requires d > 0
    ensures v / d * d + v % d == v
  {
  }

  /** In every base, the digits that are produced are the numeral of the value. */
  lemma {:induction false} DigitsRead(v: nat, b: Base, cnt: nat)
    requires 2 <= b.base <= 16 && b.group > 0
    ensures Reads(Backwards(Reversed(v, b, false, cnt)), b, v)
    decreases v
  {
    if v > 0 {
      DivLess(v, b.base);
      var q, d := v / b.base, v % b.base;
      DigitsRead(q, b, cnt + 1);
      DigitBefore(v, b, cnt);
      var rest := Reversed(q, b, false, cnt + 1);
      BackwardsCons(DigitOf(b, d), rest);
      NumeralNext(Backwards(rest), b, d, q);
      DivMod(v, b.base);
    }
  }

  // ----- grouping -----

  /** A digit sequence, least significant first, with a comma after every `group` of them but the last. */
  ghost function WithCommas(s: seq<Byte>, group: nat, cnt: nat): seq<Byte>
    requires group > 0
  {
    if s == [] then []
    else (if cnt > 0 && cnt % group == 0 then [Ch(',')] else []) + [s[0]] + WithCommas(s[1..], group, cnt + 1)
  }

  /** Grouping puts the commas into the same digits. */
  lemma {:induction false} GroupedIs(v: nat, b: Base, cnt: nat)
    requires 2 <= b.base <= 16 && b.group > 0
    ensures Reversed(v, b, true, cnt) == WithCommas(Reversed(v, b, false, cnt), b.group, cnt)
    decreases v
  {
    if v > 0 {
      DivLess(v, b.base);
      GroupedIs(v / b.base, b, cnt + 1);
      DigitBefore(v, b, cnt);
      assert Reversed(v, b, false, cnt)[1..] == Reversed(v / b.base, b, false, cnt + 1);
    }
  }

  // ----- texts -----

  /** How many digits a conversion asks for at least, as far as the buffer goes. */
  ghost function MinDigits(c: Conversion): nat {
    if c.precision < 0 then 1 else if c.precision < 63 then c.precision else 63
  }

  /** `s` is `digits` after `zeros` zeros: at least as many characters as are asked for, beginning with a zero if that
      is asked for of an octal number, and no more zeros than that takes. */
  ghost predicate Padded(s: seq<Byte>, digits: seq<Byte>, zeros: nat, b: Base, c: Conversion) {
    && s == Repeat(Ch('0'), zeros) + digits
    && |s| >= MinDigits(c)
    && (c.flags.pound && b.base == 8 ==> s != [] && s[0] == Ch('0'))
    && (zeros > 0 ==> |s| == MinDigits(c) || (c.flags.pound && b.base == 8 && zeros == 1))
  }

  lemma ZerosBehind(s: seq<Byte>, n: nat)
    ensures Backwards(s + Repeat(Ch('0'), n)) == Repeat(Ch('0'), n) + Backwards(s)
  {
  }

  lemma BufferPads(v: nat, b: Base, c: Conversion) returns (zeros: nat)
    requires 2 <= b.base <= 16 && b.group > 0
    ensures Padded(Backwards(Buffer(v, b, c)), Backwards(Reversed(v, b, c.flags.group, 0)), zeros, b, c)
  {
    var digits := Reversed(v, b, c.flags.group, 0);
    var s := Buffer(v, b, c);
    zeros := |s| - |digits|;
    assert s == digits + Repeat(Ch('0'), zeros);
    ZerosBehind(digits, zeros);
  }

  /** Digits, least significant first, with their commas if they are to be grouped. */
  ghost function Grouped(plain: seq<Byte>, b: Base, c: Conversion): seq<Byte>
    requires b.group > 0
  {
    if c.flags.group then WithCommas(plain, b.group, 0) else plain
  }

  lemma DigitsPadded(v: nat, b: Base, c: Conversion) returns (zeros: nat)
    requires 2 <= b.base <= 16 && b.group > 0
    ensures Padded(Backwards(Buffer(v, b, c)), Backwards(Grouped(Reversed(v, b, false, 0), b, c)), zeros, b, c)
  {
    GroupedIs(v, b, 0);
    zeros := BufferPads(v, b, c);
  }

  /** Digits, least significant first, of a numeral that does not begin with a zero. */
  ghost predicate Proper(s: seq<Byte>, b: Base, v: nat) {
    Reads(Backwards(s), b, v) && (s != [] ==> s[|s| - 1] != Ch('0'))
  }

  lemma FirstDigit(v: nat, b: Base)
    requires 2 <= b.base <= 16 && 0 < v < b.base
    ensures v / b.base == 0 && DigitOf(b, v % b.base) != Ch('0')
  {
  }

  lemma MoreDigits(v: nat, d: nat)
    requires 2 <= d <= v
    ensures v / d > 0
  {
    if v / d == 0 { DivMod(v, d); }
  }

  lemma {:induction false} NoLeadingZero(v: nat, b: Base, cnt: nat)
    requires 2 <= b.base <= 16 && b.group > 0 && v > 0
    ensures Reversed(v, b, false, cnt) != []
    ensures Reversed(v, b, false, cnt)[|Reversed(v, b, false, cnt)| - 1] != Ch('0')
    decreases v
  {
    DivLess(v, b.base);
    DigitBefore(v, b, cnt);
    if v < b.base {
      FirstDigit(v, b);
    } else {
      MoreDigits(v, b.base);
      NoLeadingZero(v / b.base, b, cnt + 1);
    }
  }

  lemma PlainIsProper(v: nat, b: Base)
    requires 2 <= b.base <= 16 && b.group > 0
    ensures Proper(Reversed(v, b, false, 0), b, v)
  {
    DigitsRead(v, b, 0);
    if v > 0 { NoLeadingZero(v, b, 0); }
  }

  /** The sign of a signed conversion. */
  ghost predicate SignIs(s: seq<Byte>, isSigned: bool, negative: bool, f: Flags) {
    && (!isSigned ==> s == [])
    && (isSigned && negative ==> s == [Ch('-')])
    && (isSigned && !negative && f.plus ==> s == [Ch('+')])
    && (isSigned && !negative && !f.plus && f.space ==> s == [Ch(' ')])
    && (isSigned && !negative && !f.plus && !f.space ==> s == [])
  }

  /** The prefix of a hexadecimal conversion. */
  ghost predicate PrefixIs(s: seq<Byte>, v: nat, b: Base, f: Flags) {
    s == if f.pound && v > 0 && b.base == 16 then [Ch('0'), if b.upper then Ch('X') else Ch('x')] else []
  }

  /** The parts of a text: spaces, sign, prefix, padding zeros, digits, spaces. */
  ghost function Joined(before: nat, sign: seq<Byte>, prefix: seq<Byte>, zeros: nat, digits: seq<Byte>, after: nat)
    : seq<Byte>
  {
    Repeat(Ch(' '), before) + sign + prefix + Repeat(Ch('0'), zeros) + digits + Repeat(Ch(' '), after)
  }

  /** Padding fills the width: before the sign as spaces, after the text as spaces, or before the digits as zeros. */
  ghost predicate PaddedTo(t: seq<Byte>, sign: seq<Byte>, prefix: seq<Byte>, digits: seq<Byte>, pad: nat,
                           c: Conversion)
  {
    var n, f := |sign| + |prefix| + |digits|, c.flags;
    && pad == (if n < c.width then c.width - n else 0)
    && (!f.minus && !f.zero ==> t == Joined(pad, sign, prefix, 0, digits, 0))
    && (f.minus && !f.zero ==> t == Joined(0, sign, prefix, 0, digits, pad))
    && (!f.minus && f.zero ==> t == Joined(0, sign, prefix, pad, digits, 0))
    && (f.minus && f.zero ==> t == Joined(0, sign, prefix, pad, digits, pad))
  }

  lemma TextPads(v: nat, isSigned: bool, negative: bool, b: Base, c: Conversion)
    requires IsBase(b)
    ensures PaddedTo(Text(v, isSigned, negative, b, c), SignText(isSigned, negative, c.flags), Prefix(v, b, c.flags),
                     Backwards(Buffer(v, b, c)), PadCount(v, isSigned, negative, b, c), c)
  {
  }

  lemma PartsAre(v: nat, isSigned: bool, negative: bool, b: Base, c: Conversion)
    requires IsBase(b)
    ensures SignIs(SignText(isSigned, negative, c.flags), isSigned, negative, c.flags)
    ensures PrefixIs(Prefix(v, b, c.flags), v, b, c.flags)
  {
  }

  /** A printed integer, whatever the base, the flags, the width and the precision: its sign, its prefix and a numeral
      of its value, padded to the width on the side and with the character that the flags say. */
  lemma TextIs(v: nat, isSigned: bool, negative: bool, b: Base, c: Conversion)
    returns (sign: seq<Byte>, prefix: seq<Byte>, digits: seq<Byte>, plain: seq<Byte>, zeros: nat, pad: nat)
    requires IsBase(b)
    ensures b.base in {8, 10, 16} && b.group == (if b.base == 16 then 4 else 3)
    ensures SignIs(sign, isSigned, negative, c.flags) && PrefixIs(prefix, v, b, c.flags)
    ensures Proper(plain, b, v)
    ensures Padded(digits, Backwards(Grouped(plain, b, c)), zeros, b, c)
    ensures PaddedTo(Text(v, isSigned, negative, b, c), sign, prefix, digits, pad, c)
  {
    PartsAre(v, isSigned, negative, b, c);
    plain := Reversed(v, b, false, 0);
    PlainIsProper(v, b);
    zeros := DigitsPadded(v, b, c);
    TextPads(v, isSigned, negative, b, c);
    pad := PadCount(v, isSigned, negative, b, c);
    sign, prefix, digits := SignText(isSigned, negative, c.flags), Prefix(v, b, c.flags), Backwards(Buffer(v, b, c));
  }

  // ----- atoi -----

  ghost predicate Blank(c: Byte) { c in {Ch(' '), 9, 10, 11, 12, 13} }

  ghost predicate Decimal(c: Byte) { Ch('0') <= c <= Ch('9') }

  ghost predicate Blanks(s: seq<Byte>) { forall i :: 0 <= i < |s| ==> Blank(s[i]) }

  ghost predicate Decimals(s: seq<Byte>) { forall i :: 0 <= i < |s| ==> Decimal(s[i]) }

  ghost function DecimalValue(s: seq<Byte>): int {
    if s == [] then 0 else 10 * DecimalValue(s[..|s| - 1]) + (s[|s| - 1] - Ch('0'))
  }

  lemma Wrapped(a: int, b: int)
    requires (a - b) % 0x1_0000_0000 == 0
    ensures Wrap32(a) == Wrap32(b)
  {
  }

  lemma WrapCongruent(x: int)
    ensures (Wrap32(x) - x) % 0x1_0000_0000 == 0 && -0x8000_0000 <= Wrap32(x) < 0x8000_0000
  {
  }

  lemma Multiple(k: int)
    ensures k * 0x1_0000_0000 % 0x1_0000_0000 == 0
  {
  }

  lemma WrapStep(a: int, d: int)
    ensures Wrap32(Wrap32(a) * 10 - d) == Wrap32(a * 10 - d)
  {
    WrapCongruent(a);
    var k := (Wrap32(a) - a) / 0x1_0000_0000;
    assert Wrap32(a) - a == k * 0x1_0000_0000;
    assert (Wrap32(a) * 10 - d) - (a * 10 - d) == 10 * k * 0x1_0000_0000;
    Multiple(10 * k);
    Wrapped(Wrap32(a) * 10 - d, a * 10 - d);
  }

  lemma WrapNegated(a: int)
    ensures Wrap32(-Wrap32(a)) == Wrap32(-a)
  {
    WrapCongruent(a);
    var k := (Wrap32(a) - a) / 0x1_0000_0000;
    assert -Wrap32(a) + a == (-k) * 0x1_0000_0000;
    Multiple(-k);
    Wrapped(-Wrap32(a), -a);
  }

  /** Digits are read up to the first other character, in 32-bit arithmetic. */
  lemma {:induction false} DigitsParsed(s: seq<Byte>, t: seq<Byte>)
    requires Decimals(s)
    ensures ParseDigits(s + t, 0) == ParseDigits(t, Wrap32(-DecimalValue(s)))
    decreases |s|
  {
    if s == [] {
      assert s + t == t;
    } else {
      var n := |s| - 1;
      var d := [s[n]] + t;
      assert s + t == s[..n] + d && d[1..] == t;
      DigitsParsed(s[..n], d);
      WrapStep(-DecimalValue(s[..n]), s[n] - Ch('0'));
    }
  }

  lemma {:induction false} BlanksSkipped(s: seq<Byte>, t: seq<Byte>)
    requires Blanks(s)
    ensures SkipSpace(s + t) == SkipSpace(t)
  {
    if s == [] {
      assert s + t == t;
    } else {
      BlanksSkipped(s[1..], t);
      assert (s + t)[1..] == s[1..] + t;
    }
  }

  lemma NoMoreDigits(t: seq<Byte>, value: int)
    requires t != [] ==> !Decimal(t[0])
    ensures ParseDigits(t, value) == value
  {
  }

  /** `s` begins with the digits of `v`, in 32-bit arithmetic. */
  ghost predicate ReadsAs(s: seq<Byte>, v: int) {
    ParseDigits(s, 0) == Wrap32(-v) && Wrap32(-ParseDigits(s, 0)) == Wrap32(v)
  }

  lemma Negated(s: seq<Byte>, v: int)
    requires ParseDigits(s, 0) == Wrap32(-v)
    ensures ReadsAs(s, v)
  {
    WrapNegated(-v);
  }

  lemma DigitsAlone(digits: seq<Byte>, rest: seq<Byte>)
    requires Decimals(digits) && (rest != [] ==> !Decimal(rest[0]))
    ensures ReadsAs(digits + rest, DecimalValue(digits))
  {
    DigitsParsed(digits, rest);
    NoMoreDigits(rest, Wrap32(-DecimalValue(digits)));
    Negated(digits + rest, DecimalValue(digits));
  }

  lemma AfterSign(s: seq<Byte>, sign: Byte, body: seq<Byte>, v: int)
    requires (sign == Ch('+') || sign == Ch('-')) && ReadsAs(body, v) && SkipSpace(s) == [sign] + body
    ensures ValueOf(s) == Wrap32(if sign == Ch('-') then -v else v)
  {
    assert ([sign] + body)[1..] == body;
  }

  /** Nothing that atoi would pass over before a number. */
  ghost predicate Bare(s: seq<Byte>) { s != [] ==> !Blank(s[0]) && s[0] != Ch('+') && s[0] != Ch('-') }

  lemma WithoutSign(s: seq<Byte>, body: seq<Byte>, v: int)
    requires Bare(body) && ReadsAs(body, v) && SkipSpace(s) == body
    ensures ValueOf(s) == Wrap32(v)
  {
  }

  /** Where white space and a sign end. */
  lemma NumberStart(blanks: seq<Byte>, sign: seq<Byte>, digits: seq<Byte>, rest: seq<Byte>)
    requires Blanks(blanks) && sign in {[], [Ch('+')], [Ch('-')]}
    requires Decimals(digits)
    requires digits == [] && sign == [] ==> Bare(rest)
    ensures SkipSpace(blanks + (sign + (digits + rest))) == sign + (digits + rest)
    ensures sign == [] ==> sign + (digits + rest) == digits + rest && Bare(digits + rest)
  {
    assert digits == [] ==> digits + rest == rest;
    assert sign == [] ==> sign + (digits + rest) == digits + rest;
    BlanksSkipped(blanks, sign + (digits + rest));
  }

  lemma SignedRead(s: seq<Byte>, sign: Byte, digits: seq<Byte>, rest: seq<Byte>)
    requires (sign == Ch('+') || sign == Ch('-')) && SkipSpace(s) == [sign] + (digits + rest)
    requires Decimals(digits) && (rest != [] ==> !Decimal(rest[0]))
    ensures ValueOf(s) == Wrap32(if sign == Ch('-') then -DecimalValue(digits) else DecimalValue(digits))
  {
    DigitsAlone(digits, rest);
    AfterSign(s, sign, digits + rest, DecimalValue(digits));
  }

  lemma UnsignedRead(s: seq<Byte>, digits: seq<Byte>, rest: seq<Byte>)
    requires Bare(digits + rest) && SkipSpace(s) == digits + rest
    requires Decimals(digits) && (rest != [] ==> !Decimal(rest[0]))
    ensures ValueOf(s) == Wrap32(DecimalValue(digits))
  {
    DigitsAlone(digits, rest);
    WithoutSign(s, digits + rest, DecimalValue(digits));
  }

  /** White space, an optional sign and digits, and then anything that is no digit: atoi gives the number, reduced to
      32 bits. */
  lemma AtoiIs(blanks: seq<Byte>, sign: seq<Byte>, digits: seq<Byte>, rest: seq<Byte>)
    requires Blanks(blanks) && sign in {[], [Ch('+')], [Ch('-')]}
    requires Decimals(digits) && (rest != [] ==> !Decimal(rest[0]))
    requires digits == [] && sign == [] ==> Bare(rest)
    ensures ValueOf(blanks + (sign + (digits + rest))) ==
      Wrap32(if sign == [Ch('-')] then -DecimalValue(digits) else DecimalValue(digits))
  {
    NumberStart(blanks, sign, digits, rest);
    if sign == [] {
      UnsignedRead(blanks + (sign + (digits + rest)), digits, rest);
    } else {
      assert sign == [sign[0]];
      SignedRead(blanks + (sign + (digits + rest)), sign[0], digits, rest);
    }
  }
}
