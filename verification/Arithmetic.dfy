/** 64-bit division built from the 32-bit DIVL instruction. Machine words are integers in range, and
    every operation of the source that wraps is written with its modulus. */
module Arithmetic {

  import opened PowerOfTwo

  const B := 0x1_0000_0000          // 2^32
  const B2 := 0x1_0000_0000_0000_0000  // 2^64

  type U32 = x: int | 0 <= x < 0x1_0000_0000
  type U64 = x: int | 0 <= x < 0x1_0000_0000_0000_0000
  type S64 = x: int | -0x8000_0000_0000_0000 <= x < 0x8000_0000_0000_0000
  type S32 = x: int | -0x8000_0000 <= x < 0x8000_0000

  /** A divide error (#DE), or the value computed. */
  datatype Result<+T> = Trap | Value(v: T)

  function Wrap64(x: int): U64 { x % B2 }

  /** Unsigned negation of a 64-bit word. */
  function Neg64(x: U64): U64 { (B2 - x) % B2 }

  /** Reinterprets 64 bits as a signed number. */
  function ToSigned64(x: U64): S64 { if x < 0x8000_0000_0000_0000 then x else x - B2 }

  /** Truncates to 32 bits and reinterprets them as a signed number. */
  function ToSigned32(x: int): S32 { var y := x % B; if y < 0x8000_0000 then y else y - B }

  /** The DIVL instruction: traps if the divisor is zero or the quotient does not fit in 32 bits. */
  function Divl(n: U64, d: U32): Result<U32> {
    if d == 0 || n / d >= B then Trap else Value(n / d)
  }

  lemma MulMonotone(a: int, b: int, c: int)
    requires a <= b && c >= 0
    ensures a * c <= b * c
  {
  }

  lemma MulCancelLess(a: int, b: int, c: int)
    requires c > 0 && a * c < b * c
    ensures a < b
  {
    if b <= a { MulMonotone(b, a, c); }
  }

  /** The number of leading zero bits: how often `x` can be doubled below 2^32. */
  function LeadingZeros(x: U32): nat
    requires x != 0
    decreases B - x
  {
    if x >= 0x8000_0000 then 0 else 1 + LeadingZeros(2 * x)
  }

  lemma {:induction false} LeadingZerosBound(x: U32, k: nat)
    requires k <= 31 && Pow2(31 - k) <= x
    ensures LeadingZeros(x) <= k
    decreases k
  {
    if k == 0 {
      Pow2Values();
    } else if x < 0x8000_0000 {
      LeadingZerosBound(2 * x, k - 1);
    }
  }

  lemma TwiceInside(x: int, p: int)
    ensures 2 * x * p == x * (2 * p)
  {
  }

  lemma {:induction false} LeadingZerosTop(x: U32)
    requires x != 0
    ensures 0x8000_0000 <= x * Pow2(LeadingZeros(x)) < B && LeadingZeros(x) <= 31
    decreases B - x
  {
    LeadingZerosBound(x, 31);
    if x < 0x8000_0000 {
      LeadingZerosTop(2 * x);
      TwiceInside(x, Pow2(LeadingZeros(2 * x)));
    }
  }

  lemma {:induction false} LeadingZerosShift(x: U32, k: nat)
    requires x != 0 && x * Pow2(k) < B
    ensures LeadingZeros(x) == k + LeadingZeros(x * Pow2(k))
    decreases k
  {
    if k > 0 {
      assert 2 * x * Pow2(k - 1) == x * Pow2(k);
      MulMonotone(1, Pow2(k - 1), 2 * x);
      LeadingZerosShift(2 * x, k - 1);
    }
  }

  lemma TopTwoBits(x: U32)
    requires x >= 0x4000_0000
    ensures LeadingZeros(x) == if x <= 0x7FFF_FFFF then 1 else 0
  {
  }

  lemma Powers()
    ensures Pow2(16) == 0x1_0000 && Pow2(8) == 0x100 && Pow2(4) == 0x10 && Pow2(2) == 4
  {
    Pow2Values();
  }

  /** One step of nlz: if `x` is at most the limit, `n += k; x <<= k`, where `p` is 2^k and p * (limit + 1) is 2^32. */
  method ShiftBelow(x: U32, limit: nat, k: nat, p: nat, n: nat) returns (y: U32, m: nat)
    requires x != 0 && (k, p) in {(16, 0x1_0000), (8, 0x100), (4, 0x10), (2, 4)} && p * (limit + 1) == B
    ensures y != 0 && m + LeadingZeros(y) == n + LeadingZeros(x)
    ensures x <= limit ==> y == x * p && m == n + k
    ensures x > limit ==> y == x && m == n
  {
    y, m := x, n;
    if x <= limit {
      MulMonotone(x, limit, p);
      MulMonotone(1, p, x);
      Powers();
      LeadingZerosShift(x, k);
      m := n + k;
      y := x * p % B;
    }
  }

  /** nlz: a binary search for the top bit by shifting. */
  method Nlz(x0: U32) returns (n: nat)
    requires x0 != 0
    ensures n == LeadingZeros(x0)
  {
    var x: U32 := x0;
    n := 0;
    x, n := ShiftBelow(x, 0x0000_FFFF, 16, 0x1_0000, n);
    x, n := ShiftBelow(x, 0x00FF_FFFF, 8, 0x100, n);
    x, n := ShiftBelow(x, 0x0FFF_FFFF, 4, 0x10, n);
    x, n := ShiftBelow(x, 0x3FFF_FFFF, 2, 4, n);
    TopTwoBits(x);
    if x <= 0x7FFF_FFFF { n := n + 1; }
  }

  // ----- unsigned division -----

  function HighWord(x: U64): U32 { x / B }

  lemma DivShrinks(n: int, d: int)
    requires n >= 0 && d > 0
    ensures 0 <= n / d <= n
  {
    if n / d > n { MulMonotone(1, d, n / d); }
  }

  function ShiftRight(q: U64, p: nat): (r: U64)
    requires p > 0
    ensures r == q / p
  {
    DivShrinks(q, p);
    q / p
  }

  /** The quotient estimate of udiv64 for a divisor of more than 32 bits. */
  function Estimate(n: U64, d: U64): Result<U64>
    requires d >= B
  {
    var s := LeadingZeros(HighWord(d));
    LeadingZerosTop(HighWord(d));
    match Divl(n / 2, HighWord(Wrap64(d * Pow2(s))))
    case Trap => Trap
    case Value(q) => Value(ShiftRight(q, Pow2(31 - s)))
  }

  /** The last line of udiv64: picks `q - 1` or `q` by the remainder that `q - 1` would leave. */
  function Corrected(n: U64, d: U64, q: U64): U64 {
    if Wrap64(n - Wrap64((q - 1) * d)) < d then Wrap64(q - 1) else q
  }

  /** Division by a 32-bit divisor, high word first. */
  function ShortDivision(n1: U32, n0: U32, d: U32): Result<U64>
    requires d != 0
  {
    match Divl(B * (n1 % d) + n0, d)
    case Trap => Trap
    case Value(q) => Value(Wrap64(q + B * (n1 / d)))
  }

  function UDiv64(n: U64, d: U64): Result<U64> {
    if d / B == 0 then
      if d == 0 then Trap  // n1 % d0 is itself a division by zero
      else ShortDivision(n / B, n % B, d)
    else if n < d then Value(0)
    else
      match Estimate(n, d)
      case Trap => Trap
      case Value(q) => Value(Corrected(n, d, q))
  }

  lemma DivBounds(n: int, d: int)
    requires d > 0
    ensures n / d * d <= n < (n / d + 1) * d
  {
    assert n == n / d * d + n % d;
  }

  /** Quotient and remainder are determined by the usual bounds. */
  lemma DivUnique(n: int, d: int, q: int)
    requires d > 0 && q * d <= n < (q + 1) * d
    ensures n / d == q
  {
    DivBounds(n, d);
    MulCancelLess(n / d, q + 1, d);
    MulCancelLess(q, n / d + 1, d);
  }

  /** The schoolbook step: dividing the high word first leaves a quotient that fits in 32 bits. */
  lemma TwoWordDivision(n1: nat, n0: nat, d: nat)
    requires 0 < d && n0 < B
    ensures (B * (n1 % d) + n0) / d < B
    ensures (B * n1 + n0) / d == (B * (n1 % d) + n0) / d + B * (n1 / d)
  {
    var r, k := n1 % d, n1 / d;
    var m := B * r + n0;
    var q := m / d;
    assert n1 == k * d + r;
    DivBounds(m, d);
    assert m < B * d;
    MulCancelLess(q, B, d);
    assert B * n1 + n0 == m + B * k * d;
    assert (q + B * k) * d == q * d + B * k * d;
    assert (q + B * k + 1) * d == (q + 1) * d + B * k * d;
    DivUnique(B * n1 + n0, d, q + B * k);
  }

  lemma QuotientShrinks(n: nat, d: nat)
    requires d > 0
    ensures 0 <= n / d <= n && (d > 1 && n > 0 ==> n / d < n)
  {
    var q := n / d;
    DivBounds(n, d);
    MulCancelLess(0, q + 1, d);
    MulMonotone(1, d, q);
    assert d * q == q * d;
    if d > 1 { MulMonotone(2, d, q); }
  }

  lemma WrapInRange(x: int)
    requires 0 <= x < B2
    ensures Wrap64(x) == x
  {
  }

  lemma ShortDivisionExact(n1: U32, n0: U32, d: U32)
    requires d != 0
    ensures ShortDivision(n1, n0, d) == Value((B * n1 + n0) / d)
  {
    TwoWordDivision(n1, n0, d);
    QuotientShrinks(B * n1 + n0, d);
    var m := B * (n1 % d) + n0;
    assert Divl(m, d) == Value(m / d);
    WrapInRange(m / d + B * (n1 / d));
  }

  lemma SmallDivisor(n: U64, d: U64)
    requires 0 < d < B
    ensures UDiv64(n, d) == Value(n / d)
  {
    ShortDivisionExact(n / B, n % B, d);
  }

  /** The arithmetic behind the estimate. With the divisor shifted up by `s` bits, p = 2^s and
      h = 2^(31-s), and v the top word of the shifted divisor, dividing n/2 by v and shifting the
      result down gives floor(n / 2vh), where 2vh falls short of d by less than 2h. */
  lemma ShiftedDivisor(d: nat, p: nat, h: nat, v: nat)
    requires p > 0 && h > 0 && p * h == 0x8000_0000
    requires v * B <= d * p < v * B + B
    ensures 2 * v * h <= d < 2 * v * h + 2 * h
  {
    var w := 2 * v * h;
    assert w * p == v * (2 * (p * h));
    assert (w + 2 * h) * p == w * p + 2 * (p * h);
    MulCancelLess(d, w + 2 * h, p);
    assert w * p < (d + 1) * p;
    MulCancelLess(w, d + 1, p);
  }

  lemma DivDiv(n: nat, a: nat, b: nat)
    requires a > 0 && b > 0
    ensures n / a / b == n / (a * b)
  {
    var q := n / a / b;
    DivBounds(n, a);
    DivBounds(n / a, b);
    assert a * b > 0;
    assert q * (a * b) == q * b * a;
    MulMonotone(q * b, n / a, a);
    assert (q + 1) * (a * b) == (q + 1) * b * a;
    MulMonotone(n / a + 1, (q + 1) * b, a);
    DivUnique(n, a * b, q);
  }

  /** A divisor that is slightly too small gives the true quotient or one more. */
  lemma EstimateWithinOne(n: nat, d: nat, w: nat)
    requires 0 < w <= d && (n / d + 1) * (d - w) <= w
    ensures n / d <= n / w <= n / d + 1
  {
    var q := n / d;
    DivBounds(n, d);
    DivBounds(n, w);
    assert (q + 2) * w == (q + 1) * d + w - (q + 1) * (d - w);
    MulMonotone(w, d, q);
    assert q * w <= q * d;
    MulCancelLess(n / w, q + 2, w);
    MulCancelLess(q, n / w + 1, w);
  }

  lemma QuotientBound(n: nat, d: nat, p: nat, q: nat)
    requires n < B2 && p > 0 && d * p >= 0x8000_0000_0000_0000 && q * d <= n
    ensures q + 1 <= 2 * p
  {
    assert q * d * p < B2 * p by { MulMonotone(q * d, B2 - 1, p); }
    MulMonotone(0x8000_0000_0000_0000, d * p, q);
    assert q * d * p == d * p * q;
    MulCancelLess(q, 2 * p, 0x8000_0000_0000_0000);
  }

  lemma Shortfall(d: nat, p: nat, h: nat, v: nat, q: nat)
    requires p > 0 && h > 0 && p * h == 0x8000_0000 && v >= 0x8000_0000 && q + 1 <= 2 * p
    requires 2 * v * h <= d < 2 * v * h + 2 * h
    ensures (q + 1) * (d - 2 * v * h) <= 2 * v * h
  {
    var e := d - 2 * v * h;
    MulMonotone(q + 1, 2 * p, e);
    MulMonotone(e, 2 * h - 1, 2 * p);
    assert 2 * p * (2 * h - 1) == 4 * (p * h) - 2 * p;
    MulMonotone(0x8000_0000, v, 2 * h);
    assert v * (2 * h) == 2 * v * h;
    if h == 1 { assert p * 1 == p; }
  }

  lemma CloseDivisor(n: U64, d: U64, p: nat, h: nat, v: nat, w: nat)
    requires p > 0 && h > 0 && p * h == 0x8000_0000 && 0x8000_0000 <= v && w == 2 * v * h
    requires 0 < w <= d < w + 2 * h && d * p >= 0x8000_0000_0000_0000
    ensures n / d <= n / w <= n / d + 1
  {
    DivBounds(n, d);
    QuotientBound(n, d, p, n / d);
    Shortfall(d, p, h, v, n / d);
    EstimateWithinOne(n, d, w);
  }

  /** DIVL does not trap: half the dividend is below 2^63 and the divisor has its top bit set. */
  lemma HalfDividendFits(n: U64, v: nat)
    requires v >= 0x8000_0000
    ensures n / 2 / v < B
  {
    DivBounds(n / 2, v);
    assert n / 2 < B * v;
    MulCancelLess(n / 2 / v, B, v);
  }

  lemma HalfQuotient(n: nat, v: nat, h: nat)
    requires v > 0 && h > 0
    ensures v * h > 0 && n / 2 / v / h == n / (2 * v * h)
  {
    DivDiv(n / 2, v, h);
    DivDiv(n, 2, v * h);
    assert 2 * (v * h) == 2 * v * h;
  }

  lemma EstimateQuotient(n: U64, d: U64, p: nat, h: nat, v: nat)
    requires p > 0 && h > 0 && p * h == 0x8000_0000 && 0x8000_0000 <= v
    requires 2 * v * h <= d < 2 * v * h + 2 * h && d * p >= 0x8000_0000_0000_0000
    ensures n / 2 / v < B && n / d <= n / 2 / v / h <= n / d + 1
  {
    HalfQuotient(n, v, h);
    HalfDividendFits(n, v);
    CloseDivisor(n, d, p, h, v, 2 * v * h);
  }

  lemma NormalisedDivisor(d: U64, p: nat, h: nat)
    requires p > 0 && p * h == 0x8000_0000 && 0x8000_0000 <= d / B * p < B
    ensures 0x8000_0000_0000_0000 <= d * p < B2
    ensures 0x8000_0000 <= d * p / B && d * p / B * B <= d * p < d * p / B * B + B
  {
    var d1, d0 := d / B, d % B;
    assert d == d1 * B + d0;
    assert d * p == d1 * p * B + d0 * p;
    MulMonotone(d0 + 1, B, p);
    assert 2 * h * p == B;
    MulCancelLess(d1, 2 * h, p);
    MulMonotone(d1 + 1, 2 * h, p);
    assert d * p < (d1 * p + p) * B;
    DivBounds(d * p, B);
    MulCancelLess(0x7FFF_FFFF, d * p / B, B);
  }

  /** Neither DIVL traps and the estimate is off by at most one. */
  lemma EstimateCorrect(n: U64, d: U64)
    requires d >= B
    ensures Estimate(n, d).Value? && n / d <= Estimate(n, d).v <= n / d + 1
  {
    var s := LeadingZeros(d / B);
    LeadingZerosTop(d / B);
    var p, h := Pow2(s), Pow2(31 - s);
    Pow2Add(s, 31 - s);
    Pow2Values();
    assert p * h == 0x8000_0000;
    NormalisedDivisor(d, p, h);
    var v := d * p / B;
    ShiftedDivisor(d, p, h, v);
    EstimateQuotient(n, d, p, h, v);
    WrapInRange(d * p);
  }

  /** The correction step: the product with one less than the estimate never wraps, and the step
      picks the true quotient. */
  lemma CorrectionExact(n: U64, d: U64, q: U64)
    requires B <= d <= n && n / d <= q <= n / d + 1
    ensures 0 <= (q - 1) * d <= n
    ensures Corrected(n, d, q) == n / d
  {
    var t, c := n / d, (q - 1) * d;
    DivBounds(n, d);
    MulCancelLess(1, t + 1, d);
    MulMonotone(q - 1, t, d);
    MulMonotone(0, q - 1, d);
    assert (t - 1) * d == t * d - d;
    assert n - c < d <==> q == t + 1;
    WrapInRange(c);
    WrapInRange(n - c);
    WrapInRange(q - 1);
  }

  lemma LargeDivisor(n: U64, d: U64)
    requires d >= B
    ensures UDiv64(n, d) == Value(n / d)
  {
    if n < d {
      DivUnique(n, d, 0);
    } else {
      EstimateCorrect(n, d);
      CorrectionExact(n, d, Estimate(n, d).v);
    }
  }

  /** udiv64 computes the exact quotient, and traps only for a zero divisor. */
  lemma UDiv64Correct(n: U64, d: U64)
    ensures UDiv64(n, d) == if d == 0 then Trap else Value(n / d)
  {
    if 0 < d < B {
      SmallDivisor(n, d);
    } else if d >= B {
      LargeDivisor(n, d);
    }
  }

  // ----- remainder and signed division -----

  function RemainderWord(n: U64, d: U64, q: U64): U32 { Wrap64(n - Wrap64(d * q)) % B }

  function UMod64(n: U64, d: U64): Result<U32> {
    match UDiv64(n, d)
    case Trap => Trap
    case Value(q) => Value(RemainderWord(n, d, q))
  }

  lemma RemainderWordExact(n: U64, d: U64)
    requires d != 0
    ensures 0 <= n / d < B2 && RemainderWord(n, d, n / d) == n % d % B
  {
    QuotientShrinks(n, d);
    var m := d * (n / d);
    assert n - m == n % d && 0 <= m <= n by { DivBounds(n, d); MulMonotone(0, n / d, d); }
    WrapInRange(m);
    WrapInRange(n % d);
  }

  /** umod64 returns a 32-bit value: the remainder reduced to 32 bits. */
  lemma UMod64Correct(n: U64, d: U64)
    requires d != 0
    ensures UMod64(n, d) == Value(n % d % B)
  {
    UDiv64Correct(n, d);
    RemainderWordExact(n, d);
  }

  lemma SmallRemainder(r: nat)
    requires r < B
    ensures r % B == r
  {
  }

  /** So umod64 is the remainder for every dividend exactly when the divisor is at most 2^32. */
  lemma UMod64Small(n: U64, d: U64)
    requires 0 < d <= B
    ensures UMod64(n, d) == Value(n % d)
  {
    UMod64Correct(n, d);
    SmallRemainder(n % d);
  }

  /** UMod64 is the exact remainder. */
  ghost predicate ExactUMod(n: U64, d: U64)
    requires d != 0
  {
    UMod64(n, d) == Value(n % d)
  }

  lemma UMod64Loses(n: U64, d: U64)
    requires n == B < d
    ensures UMod64(n, d) != Value(n % d)
  {
    UMod64Correct(n, d);
    DivUnique(n, d, 0);
  }

  lemma UMod64ExactIff(d: U64)
    requires d != 0
    ensures (forall n: U64 :: ExactUMod(n, d)) <==> d <= B
  {
    if d <= B {
      forall n: U64 ensures ExactUMod(n, d) { UMod64Small(n, d); }
    } else {
      UMod64Loses(B, d);
      assert !ExactUMod(B, d);
    }
  }

  function Abs(x: int): nat { if x < 0 then -x else x }

  /** Truncating division, as C defines it for signed operands. */
  function TruncDiv(n: int, d: int): int
    requires d != 0
  {
    var q := Abs(n) / Abs(d);
    if (n < 0) == (d < 0) then q else -q
  }

  /** The magnitude of an operand, computed in unsigned arithmetic. */
  function Magnitude(x: S64): U64 { if x >= 0 then x else Neg64(Wrap64(x)) }

  /** Puts the sign back on an unsigned quotient. */
  function WithSign(q: U64, positive: bool): S64 {
    if positive then ToSigned64(q) else ToSigned64(Wrap64(0 - ToSigned64(q)))
  }

  function SDiv64(n: S64, d: S64): Result<S64> {
    match UDiv64(Magnitude(n), Magnitude(d))
    case Trap => Trap
    case Value(q) => Value(WithSign(q, (n < 0) == (d < 0)))
  }

  function SMod64(n: S64, d: S64): Result<S32> {
    match SDiv64(n, d)
    case Trap => Trap
    case Value(q) => Value(ToSigned32(n - d * q))
  }

  lemma MagnitudeIsAbs(x: S64)
    ensures Magnitude(x) == Abs(x)
  {
    if x < 0 { assert Wrap64(x) == x + B2; }
  }

  lemma WithSignExact(q: nat, positive: bool)
    requires q < 0x8000_0000_0000_0000 || (q == 0x8000_0000_0000_0000 && !positive)
    ensures WithSign(q, positive) == if positive then q else 0 - q
  {
  }

  lemma SDivCase(n: S64, d: S64)
    ensures d == 0 ==> SDiv64(n, d) == Trap
    ensures d != 0 && (n, d) != (-0x8000_0000_0000_0000, -1) ==> SDiv64(n, d) == Value(TruncDiv(n, d))
    ensures (n, d) == (-0x8000_0000_0000_0000, -1) ==> SDiv64(n, d) == Value(n)
  {
    MagnitudeIsAbs(n);
    MagnitudeIsAbs(d);
    UDiv64Correct(Abs(n), Abs(d));
    if d != 0 {
      var q := Abs(n) / Abs(d);
      QuotientShrinks(Abs(n), Abs(d));
      if Abs(d) == 1 { DivUnique(Abs(n), 1, Abs(n)); }
      if n != -0x8000_0000_0000_0000 || d != -1 { WithSignExact(q, (n < 0) == (d < 0)); }
    }
  }

  /** sdiv64 is truncating division for every pair of operands except the one whose quotient 2^63
      does not fit; there it wraps to the dividend. */
  lemma SDiv64Correct(n: S64, d: S64)
    ensures d == 0 ==> SDiv64(n, d) == Trap
    ensures d != 0 ==> (SDiv64(n, d) == Value(TruncDiv(n, d)) <==> !(n == -0x8000_0000_0000_0000 && d == -1))
    ensures SDiv64(-0x8000_0000_0000_0000, -1) == Value(-0x8000_0000_0000_0000)
  {
    SDivCase(n, d);
    SDivCase(-0x8000_0000_0000_0000, -1);
  }

  /** smod64 returns the remainder of truncating division, reduced to a signed 32-bit value. */
  lemma SMod64Correct(n: S64, d: S64)
    requires d != 0
    ensures SMod64(n, d) == Value(ToSigned32(n - d * TruncDiv(n, d)))
  {
    SDivCase(n, d);
    if n == -0x8000_0000_0000_0000 && d == -1 {
      assert Abs(n) / Abs(d) == Abs(n);
      assert n - d * n == 2 * n;
    }
  }

  lemma TruncRemainder(n: int, d: int)
    requires d != 0
    ensures n - d * TruncDiv(n, d) == if n < 0 then -(Abs(n) % Abs(d)) else Abs(n) % Abs(d)
  {
    var a, b := Abs(n), Abs(d);
    assert a - b * (a / b) == a % b;
  }

  lemma SmallSigned(x: int)
    requires -0x8000_0000 <= x < 0x8000_0000
    ensures ToSigned32(x) == x
  {
  }

  /** smod64 is the signed remainder for every dividend exactly when |d| is at most 2^31. */
  lemma SMod64Small(n: S64, d: S64)
    requires d != 0 && Abs(d) <= 0x8000_0000
    ensures SMod64(n, d) == Value(n - d * TruncDiv(n, d))
  {
    SMod64Correct(n, d);
    TruncRemainder(n, d);
    SmallSigned(n - d * TruncDiv(n, d));
  }

  lemma SMod64Loses(n: S64, d: S64)
    requires n == 0x8000_0000 < Abs(d)
    ensures SMod64(n, d) != Value(n - d * TruncDiv(n, d))
  {
    SMod64Correct(n, d);
    TruncRemainder(n, d);
    DivUnique(n, Abs(d), 0);
    assert ToSigned32(n) == 0 - n;
  }

  /** SMod64 is the exact C remainder. */
  ghost predicate ExactSMod(n: S64, d: S64)
    requires d != 0
  {
    SMod64(n, d) == Value(n - d * TruncDiv(n, d))
  }

  lemma SMod64ExactIff(d: S64)
    requires d != 0
    ensures (forall n: S64 :: ExactSMod(n, d)) <==> Abs(d) <= 0x8000_0000
  {
    if Abs(d) <= 0x8000_0000 {
      forall n: S64 ensures ExactSMod(n, d) { SMod64Small(n, d); }
    } else {
      SMod64Loses(0x8000_0000, d);
      assert !ExactSMod(0x8000_0000, d);
    }
  }
}
