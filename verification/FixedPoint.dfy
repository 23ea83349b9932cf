/** Q32.32 arithmetic over a hand-built 128-bit integer (state/candle_cpp/src/fixed_point.cpp). */
module FixedPoint {
  import opened Words

  const FRACTIONAL_BITS: int := 32

  datatype Error = DomainError | OverflowError | InvalidArgument

  datatype Result<+T> = Ok(value: T) | Err(error: Error)

  /** A signed 128-bit integer held as a signed high word and an unsigned low word. */
  datatype Int128 = Int128(high: i64, low: u64) {
    function Value(): int { high * TWO64 + low }
  }

  const TWO127: int := TWO63 * TWO64
  const TWO128: int := TWO64 * TWO64

  predicate FitsI128(x: int) { -TWO127 <= x < TWO127 }

  function Wrap128(x: int): int { (x + TWO127) % TWO128 - TWO127 }

  // ---------------------------------------------------------------- word operators

  /** `~x` on an unsigned word. */
  function NotU64(x: u64): u64 { U64_MAX - x }

  /** `-x` on an unsigned word. */
  function NegU64(x: u64): u64 { if x == 0 then 0 else TWO64 - x }

  function Pow2(n: nat): (p: nat)
    ensures p >= 1
  {
    if n == 0 then 1 else 2 * Pow2(n - 1)
  }

  function ShlU64(x: u64, n: nat): u64 { WrapU64(x * Pow2(n)) }

  function ShrU64(x: u64, n: nat): u64 {
    ShrBound(x, Pow2(n));
    x / Pow2(n)
  }

  lemma ShrBound(x: nat, p: nat)
    requires p >= 1
    ensures 0 <= x / p <= x
  {}

  lemma {:induction false} Pow2Split(m: nat, n: nat)
    ensures Pow2(m + n) == Pow2(m) * Pow2(n)
  {
    if m > 0 { Pow2Split(m - 1, n); }
  }

  lemma Pow2At16()
    ensures Pow2(16) == 0x1_0000
  {
    assert Pow2(4) == 16;
    Pow2Split(4, 4);
    Pow2Split(8, 8);
  }

  lemma Pow2At32()
    ensures Pow2(32) == TWO32 && Pow2(64) == TWO64
  {
    Pow2At16();
    Pow2Split(16, 16);
    Pow2Split(32, 32);
  }

  /** `x | y` where `x` is a multiple of the power of two `p` and `y` lies below it, so no bits meet. */
  function OrDisjoint(x: int, y: nat, p: nat): int
    requires p >= 1 && x % p == 0 && y < p
  {
    x + y
  }

  /** On the machine word itself, `|` of words that share no bit is their sum. */
  lemma OrOfDisjointWordsIsSum(x: bv64, y: bv64)
    requires x & y == 0
    ensures x | y == x + y
  {}

  // ---------------------------------------------------------------- multiplication

  /** The four partial products of two words, summed at their weights, are the product. */
  lemma PartialProducts(xl: nat, xh: nat, yl: nat, yh: nat)
    ensures (xh * TWO32 + xl) * (yh * TWO32 + yl)
         == xl * yl + (xl * yh + xh * yl) * TWO32 + xh * yh * TWO64
  {
    var y := yh * TWO32 + yl;
    assert (xh * TWO32 + xl) * y == (xh * TWO32) * y + xl * y;
    assert xl * y == xl * yh * TWO32 + xl * yl;
    assert (xh * TWO32) * y == xh * yh * TWO64 + xh * yl * TWO32;
  }

  lemma HalfWordProductBound(x: nat, y: nat)
    requires x < TWO32 && y < TWO32
    ensures x * y <= (TWO32 - 1) * (TWO32 - 1)
  {
    MulMonotone(x, TWO32 - 1, y);
    MulMonotone(y, TWO32 - 1, TWO32 - 1);
  }

  lemma MulMonotone(x: int, x': int, y: nat)
    requires x <= x'
    ensures x * y <= x' * y
  {}

  const HALF_PRODUCT_MAX: int := (TWO32 - 1) * (TWO32 - 1)

  /** The middle and the high column of the schoolbook product never leave their words, whatever the
      operands are. */
  lemma ColumnsNeverWrap(p0: nat, p1: nat, p2: nat, p3: nat)
    requires p0 <= HALF_PRODUCT_MAX && p1 <= HALF_PRODUCT_MAX && p2 <= HALF_PRODUCT_MAX && p3 <= HALF_PRODUCT_MAX
    ensures p1 + p0 / TWO32 + p2 % TWO32 <= TWO64 - 2
    ensures p3 + p2 / TWO32 + (p1 + p0 / TWO32 + p2 % TWO32) / TWO32 < TWO64
  {}

  lemma UpperHalfShift(x: u64)
    ensures WrapU64(x * TWO32) == (x % TWO32) * TWO32
    ensures WrapU64(x * TWO32) % TWO32 == 0
  {}

  lemma SignedMagnitudes(a: int, b: int)
    ensures Abs(a) * Abs(b) == if (a < 0) != (b < 0) then -(a * b) else a * b
  {
    if a < 0 {
      assert (-a) * b == -(a * b);
    }
    assert forall z: int :: z * (-b) == -(z * b);
  }

  lemma ProductOfMagnitudesBound(x: nat, y: nat)
    requires x <= TWO63 && y <= TWO63
    ensures x * y <= TWO63 * TWO63
  {
    MulMonotone(x, TWO63, y);
  }

  lemma NoWrap(x: int)
    requires 0 <= x < TWO64
    ensures WrapU64(x) == x
  {}

  /** The combination of the four partial products, as (high word, low word). */
  function CombineColumns(p0: u64, p1: u64, p2: u64, p3: u64): (words: (u64, u64))
    requires p0 <= HALF_PRODUCT_MAX && p1 <= HALF_PRODUCT_MAX && p2 <= HALF_PRODUCT_MAX && p3 <= HALF_PRODUCT_MAX
    ensures words.0 * TWO64 + words.1 == p0 + (p1 + p2) * TWO32 + p3 * TWO64
  {
    ColumnsNeverWrap(p0, p1, p2, p3);
    var middle := WrapU64(WrapU64(p1 + p0 / TWO32) + p2 % TWO32);
    assert middle == p1 + p0 / TWO32 + p2 % TWO32 by {
      NoWrap(p1 + p0 / TWO32);
      NoWrap(p1 + p0 / TWO32 + p2 % TWO32);
    }
    var high := WrapU64(WrapU64(p3 + p2 / TWO32) + middle / TWO32);
    assert high == p3 + p2 / TWO32 + middle / TWO32 by {
      NoWrap(p3 + p2 / TWO32);
      NoWrap(p3 + p2 / TWO32 + middle / TWO32);
    }
    UpperHalfShift(middle);
    ModShift(middle, TWO32);
    ModShift(p0, TWO32);
    ModShift(p2, TWO32);
    (high, OrDisjoint(WrapU64(middle * TWO32), p0 % TWO32, TWO32))
  }

  /** The high and low words of the unsigned product, from the 32-bit halves of the operands. */
  function SchoolbookProduct(xl: u32, xh: u32, yl: u32, yh: u32): (words: (u64, u64))
    ensures words.0 * TWO64 + words.1 == (xh * TWO32 + xl) * (yh * TWO32 + yl)
  {
    HalfWordProductBound(xl, yl);
    HalfWordProductBound(xl, yh);
    HalfWordProductBound(xh, yl);
    HalfWordProductBound(xh, yh);
    PartialProducts(xl, xh, yl, yh);
    CombineColumns(xl * yl, xl * yh, xh * yl, xh * yh)
  }

  lemma HighWordBound(high: u64, low: u64, product: nat)
    requires high * TWO64 + low == product <= TWO63 * TWO63
    ensures high <= TWO63 / 2
  {}

  /** Flipping both words and carrying one negates a 128-bit value. */
  lemma NegateWords(high: int, low: u64)
    ensures
      var low' := WrapU64(NotU64(low) + 1);
      (if low' == 0 then -high else -1 - high) * TWO64 + low' == -(high * TWO64 + low)
  {}

  /** The magnitude of a signed word as an unsigned word; it exists for the least word too. */
  function Magnitude(x: i64): (m: u64)
    ensures m == Abs(x)
  {
    if x < 0 then NegU64(AsUnsigned(x)) else x
  }

  function UnsignedProduct(x: u64, y: u64): (words: (u64, u64))
    ensures words.0 * TWO64 + words.1 == x * y
  {
    ModShift(x, TWO32);
    ModShift(y, TWO32);
    SchoolbookProduct(x % TWO32, x / TWO32, y % TWO32, y / TWO32)
  }

  /** The product of the two magnitudes leaves the sign bit of the high word free. */
  function MagnitudeProduct(a: i64, b: i64): (words: (i64, u64))
    ensures 0 <= words.0 <= TWO63 / 2
    ensures words.0 * TWO64 + words.1 == Abs(a) * Abs(b)
  {
    var words := UnsignedProduct(Magnitude(a), Magnitude(b));
    ProductOfMagnitudesBound(Abs(a), Abs(b));
    HighWordBound(words.0, words.1, Abs(a) * Abs(b));
    (AsSigned(words.0), words.1)
  }

  method Multiply64x64To128(a: i64, b: i64) returns (result: Int128)
    ensures result.Value() == a * b
  {
    var negative := (a < 0) != (b < 0);
    var (high, low) := MagnitudeProduct(a, b);
    if negative {
      NegateWords(high, low);
      low := WrapU64(NotU64(low) + 1);
      high := -1 - high;
      if low == 0 {
        high := high + 1;
      }
    }
    result := Int128(high, low);
    SignedMagnitudes(a, b);
  }

  // ---------------------------------------------------------------- shifts and range

  lemma Pow2Complement(n: nat)
    requires 0 < n < 64
    ensures Pow2(64 - n) * Pow2(n) == TWO64
    ensures Pow2(63 - n) * Pow2(n) == TWO63 && Pow2(64 - n) == 2 * Pow2(63 - n)
    ensures Pow2(n) <= TWO63
  {
    Pow2Split(64 - n, n);
    Pow2Split(63 - n, n);
    Pow2At32();
    MulMonotone(1, Pow2(63 - n), Pow2(n));
  }

  /** Shifting left by `p` inside a word of `p * q` values keeps the remainder modulo `q`. */
  lemma ShiftInsideWord(x: int, p: int, q: int)
    requires p >= 1 && q >= 1 && p * q == TWO64
    ensures (x * p) % TWO64 == (x % q) * p
    ensures ((x * p) % TWO64) % p == 0
    ensures (x % q) * p <= TWO64 - p
  {
    ModShift(x, q);
    assert x * p == TWO64 * (x / q) + (x % q) * p;
    MulMonotone(x % q, q - 1, p);
    DivModUnique(x * p, TWO64, x / q, (x % q) * p);
    DivModUnique((x % q) * p, p, x % q, 0);
  }

  lemma UnsignedKeepsRemainder(x: i64, p: int, q: int)
    requires p >= 1 && q >= 1 && p * q == TWO64
    ensures AsUnsigned(x) % q == x % q
  {
    ModAddMultiple(x, p, q);
  }

  lemma QuotientBelow(x: u64, p: int, q: int)
    requires p >= 1 && q >= 1 && p * q == TWO64
    ensures 0 <= x / q < p
  {
    ModShift(x, q);
    if x / q >= p {
      MulMonotone(p, x / q, q);
    }
  }

  lemma FloorStaysSigned(x: i64, q: int)
    requires q >= 1
    ensures I64_MIN <= x / q <= I64_MAX
  {
    ModShift(x, q);
    if x / q >= 0 {
      MulMonotone(1, q, x / q);
    } else {
      MulMonotone(1, q, -(x / q) - 1);
    }
  }

  lemma ScaleWords(h: int, r: int, l: int, p: int, q: int)
    requires p * q == TWO64
    ensures q * (h * TWO64 + r * p + l) == (q * h + r) * TWO64 + q * l
  {
    assert q * (r * p) == r * (p * q);
    assert q * (h * TWO64) == (q * h) * TWO64;
    assert q * (h * TWO64 + r * p + l) == q * (h * TWO64) + q * (r * p) + q * l;
  }

  /** Floor division of a two-word value, word by word. */
  lemma FloorOfWords(high: int, low: nat, p: int, q: int)
    requires p >= 1 && q >= 1 && p * q == TWO64
    ensures (high * TWO64 + low) / q == (high / q) * TWO64 + (high % q) * p + low / q
  {
    ModShift(high, q);
    ModShift(low, q);
    ScaleWords(high / q, high % q, low / q, p, q);
    DivModUnique(high * TWO64 + low, q, (high / q) * TWO64 + (high % q) * p + low / q, low % q);
  }

  function ShiftRight128(value: Int128, n: int): Result<Int128> {
    if n <= 0 || n >= 64 then Err(InvalidArgument)
    else
      var p, q := Pow2(64 - n), Pow2(n);
      Pow2Complement(n);
      FloorStaysSigned(value.high, q);
      ShiftInsideWord(AsUnsigned(value.high), p, q);
      QuotientBelow(value.low, p, q);
      Ok(Int128(value.high / q, OrDisjoint(ShlU64(AsUnsigned(value.high), 64 - n), ShrU64(value.low, n), p)))
  }

  /** Shifts by nothing, backwards, or by a whole word are refused. */
  lemma ShiftsOutsideAWordAreRefused(value: Int128, n: int)
    requires n <= 0 || n >= 64
    ensures ShiftRight128(value, n) == Err(InvalidArgument) && ShiftLeft128(value, n) == Err(InvalidArgument)
  {}

  /** The right shift is division by the power of two, rounded toward minus infinity. */
  lemma ShiftRightIsFloorDivision(value: Int128, n: int)
    requires 0 < n < 64
    ensures ShiftRight128(value, n).Ok?
    ensures ShiftRight128(value, n).value.Value() == value.Value() / Pow2(n)
  {
    var p, q := Pow2(64 - n), Pow2(n);
    Pow2Complement(n);
    ShiftInsideWord(AsUnsigned(value.high), p, q);
    UnsignedKeepsRemainder(value.high, p, q);
    FloorOfWords(value.high, value.low, p, q);
  }

  function ShiftLeft128(value: Int128, n: int): Result<Int128> {
    if n <= 0 || n >= 64 then Err(InvalidArgument)
    else
      var p, q := Pow2(64 - n), Pow2(n);
      Pow2Complement(n);
      ShiftedHighRoom(value.high, Pow2(63 - n), q);
      QuotientBelow(value.low, q, p);
      Ok(Int128(OrDisjoint(ShiftedHigh(value.high, q), ShrU64(value.low, 64 - n), q), ShlU64(value.low, n)))
  }

  /** The high word after a left shift: a multiple of `q` with room for the bits carried in from below. */
  function ShiftedHigh(high: i64, q: int): i64 { AsSigned(WrapU64(AsUnsigned(high) * q)) }

  lemma ShiftedHighRoom(high: i64, half: int, q: int)
    requires half >= 1 && 1 <= q <= TWO63 && half * q == TWO63
    ensures ShiftedHigh(high, q) % q == 0
    ensures ShiftedHigh(high, q) <= TWO63 - q
  {
    var r := AsUnsigned(high) % (2 * half);
    ShiftInsideWord(AsUnsigned(high), q, 2 * half);
    assert WrapU64(AsUnsigned(high) * q) == r * q;
    if r * q < TWO63 {
      SignedMultipleBelow(r, half, q);
      DivModUnique(r * q, q, r, 0);
    } else {
      assert r * q - TWO64 == q * (r - 2 * half);
      DivModUnique(r * q - TWO64, q, r - 2 * half, 0);
    }
  }

  lemma ShiftedHighCongruent(high: i64, q: int) returns (k: int)
    ensures ShiftedHigh(high, q) == high * q - k * TWO64
  {
    var x := AsUnsigned(high) * q;
    ModShift(x, TWO64);
    var e := if high >= 0 then 0 else 1;
    assert x == high * q + e * q * TWO64;
    k := x / TWO64 - e * q + (if x % TWO64 < TWO63 then 0 else 1);
  }

  /** A multiple of `q` below 2^63 leaves room for `q - 1` more. */
  lemma SignedMultipleBelow(r: int, half: int, q: int)
    requires q >= 1 && half * q == TWO63 && r * q < TWO63
    ensures r * q <= TWO63 - q
  {
    if r >= half {
      MulMonotone(half, r, q);
    } else {
      MulMonotone(r, half - 1, q);
    }
  }

  lemma Wrap128Unique(x: int, y: int, k: int)
    requires FitsI128(x) && x == y - k * TWO128
    ensures x == Wrap128(y)
  {
    DivModUnique(y + TWO127, TWO128, k, x + TWO127);
  }

  lemma LeftShiftWords(high: int, low: nat, p: int, q: int, k: int)
    requires p >= 1 && p * q == TWO64
    ensures ((high * q - k * TWO64) + low / p) * TWO64 + (low % p) * q == (high * TWO64 + low) * q - k * TWO128
  {
    ModShift(low, p);
    assert low * q == (p * (low / p)) * q + (low % p) * q;
    assert (p * (low / p)) * q == (p * q) * (low / p);
    assert (high * TWO64 + low) * q == (high * q) * TWO64 + low * q;
  }

  /** The left shift multiplies by the power of two, modulo 2^128 in two's complement. */
  lemma ShiftLeftIsWrappedProduct(value: Int128, n: int)
    requires 0 < n < 64
    ensures ShiftLeft128(value, n).Ok?
    ensures ShiftLeft128(value, n).value.Value() == Wrap128(value.Value() * Pow2(n))
  {
    var p, q := Pow2(64 - n), Pow2(n);
    var k := LeftShiftDropsMultiple(value, n);
    Wrap128Unique(ShiftLeft128(value, n).value.Value(), value.Value() * q, k);
  }

  lemma LeftShiftDropsMultiple(value: Int128, n: int) returns (k: int)
    requires 0 < n < 64
    ensures ShiftLeft128(value, n).Ok?
    ensures ShiftLeft128(value, n).value.Value() == value.Value() * Pow2(n) - k * TWO128
  {
    var p, q := Pow2(64 - n), Pow2(n);
    Pow2Complement(n);
    ShiftInsideWord(value.low, q, p);
    k := ShiftedHighCongruent(value.high, q);
    LeftShiftWords(value.high, value.low, p, q, k);
  }

  lemma ValueIsInjective(v: Int128, w: Int128)
    requires v.Value() == w.Value()
    ensures v == w
  {}

  lemma ShiftBack(x: int, p: int, q: int, k: int)
    requires p >= 1 && q >= 1 && p * q == TWO64
    ensures (x * q - k * TWO128) / q == x - k * p * TWO64
    ensures (x * q - k * TWO128) / q == x <==> k == 0
  {
    assert q * (k * p) == k * (p * q);
    assert q * (x - k * p * TWO64) == x * q - q * (k * p) * TWO64;
    DivModUnique(x * q - k * TWO128, q, x - k * p * TWO64, 0);
    if k != 0 { NonzeroProduct(k, p); }
  }

  /** Shifting left and back restores the value exactly when the shifted value fits in 128 signed bits. */
  lemma ShiftRoundTrip(value: Int128, n: int)
    requires 0 < n < 64
    ensures ShiftLeft128(value, n).Ok?
    ensures ShiftRight128(ShiftLeft128(value, n).value, n) == Ok(value) <==> FitsI128(value.Value() * Pow2(n))
  {
    var k := LeftShiftDropsMultiple(value, n);
    var shifted := ShiftLeft128(value, n).value;
    ShiftRightIsFloorDivision(shifted, n);
    Pow2Complement(n);
    ShiftBack(value.Value(), Pow2(64 - n), Pow2(n), k);
    OnlyZeroMultipleFits(shifted.Value(), value.Value() * Pow2(n), k);
    var back := ShiftRight128(shifted, n).value;
    if k == 0 { ValueIsInjective(back, value); }
  }

  lemma OnlyZeroMultipleFits(x: int, y: int, k: int)
    requires FitsI128(x) && x == y - k * TWO128
    ensures k == 0 <==> FitsI128(y)
  {}

  lemma NonzeroProduct(k: int, p: int)
    requires k != 0 && p >= 1
    ensures k * p != 0
  {}

  predicate FitsInInt64(value: Int128) {
    if value.high == 0 then value.low <= I64_MAX
    else if value.high == -1 then value.low >= AsUnsigned(I64_MIN)
    else false
  }

  function ToInt64(value: Int128): Result<i64> {
    if !FitsInInt64(value) then Err(OverflowError) else Ok(AsSigned(value.low))
  }

  /** The two-word range check and conversion agree with the range of the value. */
  lemma ToInt64IsExact(value: Int128)
    ensures FitsInInt64(value) <==> FitsI64(value.Value())
    ensures ToInt64(value) == if FitsI64(value.Value()) then Ok(value.Value()) else Err(OverflowError)
  {}

  // ---------------------------------------------------------------- Q32.32 multiplication

  /** The product of two Q32.32 numbers, rounded toward minus infinity, or an overflow. */
  function FpProduct(a: i64, b: i64): (r: Result<i64>)
    ensures r.Ok? ==> r.value * TWO32 <= a * b < (r.value + 1) * TWO32
    ensures r.Err? ==> r.error == OverflowError
    ensures r.Ok? <==> -TWO63 * TWO32 <= a * b < TWO63 * TWO32
  {
    var q := (a * b) / TWO32;
    if FitsI64(q) then Ok(q) else Err(OverflowError)
  }

  method FpMultiply(a: i64, b: i64) returns (r: Result<i64>)
    ensures r == FpProduct(a, b)
  {
    var product := Multiply64x64To128(a, b);
    Pow2At32();
    ShiftRightIsFloorDivision(product, FRACTIONAL_BITS);
    var shifted := ShiftRight128(product, FRACTIONAL_BITS).value;
    ToInt64IsExact(shifted);
    if !FitsInInt64(shifted) {
      return Err(OverflowError);
    }
    return ToInt64(shifted);
  }

  // ---------------------------------------------------------------- division

  /** Division truncated toward zero: the remainder is smaller than the divisor and never points away from
      the dividend. */
  function TruncDiv(n: int, d: int): (q: int)
    requires d != 0
    ensures Abs(n - q * d) < Abs(d)
    ensures if n >= 0 then n - q * d >= 0 else n - q * d <= 0
  {
    TruncationRemainder(n, d);
    var q := Abs(n) / Abs(d);
    if (n < 0) != (d < 0) then -q else q
  }

  lemma TruncationRemainder(n: int, d: int)
    requires d != 0
    ensures
      var q := if (n < 0) != (d < 0) then -(Abs(n) / Abs(d)) else Abs(n) / Abs(d);
      Abs(n - q * d) < Abs(d) && if n >= 0 then n - q * d >= 0 else n - q * d <= 0
  {
    var q := Abs(n) / Abs(d);
    ModShift(Abs(n), Abs(d));
    assert (-q) * d == -(q * d) && q * (-d) == -(q * d);
  }

  lemma QuotientFitsWord(n: nat, d: nat)
    requires d >= 1
    ensures 0 <= n / d && (n / d <= I64_MAX <==> n < TWO63 * d)
  {
    ModShift(n, d);
    if n / d <= I64_MAX {
      MulMonotone(n / d, I64_MAX, d);
    } else {
      MulMonotone(TWO63, n / d, d);
    }
  }

  /** What the 128-by-64 division returns: every dividend of magnitude 2^64 or more overflows. */
  function Quotient128(n: int, d: int): (r: Result<i64>)
    ensures r == Err(DomainError) <==> d == 0
    ensures r.Ok? ==> Abs(n - r.value * d) < Abs(d) && if n >= 0 then n - r.value * d >= 0 else n - r.value * d <= 0
    ensures d != 0 ==> if Abs(n) < TWO64 && Abs(n) < TWO63 * Abs(d) then r.Ok? else r == Err(OverflowError)
  {
    if d == 0 then Err(DomainError)
    else
      QuotientFitsWord(Abs(n), Abs(d));
      if Abs(n) >= TWO64 || Abs(n) / Abs(d) > I64_MAX then Err(OverflowError) else Ok(TruncDiv(n, d))
  }

  /** The bit loop: it starts with a nonzero high word, so it takes bit 63 at once and never gives it back. */
  method LongDivide(high: i64, low: u64, divisor: u64) returns (quotient: u64)
    requires high > 0
    ensures quotient >= TWO63
  {
    quotient := 0;
    var remHigh, remLow: u64 := high, low;
    ghost var k := 0;  // the quotient bits taken so far
    var i := 63;
    Pow2At32();
    Pow2Split(63, 1);
    while i >= 0
      invariant -1 <= i <= 63
      invariant remHigh >= 0 && (i == 63 ==> remHigh > 0)
      invariant 0 <= k < Pow2(63 - i) && quotient == k * Pow2(i + 1)
      invariant i < 63 ==> k >= Pow2(62 - i)
    {
      BitHasRoom(k, i);
      var shiftedHigh, shiftedLow := 0, ShlU64(divisor, i);
      var canSubtract := remHigh > shiftedHigh || (remHigh == shiftedHigh && remLow >= shiftedLow);
      if canSubtract {
        quotient := OrDisjoint(quotient, Pow2(i), Pow2(i + 1));
        if remLow < shiftedLow {
          remHigh := remHigh - 1;
        }
        remLow := WrapU64(remLow - shiftedLow);
        remHigh := remHigh - shiftedHigh;
        k := 2 * k + 1;
      } else {
        k := 2 * k;
      }
      i := i - 1;
    }
  }

  lemma FreeBit(k: nat, m: nat, p: nat)
    requires k < m && p >= 1 && m * (2 * p) == TWO64
    ensures k * (2 * p) + p == (2 * k + 1) * p < TWO64
    ensures k * (2 * p) == (2 * k) * p
    ensures (k * (2 * p)) % (2 * p) == 0
  {
    MulMonotone(k, m - 1, 2 * p);
    assert (m - 1) * (2 * p) == TWO64 - 2 * p;
    DivModUnique(k * (2 * p), 2 * p, k, 0);
  }

  /** The quotient built so far is a multiple of 2^(i+1) with bit `i` free and in range. */
  lemma BitHasRoom(k: nat, i: nat)
    requires i <= 63 && k < Pow2(63 - i)
    ensures Pow2(i + 1) == 2 * Pow2(i)
    ensures (k * Pow2(i + 1)) % Pow2(i + 1) == 0
    ensures k * Pow2(i + 1) + Pow2(i) == (2 * k + 1) * Pow2(i) < TWO64
    ensures k * Pow2(i + 1) == (2 * k) * Pow2(i)
  {
    Pow2At32();
    Pow2Split(63 - i, i + 1);
    FreeBit(k, Pow2(63 - i), Pow2(i));
  }

  /** Negating the least 128-bit integer would overflow the high word, so it is not an admissible dividend. */
  method Divide128By64(dividend: Int128, divisor: i64) returns (r: Result<i64>)
    requires dividend.Value() != -TWO127
    ensures r == Quotient128(dividend.Value(), divisor)
  {
    if divisor == 0 {
      return Err(DomainError);
    }
    var negative := (dividend.high < 0) != (divisor < 0);
    var absHigh, absLow := dividend.high, dividend.low;
    if dividend.high < 0 {
      NegateWords(absHigh, absLow);
      absLow := WrapU64(NotU64(absLow) + 1);
      absHigh := -1 - absHigh;
      if absLow == 0 {
        absHigh := absHigh + 1;
      }
    }
    assert absHigh * TWO64 + absLow == Abs(dividend.Value());
    var absDivisor := Magnitude(divisor);

    var quotient: u64;
    if absHigh == 0 {
      QuotientInWord(absLow, absDivisor);
      quotient := absLow / absDivisor;
    } else {
      quotient := LongDivide(absHigh, absLow, absDivisor);
    }
    if quotient > I64_MAX {
      return Err(OverflowError);
    }
    var result: i64 := quotient;
    return Ok(if negative then -result else result);
  }

  lemma QuotientInWord(n: u64, d: u64)
    requires d >= 1
    ensures 0 <= n / d <= n
  {}

  /** What `fp_divide` returns, in terms a caller can test: a magnitude below 1.0 (raw 2^32) and a
      quotient below 2^31 (raw 2^63). */
  function FpQuotient(a: i64, b: i64): (r: Result<i64>)
    ensures r == Err(DomainError) <==> b == 0
    ensures r.Ok? ==> Abs(a * TWO32 - r.value * b) < Abs(b)
    ensures r.Ok? ==> if a >= 0 then a * TWO32 - r.value * b >= 0 else a * TWO32 - r.value * b <= 0
    ensures b != 0 ==> if -TWO32 < a < TWO32 && Abs(a) < 0x8000_0000 * Abs(b) then r.Ok? else r == Err(OverflowError)
  {
    if b == 0 then Err(DomainError)
    else if Abs(a) >= TWO32 || Abs(a) >= (TWO63 / TWO32) * Abs(b) then Err(OverflowError)
    else
      QuotientRange(Abs(a), Abs(b));
      Ok(TruncDiv(a * TWO32, b))
  }

  /** The quotient magnitude fits in a signed word exactly when |a| < 2^31 * |b|. */
  lemma QuotientRange(a: nat, b: nat)
    requires b >= 1
    ensures 0 <= (a * TWO32) / b
    ensures (a * TWO32) / b <= I64_MAX <==> a < (TWO63 / TWO32) * b
  {
    var q := (a * TWO32) / b;
    ModShift(a * TWO32, b);
    if q <= I64_MAX {
      MulMonotone(q, I64_MAX, b);
    } else {
      MulMonotone(TWO63, q, b);
    }
  }

  lemma QuotientOfShifted(a: i64, b: i64)
    requires b != 0
    ensures Quotient128(a * TWO32, b) == FpQuotient(a, b)
  {
    QuotientRange(Abs(a), Abs(b));
    assert Abs(a * TWO32) == Abs(a) * TWO32;
  }

  /** The least word has no negation, so it is not an admissible dividend. */
  method FpDivide(a: i64, b: i64) returns (r: Result<i64>)
    requires a != I64_MIN
    ensures r == FpQuotient(a, b)
  {
    if b == 0 {
      return Err(DomainError);
    }
    var dividend := ExtendAndShift(a);
    r := Divide128By64(dividend, b);
    QuotientOfShifted(a, b);
  }

  lemma ShiftedIntoWords(x: nat)
    requires x <= I64_MAX
    ensures (x / TWO32) * TWO64 + WrapU64(x * TWO32) == x * TWO32
    ensures 0 <= x / TWO32 <= I64_MAX
  {
    DivModUnique(x * TWO32, TWO64, x / TWO32, (x % TWO32) * TWO32);
  }

  /** The dividend `a << 32` as 128 bits, negated by hand when `a` is negative. */
  method ExtendAndShift(a: i64) returns (dividend: Int128)
    requires a != I64_MIN
    ensures dividend.Value() == a * TWO32
  {
    var high: i64;
    var low: u64;
    ShiftedIntoWords(Abs(a));
    if a >= 0 {
      high := a / TWO32;
      low := WrapU64(a * TWO32);
    } else {
      var absA: i64 := -a;
      high := -(absA / TWO32);
      low := WrapU64(absA * TWO32);
      if low != 0 {
        high := high - 1;
        low := WrapU64(NotU64(low) + 1);
      }
    }
    dividend := Int128(high, low);
  }

  /** What the header promises: an overflow only when the truncated quotient leaves the signed word. */
  function DocumentedQuotient(a: i64, b: i64): Result<i64> {
    if b == 0 then Err(DomainError)
    else if FitsI64(TruncDiv(a * TWO32, b)) then Ok(TruncDiv(a * TWO32, b))
    else Err(OverflowError)
  }

  /** Exactly where division keeps the promise of its header: below the range limit only magnitudes under
      1.0 divide, and beyond it the one result that still fits, the least word, is refused as well. */
  lemma DivisionMeetsItsHeader(a: i64, b: i64)
    ensures FpQuotient(a, b) == DocumentedQuotient(a, b)
      <==> (b == 0
            || (if Abs(a) < (TWO63 / TWO32) * Abs(b) then Abs(a) < TWO32
                else (a < 0) == (b < 0) || Abs(a) * TWO32 >= (TWO63 + 1) * Abs(b)))
  {
    if b != 0 {
      QuotientRange(Abs(a), Abs(b));
      var n, d := Abs(a) * TWO32, Abs(b);
      ModShift(n, d);
      if n / d == TWO63 {
        assert n < (TWO63 + 1) * d;
      } else if n / d > TWO63 {
        MulMonotone(TWO63 + 1, n / d, d);
      }
    }
  }

  /** 1.0 / 1.0 overflows. */
  lemma OneOverOneOverflows()
    ensures FpQuotient(TWO32, TWO32) == Err(OverflowError)
    ensures DocumentedQuotient(TWO32, TWO32) == Ok(TWO32)
  {
    assert TWO32 * TWO32 / TWO32 == TWO32;
  }

  function CeilDiv(n: nat, d: nat): nat
    requires d >= 1
  {
    QuotientInRange(n, d);
    (n + d - 1) / d
  }

  lemma QuotientInRange(n: nat, d: nat)
    requires d >= 1
    ensures (n + d - 1) / d >= 0
  {}

  lemma SignedQuotientTimesDivisor(n: int, d: int)
    requires d != 0
    ensures TruncDiv(n, d) * d == if n < 0 then -((Abs(n) / Abs(d)) * Abs(d)) else (Abs(n) / Abs(d)) * Abs(d)
  {
    var q := Abs(n) / Abs(d);
    assert (-q) * d == -(q * d) && q * (-d) == -(q * d);
  }

  /** The quotient times the divisor is the dividend, moved toward zero by the remainder. */
  lemma QuotientTimesDivisor(a: i64, b: i64) returns (rem: nat)
    requires FpQuotient(a, b).Ok?
    ensures rem <= Abs(b) - 1 && rem <= Abs(a) * TWO32
    ensures FpQuotient(a, b).value * b == if a < 0 then -(Abs(a) * TWO32 - rem) else Abs(a) * TWO32 - rem
  {
    var n, d := Abs(a) * TWO32, Abs(b);
    assert n / d >= 0 && n == d * (n / d) + n % d by {
      QuotientRange(Abs(a), d);
      ModShift(n, d);
    }
    rem := n % d;
    SignedQuotientTimesDivisor(a * TWO32, b);
  }

  lemma ErrorOfFloor(x: int, rem: nat, bound: nat)
    requires rem <= bound
    ensures Abs((x * TWO32 - rem) / TWO32 - x) <= CeilDiv(bound, TWO32)
    ensures Abs((x * TWO32 + rem) / TWO32 - x) <= CeilDiv(bound, TWO32)
  {}

  /** Multiplying a quotient back never overflows and misses the dividend by at most
      ceil((|b| - 1) / 2^32) units in the last place. */
  lemma DivideThenMultiply(a: i64, b: i64)
    requires FpQuotient(a, b).Ok?
    ensures
      var back := FpProduct(FpQuotient(a, b).value, b);
      back.Ok? && Abs(back.value - a) <= CeilDiv(Abs(b) - 1, TWO32)
  {
    var rem := QuotientTimesDivisor(a, b);
    ErrorOfFloor(a, rem, Abs(b) - 1);
    var product := FpQuotient(a, b).value * b;
    assert product == if a < 0 then a * TWO32 + rem else a * TWO32 - rem;
    FloorBetween(product, a);
  }

  lemma FloorBetween(product: int, a: i64)
    requires if a < 0 then a * TWO32 <= product <= 0 else 0 <= product <= a * TWO32
    ensures FitsI64(product / TWO32)
  {}
}
