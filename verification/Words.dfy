/** Machine words, written as ranges of mathematical integers with explicit wrap-around. */
module Words {
  const TWO32: int := 0x1_0000_0000
  const TWO63: int := 0x8000_0000_0000_0000
  const TWO64: int := 0x1_0000_0000_0000_0000
  const U64_MAX: int := TWO64 - 1
  const I64_MAX: int := TWO63 - 1
  const I64_MIN: int := -TWO63

  type byte = x: int | 0 <= x < 256
  type u16 = x: int | 0 <= x < 0x1_0000
  type u32 = x: int | 0 <= x < TWO32
  type u64 = x: int | 0 <= x < TWO64
  type i64 = x: int | -TWO63 <= x < TWO63

  function WrapU32(x: int): u32 { x % TWO32 }

  function WrapU64(x: int): u64 { x % TWO64 }

  /** The two's complement reading of the low 64 bits of `x`. */
  function WrapI64(x: int): i64 { (x + TWO63) % TWO64 - TWO63 }

  /** Wrapping addition. */
  function AddI64(x: i64, y: i64): i64 { WrapI64(x + y) }

  function AddU32(x: u32, y: u32): u32 { WrapU32(x + y) }

  /** Reinterpretation of a word's bits between the signed and the unsigned type. */
  function AsSigned(x: u64): i64 { if x < TWO63 then x else x - TWO64 }

  function AsUnsigned(x: i64): u64 { if x >= 0 then x else x + TWO64 }

  predicate FitsI64(x: int) { I64_MIN <= x <= I64_MAX }

  function Abs(x: int): nat { if x < 0 then -x else x }

  function Min(x: int, y: int): int { if x <= y then x else y }

  function Max(x: int, y: int): int { if x >= y then x else y }

  /** Wrapping an intermediate sum never changes the final wrapped sum. */
  lemma WrapI64Absorbs(x: int, y: int)
    ensures WrapI64(WrapI64(x) + y) == WrapI64(x + y)
    ensures WrapI64(x + WrapI64(y)) == WrapI64(x + y)
  {
    ModShift(x + TWO63, TWO64);
    ModShift(y + TWO63, TWO64);
    var kx := (x + TWO63) / TWO64;
    var ky := (y + TWO63) / TWO64;
    ModAddMultiple(WrapI64(x) + y + TWO63, kx, TWO64);
    ModAddMultiple(x + WrapI64(y) + TWO63, ky, TWO64);
  }

  lemma WrapU32Absorbs(x: int, y: int)
    ensures WrapU32(WrapU32(x) + y) == WrapU32(x + y)
    ensures WrapU32(x + WrapU32(y)) == WrapU32(x + y)
  {
    ModShift(x, TWO32);
    ModShift(y, TWO32);
    ModAddMultiple(WrapU32(x) + y, x / TWO32, TWO32);
    ModAddMultiple(x + WrapU32(y), y / TWO32, TWO32);
  }

  lemma ModShift(x: int, m: int)
    requires m > 0
    ensures x == m * (x / m) + x % m
  {}

  lemma ModAddMultiple(x: int, k: int, m: int)
    requires m > 0
    ensures (x + m * k) % m == x % m
  {
    DivModUnique(x + m * k, m, x / m + k, x % m);
  }

  /** A quotient and an in-range remainder that rebuild `x` are the quotient and the remainder. */
  lemma DivModUnique(x: int, m: int, q: int, r: int)
    requires m > 0 && 0 <= r < m
    requires x == m * q + r
    ensures x / m == q && x % m == r
  {
    var d := x / m - q;
    assert m * d == r - x % m by { ModShift(x, m); }
    if d >= 1 {
      MulAtLeast(m, d);
    } else if d <= -1 {
      MulAtLeast(m, -d);
    }
  }

  lemma MulAtLeast(m: int, d: int)
    requires m > 0 && d >= 1
    ensures m * d >= m
  {}

  lemma AddI64Associates(x: i64, y: i64, z: i64)
    ensures AddI64(AddI64(x, y), z) == AddI64(x, AddI64(y, z))
  {
    assert AddI64(AddI64(x, y), z) == WrapI64(x + y + z) by { WrapI64Absorbs(x + y, z); }
    assert AddI64(x, AddI64(y, z)) == WrapI64(x + y + z) by { WrapI64Absorbs(x, y + z); }
  }

  lemma AddU32Associates(x: u32, y: u32, z: u32)
    ensures AddU32(AddU32(x, y), z) == AddU32(x, AddU32(y, z))
  {
    assert AddU32(AddU32(x, y), z) == WrapU32(x + y + z) by { WrapU32Absorbs(x + y, z); }
    assert AddU32(x, AddU32(y, z)) == WrapU32(x + y + z) by { WrapU32Absorbs(x, y + z); }
  }

  /** Adding wrapped totals wraps the total. */
  lemma AddOfWrapped(x: int, y: int)
    ensures AddI64(WrapI64(x), WrapI64(y)) == WrapI64(x + y)
    ensures AddU32(WrapU32(x), WrapU32(y)) == WrapU32(x + y)
  {
    WrapI64Absorbs(x, WrapI64(y));
    WrapI64Absorbs(x, y);
    WrapU32Absorbs(x, WrapU32(y));
    WrapU32Absorbs(x, y);
  }
}
