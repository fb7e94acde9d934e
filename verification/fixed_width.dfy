/**
 * Fixed-width machine integers as the C sources use them.
 *
 * Dafny integers are unbounded, so every wrap-around, truncating cast and
 * signed reinterpretation of the sources is written out here, once.
 * `unsigned long` and `long` follow the platform word size (`LongBits`),
 * while `uint32_t` and `uint64_t` have fixed widths.
 */
module FixedWidth {

  const U8_LIMIT: int := 0x100
  const U32_LIMIT: int := 0x1_0000_0000
  const U64_LIMIT: int := 0x1_0000_0000_0000_0000

  type uint8 = x: int | 0 <= x < U8_LIMIT
  type uint32 = x: int | 0 <= x < U32_LIMIT
  type uint64 = x: int | 0 <= x < U64_LIMIT

  /** `(uint64_t) -1ULL`, the "unset" sentinel the consumer uses for
      sequence numbers, relay ids and instance ids. */
  const UNSET_U64: uint64 := U64_LIMIT - 1

  /** Width in bits of C `long` / `unsigned long` (ILP32 or LP64). */
  type LongBits = b: int | b == 32 || b == 64 witness 64

  /** 2^bits: the modulus of `unsigned long` arithmetic. */
  function LongLimit(bits: LongBits): (m: int)
    ensures m == (if bits == 32 then U32_LIMIT else U64_LIMIT)
    ensures m >= U32_LIMIT
  {
    if bits == 32 then U32_LIMIT else U64_LIMIT
  }

  /** 2^(bits-1): the first value whose `(long)` reinterpretation is negative. */
  function HalfLongLimit(bits: LongBits): (h: int)
    ensures 2 * h == LongLimit(bits)
  {
    if bits == 32 then 0x8000_0000 else 0x8000_0000_0000_0000
  }

  /** A value representable as `unsigned long`. */
  predicate IsULong(bits: LongBits, x: int) {
    0 <= x < LongLimit(bits)
  }

  /** Reduction modulo 2^bits, i.e. the result of unsigned `long` arithmetic. */
  function WrapULong(bits: LongBits, x: int): (r: int)
    ensures IsULong(bits, r)
  {
    if bits == 32 then x % 0x1_0000_0000 else x % 0x1_0000_0000_0000_0000
  }

  /** Reduction modulo 2^64: the result of `uint64_t` arithmetic. */
  function Wrap64(x: int): (r: uint64)
    ensures 0 <= x < U64_LIMIT ==> r == x
  {
    x % 0x1_0000_0000_0000_0000
  }

  /** The cast `(long) x` of an `unsigned long`: two's complement reinterpretation. */
  function SignedLong(bits: LongBits, x: int): (s: int)
    requires IsULong(bits, x)
    ensures -HalfLongLimit(bits) <= s < HalfLongLimit(bits)
    ensures s < 0 <==> x >= HalfLongLimit(bits)
  {
    if x < HalfLongLimit(bits) then x else x - LongLimit(bits)
  }

  /** A value representable as `ssize_t`. */
  predicate IsSSize(bits: LongBits, x: int) {
    -HalfLongLimit(bits) <= x < HalfLongLimit(bits)
  }

  /** The usual arithmetic conversion of an `ssize_t` operand to `size_t`
      when it meets a `size_t` in a comparison. */
  function SSizeAsSize(bits: LongBits, x: int): (u: int)
    requires IsSSize(bits, x)
    ensures IsULong(bits, u)
    ensures x >= 0 ==> u == x
    ensures x < 0 ==> u == x + LongLimit(bits)
  {
    if x >= 0 then x else x + LongLimit(bits)
  }

  /* ------------------------------------------- modular arithmetic facts */

  lemma MulAtLeast(k: int, m: int)
    requires k >= 1 && m > 0
    ensures k * m >= m
    decreases k
  {
    if k > 1 {
      MulAtLeast(k - 1, m);
      assert k * m == (k - 1) * m + m;
    }
  }

  /** Euclidean division has exactly one quotient and remainder. */
  lemma DivModUnique(x: int, m: int, q: int, r: int)
    requires m > 0 && 0 <= r < m && x == q * m + r
    ensures x % m == r && x / m == q
  {
    var q0, r0 := x / m, x % m;
    assert x == q0 * m + r0;
    var k := q - q0;
    assert k * m == q * m - q0 * m;
    if k >= 1 {
      MulAtLeast(k, m);
    } else if k <= -1 {
      MulAtLeast(-k, m);
    }
  }

  /** Values already in range are left alone. */
  lemma WrapInRange(bits: LongBits, x: int)
    requires IsULong(bits, x)
    ensures WrapULong(bits, x) == x
  {
  }

  lemma WrapIsMod(bits: LongBits, x: int)
    ensures WrapULong(bits, x) == x % LongLimit(bits)
  {
  }

  /** Adding a multiple of the modulus does not change an `unsigned long`. */
  lemma WrapShift(bits: LongBits, x: int, k: int)
    ensures WrapULong(bits, x + k * LongLimit(bits)) == WrapULong(bits, x)
  {
    var m := LongLimit(bits);
    WrapIsMod(bits, x);
    WrapIsMod(bits, x + k * m);
    assert x == (x / m) * m + x % m;
    assert x + k * m == (x / m + k) * m + x % m;
    DivModUnique(x + k * m, m, x / m + k, x % m);
  }

  /** Arithmetic on a wrapped value agrees with arithmetic before wrapping. */
  lemma WrapAdd(bits: LongBits, x: int, d: int)
    ensures WrapULong(bits, WrapULong(bits, x) + d) == WrapULong(bits, x + d)
  {
    var m := LongLimit(bits);
    WrapIsMod(bits, x);
    assert x == (x / m) * m + x % m;
    assert WrapULong(bits, x) + d == (x + d) + (-(x / m)) * m;
    WrapShift(bits, x + d, -(x / m));
  }

  /** Subtracting a wrapped value is subtracting the unwrapped one. */
  lemma WrapSub(bits: LongBits, x: int, y: int)
    ensures WrapULong(bits, x - WrapULong(bits, y)) == WrapULong(bits, x - y)
  {
    var m := LongLimit(bits);
    WrapIsMod(bits, y);
    assert y == (y / m) * m + y % m;
    assert x - WrapULong(bits, y) == (x - y) + (y / m) * m;
    WrapShift(bits, x - y, y / m);
  }

  /** Negating a value in (0, 2^bits) gives its complement. */
  lemma WrapNegate(bits: LongBits, y: int)
    requires 0 < y < LongLimit(bits)
    ensures WrapULong(bits, -y) == LongLimit(bits) - y
  {
    WrapIsMod(bits, -y);
    DivModUnique(-y, LongLimit(bits), -1, LongLimit(bits) - y);
  }
}
