/** Fixed-width machine integers of the library, modelled as ranges of `int` with explicit wrap-around. */
module MachineInts {

  type u8 = x: int | 0 <= x < 0x100
  type u16 = x: int | 0 <= x < 0x1_0000
  type u32 = x: int | 0 <= x < 0x1_0000_0000
  type u64 = x: int | 0 <= x < 0x1_0000_0000_0000_0000
  type i32 = x: int | -0x8000_0000 <= x < 0x8000_0000
  type i64 = x: int | -0x8000_0000_0000_0000 <= x < 0x8000_0000_0000_0000

  /** Conversion to `uint8_t`, `uint16_t`, `uint32_t`, `uint64_t`: the residue modulo the width. */
  function U8(x: int): (r: u8)
    ensures 0 <= x < 0x100 ==> r == x
  {
    x % 0x100
  }

  function U16(x: int): (r: u16)
    ensures 0 <= x < 0x1_0000 ==> r == x
  {
    x % 0x1_0000
  }

  function U32(x: int): (r: u32)
    ensures 0 <= x < 0x1_0000_0000 ==> r == x
  {
    x % 0x1_0000_0000
  }

  function U64(x: int): (r: u64)
    ensures 0 <= x < 0x1_0000_0000_0000_0000 ==> r == x
  {
    x % 0x1_0000_0000_0000_0000
  }

  /** Conversion to `int32_t` and `int64_t`: the residue in two's complement. */
  function I32(x: int): i32 { (x + 0x8000_0000) % 0x1_0000_0000 - 0x8000_0000 }

  function I64(x: int): i64 {
    (x + 0x8000_0000_0000_0000) % 0x1_0000_0000_0000_0000 - 0x8000_0000_0000_0000
  }

  /** `2^n`, the factor by which a shift of `n` places multiplies or divides. */
  function Pow2(n: nat): (p: nat)
    ensures p > 0
  {
    if n == 0 then 1 else 2 * Pow2(n - 1)
  }

  lemma {:induction false} Pow2Add(m: nat, n: nat)
    ensures Pow2(m + n) == Pow2(m) * Pow2(n)
    decreases m
  {
    if m == 0 {
    } else {
      Pow2Add(m - 1, n);
      assert Pow2(m + n) == 2 * Pow2(m - 1 + n);
      assert 2 * (Pow2(m - 1) * Pow2(n)) == (2 * Pow2(m - 1)) * Pow2(n);
    }
  }

  /** Multiplication by a natural number keeps the order. */
  lemma MulOrder(n: nat, a: int, b: int)
    requires a <= b
    ensures n * a <= n * b && (a < b && n > 0 ==> n * a < n * b)
  {
    MulNonNegative(n, b - a);
    assert n * (b - a) == n * b - n * a;
  }

  lemma MulNonNegative(n: nat, d: nat)
    ensures n * d >= 0 && (n > 0 && d > 0 ==> n * d > 0)
  {
  }

  lemma Euclid(n: int, v: int)
    requires v > 0
    ensures n == v * (n / v) + n % v && 0 <= n % v < v
  {
  }

  /** A number exceeds a quotient exactly when its product with the divisor exceeds the dividend. */
  lemma QuotientBelow(q: int, n: int, v: int)
    requires v > 0
    ensures q * v > n <==> q > n / v
  {
    Euclid(n, v);
    if q > n / v {
      MulOrder(v, n / v + 1, q);
      assert v * (n / v + 1) == v * (n / v) + v;
    } else {
      MulOrder(v, q, n / v);
    }
  }
}
