/** Single bits of a 32-bit word, and narrower words kept in its low bits. */
module Bits32 {

  predicate IsWidth(w: nat) { w == 8 || w == 16 || w == 32 }

  /** All bits of a word of `w` bits. */
  function Mask(w: nat): bv32
    requires IsWidth(w)
  {
    if w == 8 then 0xFF else if w == 16 then 0xFFFF else 0xFFFF_FFFF
  }

  predicate Fits(w: nat, v: bv32)
    requires IsWidth(w)
  {
    v & Mask(w) == v
  }

  type Byte = b: bv32 | b & 0xFF == b

  function Half(v: bv32): bv32 { v >> 1 }

  function Shifted(v: bv32, n: nat): bv32
    requires n < 32
  {
    v >> n
  }

  /** Bit `i` of `b`, least significant first. */
  predicate Bit(b: bv32, i: nat)
    requires i < 32
  {
    (b >> i) & 1 == 1
  }

  function One(i: nat): bv32
    requires i < 32
  {
    1 << i
  }

  lemma OneBit(i: nat, k: nat)
    requires i < 32 && k < 32
    ensures Bit(One(i), k) <==> i == k
  {
  }

  // How the word operators act on single bits.

  lemma BitOr(x: bv32, y: bv32, k: nat)
    requires k < 32
    ensures Bit(x | y, k) <==> Bit(x, k) || Bit(y, k)
  {
    assert ((x | y) >> k) & 1 == ((x >> k) & 1) | ((y >> k) & 1);
  }

  lemma BitXor(x: bv32, y: bv32, k: nat)
    requires k < 32
    ensures Bit(x ^ y, k) <==> (Bit(x, k) != Bit(y, k))
  {
    assert ((x ^ y) >> k) & 1 == ((x >> k) & 1) ^ ((y >> k) & 1);
  }

  lemma AllBits(k: nat)
    requires k < 32
    ensures Bit(0xFFFF_FFFF, k)
  {
  }

  lemma NotIsXor(x: bv32)
    ensures !x == x ^ 0xFFFF_FFFF
  {
  }

  lemma BitNot(x: bv32, k: nat)
    requires k < 32
    ensures Bit(!x, k) <==> !Bit(x, k)
  {
    hide Bit;
    NotIsXor(x);
    AllBits(k);
    BitXor(x, 0xFFFF_FFFF, k);
  }

  lemma DeMorgan(x: bv32, y: bv32)
    ensures x & y == !(!x | !y)
  {
  }

  lemma BitAnd(x: bv32, y: bv32, k: nat)
    requires k < 32
    ensures Bit(x & y, k) <==> Bit(x, k) && Bit(y, k)
  {
    hide Bit;
    DeMorgan(x, y);
    BitNot(!x | !y, k);
    BitOr(!x, !y, k);
    BitNot(x, k);
    BitNot(y, k);
  }

  lemma BitAndNot(x: bv32, y: bv32, k: nat)
    requires k < 32
    ensures Bit(x & !y, k) <==> Bit(x, k) && !Bit(y, k)
  {
    hide Bit;
    var c := !y;
    assert Bit(c, k) <==> !Bit(y, k) by {
      BitNot(y, k);
    }
    BitAnd(x, c, k);
  }

  // Setting and clearing bits.

  function With(x: bv32, b: bv32): bv32 { x | b }

  function Without(x: bv32, b: bv32): bv32 { x & !b }

  lemma WithBits(x: bv32, c: bv32, i: nat, k: nat)
    requires k < 32 && (Bit(c, k) <==> i == k)
    ensures Bit(With(x, c), k) <==> k == i || Bit(x, k)
  {
    hide Bit;
    BitOr(x, c, k);
  }

  lemma WithoutBits(x: bv32, c: bv32, i: nat, k: nat)
    requires k < 32 && (Bit(c, k) <==> i == k)
    ensures Bit(Without(x, c), k) <==> k != i && Bit(x, k)
  {
    hide Bit;
    BitAndNot(x, c, k);
  }

  lemma SetBit(b: bv32, i: nat, k: nat)
    requires i < 32 && k < 32
    ensures Bit(With(b, One(i)), k) <==> k == i || Bit(b, k)
  {
    hide Bit, One, With;
    OneBit(i, k);
    WithBits(b, One(i), i, k);
  }

  lemma ClearBit(b: bv32, i: nat, k: nat)
    requires i < 32 && k < 32
    ensures Bit(Without(b, One(i)), k) <==> k != i && Bit(b, k)
  {
    hide Bit, One, Without;
    OneBit(i, k);
    WithoutBits(b, One(i), i, k);
  }

  /** Shift amounts as the operators take them. */
  lemma Amount(j: nat)
    requires j < 31
    ensures (j + 1) as bv6 == (j as bv6) + 1
  {
  }

  lemma AmountBound(j: nat)
    requires j < 31
    ensures (j as bv6) < 31
  {
  }

  function Twice(v: bv32): bv32 { v << 1 }

  lemma OneTwice(i: nat)
    requires i < 31
    ensures Twice(One(i)) == One(i + 1)
  {
    Amount(i);
    AmountBound(i);
    OneShiftedBv(i as bv6);
  }

  lemma OneShiftedBv(k: bv6)
    requires k < 31
    ensures ((1 as bv32) << k) << 1 == (1 as bv32) << (k + 1)
  {
  }

  lemma NonZero(b: bv32, i: nat)
    requires i < 32 && Bit(b, i)
    ensures b != 0
  {
  }

  lemma ZeroBits(i: nat)
    requires i < 32
    ensures !Bit(0, i)
  {
  }

  lemma ShiftNext(x: bv32, j: nat)
    requires j < 31
    ensures (x >> 1) >> j == x >> (j + 1) && (x >> j) >> 1 == x >> (j + 1)
  {
    Amount(j);
    AmountBound(j);
    ShiftNextBv(x, j as bv6);
  }

  lemma ShiftNextBv(x: bv32, k: bv6)
    requires k < 31
    ensures (x >> 1) >> k == x >> (k + 1) && (x >> k) >> 1 == x >> (k + 1)
  {
  }

  lemma ShiftedZero(v: bv32)
    ensures Shifted(v, 0) == v
  {
  }

  lemma ShiftedNext(v: bv32, n: nat)
    requires n < 31
    ensures Half(Shifted(v, n)) == Shifted(v, n + 1)
  {
    ShiftNext(v, n);
  }

  lemma ZeroFits(w: nat)
    requires IsWidth(w)
    ensures Fits(w, 0)
  {
  }

  lemma OneFits(w: nat, p: nat)
    requires IsWidth(w) && p < w
    ensures Fits(w, One(p))
  {
  }

  lemma WithFits8(a: bv32, b: bv32)
    requires Fits(8, a) && Fits(8, b)
    ensures Fits(8, With(a, b))
  {
  }

  lemma WithFits16(a: bv32, b: bv32)
    requires Fits(16, a) && Fits(16, b)
    ensures Fits(16, With(a, b))
  {
  }

  lemma WithFits32(a: bv32, b: bv32)
    requires Fits(32, a) && Fits(32, b)
    ensures Fits(32, With(a, b))
  {
  }

  lemma WithFits(w: nat, a: bv32, b: bv32)
    requires IsWidth(w) && Fits(w, a) && Fits(w, b)
    ensures Fits(w, With(a, b))
  {
    hide Fits, With, Mask;
    if w == 8 {
      WithFits8(a, b);
    } else if w == 16 {
      WithFits16(a, b);
    } else {
      WithFits32(a, b);
    }
  }

  lemma WithoutFits8(a: bv32, b: bv32)
    requires Fits(8, a)
    ensures Fits(8, Without(a, b))
  {
  }

  lemma WithoutFits16(a: bv32, b: bv32)
    requires Fits(16, a)
    ensures Fits(16, Without(a, b))
  {
  }

  lemma WithoutFits32(a: bv32, b: bv32)
    requires Fits(32, a)
    ensures Fits(32, Without(a, b))
  {
  }

  lemma WithoutFits(w: nat, a: bv32, b: bv32)
    requires IsWidth(w) && Fits(w, a)
    ensures Fits(w, Without(a, b))
  {
    hide Fits, Without, Mask;
    if w == 8 {
      WithoutFits8(a, b);
    } else if w == 16 {
      WithoutFits16(a, b);
    } else {
      WithoutFits32(a, b);
    }
  }
}
