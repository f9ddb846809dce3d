/** High half of a 32 x 32 bit product from 8 x 8 bit products (mcucpp/mul32hu.h). */
module Mul32 {
  import opened MachineInts

  /** The value of four bytes, least significant first. */
  function Word(w0: int, w1: int, w2: int, w3: int): int
  {
    w0 + 0x100 * w1 + 0x1_0000 * w2 + 0x100_0000 * w3
  }

  /** Multiply-accumulate of one byte; the sum fits the 16-bit `t`, so nothing is lost. */
  method Step(a: u8, b: u8, w: u8, k: u8) returns (w': u8, k': u8)
    ensures a * b + w + k < 0x1_0000
    ensures w' + 0x100 * k' == a * b + w + k
  {
    ProductBound(a, b);
    var t := U16(a * b + w + k);
    w', k' := U8(t), U8(t / 0x100);
  }

  lemma ProductBound(a: u8, b: u8)
    ensures 0 <= a * b <= 255 * 255
  {
    assert a * b <= 255 * b;
  }

  /** One row of the schoolbook product: the four bytes of `u` times `b`, added into four bytes of the result. */
  method Row(ghost u: u32, a0: u8, a1: u8, a2: u8, a3: u8, b: u8, i0: u8, i1: u8, i2: u8, i3: u8)
    returns (w0: u8, w1: u8, w2: u8, w3: u8, k: u8)
    requires u == Word(a0, a1, a2, a3)
    ensures Word(w0, w1, w2, w3) + 0x1_0000_0000 * k ==
            u * b + i0 + 0x100 * i1 + 0x1_0000 * i2 + 0x100_0000 * i3
  {
    w0, k := Step(a0, b, i0, 0);
    w1, k := Step(a1, b, i1, k);
    w2, k := Step(a2, b, i2, k);
    w3, k := Step(a3, b, i3, k);
    Distribute(a0, a1, a2, a3, b);
  }

  lemma Distribute(a0: int, a1: int, a2: int, a3: int, b: int)
    ensures Word(a0, a1, a2, a3) * b == Word(a0 * b, a1 * b, a2 * b, a3 * b)
  {
  }

  lemma ByteSum(u: u32)
    ensures u == Word(U8(u), U8(u / 0x100), U8(u / 0x1_0000), U8(u / 0x100_0000))
  {
    assert u / 0x1_0000 == u / 0x100 / 0x100;
    assert u / 0x100_0000 == u / 0x1_0000 / 0x100;
  }

  /** The bytes of a word, least significant first. */
  method Bytes(u: u32) returns (a0: u8, a1: u8, a2: u8, a3: u8)
    ensures u == Word(a0, a1, a2, a3)
  {
    ByteSum(u);
    a0, a1, a2, a3 := U8(u), U8(u / 0x100), U8(u / 0x1_0000), U8(u / 0x100_0000);
  }

  /** `mul32hu`: the upper 32 bits of the product. */
  method Mul32hu(u: u32, v: u32) returns (high: u32)
    ensures high == (u * v) / 0x1_0000_0000
  {
    var a0, a1, a2, a3 := Bytes(u);
    var b0, b1, b2, b3 := Bytes(v);
    var low;
    low, high := Rows(u, a0, a1, a2, a3, b0, b1, b2, b3);
    SumOfRows(u, b0, b1, b2, b3);
  }

  /** The sixteen steps of the carry chain, for both words of the union. */
  method Rows(ghost u: u32, a0: u8, a1: u8, a2: u8, a3: u8, b0: u8, b1: u8, b2: u8, b3: u8)
    returns (low: u32, high: u32)
    requires u == Word(a0, a1, a2, a3)
    ensures low + 0x1_0000_0000 * high == Word(u * b0, u * b1, u * b2, u * b3)
  {
    var w0, w1, w2, w3, w4, w5, w6, w7;
    w0, w1, w2, w3, w4 := Row(u, a0, a1, a2, a3, b0, 0, 0, 0, 0);
    w1, w2, w3, w4, w5 := Row(u, a0, a1, a2, a3, b1, w1, w2, w3, w4);
    w2, w3, w4, w5, w6 := Row(u, a0, a1, a2, a3, b2, w2, w3, w4, w5);
    w3, w4, w5, w6, w7 := Row(u, a0, a1, a2, a3, b3, w3, w4, w5, w6);
    low, high := Word(w0, w1, w2, w3), Word(w4, w5, w6, w7);
  }

  /** The rows, each one byte further left, add up to the product. */
  lemma SumOfRows(u: int, b0: int, b1: int, b2: int, b3: int)
    ensures Word(u * b0, u * b1, u * b2, u * b3) == u * Word(b0, b1, b2, b3)
  {
    Distribute(b0, b1, b2, b3, u);
  }
}
