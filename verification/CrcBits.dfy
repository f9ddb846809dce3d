/** Bit-level facts about registers of 8, 16 and 32 bits, kept in the low bits of a word. */
module CrcBits {
  import opened Bits32

  /** The most significant bit of a register. */
  function Msb(w: nat): bv32
    requires IsWidth(w)
  {
    if w == 8 then 0x80 else if w == 16 then 0x8000 else 0x8000_0000
  }

  function Xor(a: bv32, b: bv32): bv32 { a ^ b }

  predicate Low(v: bv32) { v & 1 != 0 }

  predicate High(w: nat, v: bv32)
    requires IsWidth(w)
  {
    v & Msb(w) != 0
  }

  /** One shift of the register, least significant bit first. */
  function StepRight(p: bv32, v: bv32): bv32
  {
    if Low(v) then Xor(Half(v), p) else Half(v)
  }

  /** One shift of the register, most significant bit first. */
  function StepLeft(w: nat, p: bv32, v: bv32): bv32
    requires IsWidth(w)
  {
    if High(w, v) then Xor(Double(w, v), p) else Double(w, v)
  }

  function Double(w: nat, v: bv32): bv32
    requires IsWidth(w)
  {
    (v << 1) & Mask(w)
  }

  // Exclusive or.

  lemma XorSelf(a: bv32)
    ensures Xor(a, a) == 0 && Xor(a, 0) == a
  {
  }

  lemma XorAssoc(x: bv32, y: bv32, p: bv32)
    ensures Xor(x, Xor(y, p)) == Xor(Xor(x, y), p)
  {
    assert x ^ (y ^ p) == (x ^ y) ^ p;
  }

  lemma XorComm(x: bv32, y: bv32)
    ensures Xor(x, y) == Xor(y, x)
  {
  }

  lemma XorSwap(x: bv32, y: bv32, p: bv32)
    ensures Xor(Xor(x, p), Xor(y, p)) == Xor(x, y)
    ensures Xor(Xor(x, p), y) == Xor(Xor(x, y), p)
    ensures Xor(x, Xor(y, p)) == Xor(Xor(x, y), p)
  {
    hide Xor;
    XorAssoc(Xor(x, p), y, p);
    XorAssoc(x, p, y);
    XorComm(p, y);
    XorAssoc(x, y, p);
    XorAssoc(Xor(x, y), p, p);
    XorSelf(p);
    XorSelf(Xor(x, y));
  }

  lemma XorCancel(x: bv32, y: bv32, p: bv32)
    requires Xor(x, p) == Xor(y, p)
    ensures x == y
  {
    hide Xor;
    XorAssoc(x, p, p);
    XorAssoc(y, p, p);
    XorSelf(p);
    XorSelf(x);
    XorSelf(y);
  }

  lemma Xor8(a: bv32, b: bv32)
    ensures (a ^ b) & 0xFF == (a & 0xFF) ^ (b & 0xFF)
  {
  }

  lemma Xor16(a: bv32, b: bv32)
    ensures (a ^ b) & 0xFFFF == (a & 0xFFFF) ^ (b & 0xFFFF)
  {
  }

  lemma Xor32(a: bv32, b: bv32)
    ensures (a ^ b) & 0xFFFF_FFFF == (a & 0xFFFF_FFFF) ^ (b & 0xFFFF_FFFF)
  {
  }

  lemma XorFits(w: nat, a: bv32, b: bv32)
    requires IsWidth(w) && Fits(w, a) && Fits(w, b)
    ensures Fits(w, Xor(a, b))
  {
    if w == 8 {
      Xor8(a, b);
    } else if w == 16 {
      Xor16(a, b);
    } else {
      Xor32(a, b);
    }
  }

  lemma HalfXor(a: bv32, b: bv32)
    ensures Half(Xor(a, b)) == Xor(Half(a), Half(b))
  {
  }

  lemma LowXor(a: bv32, b: bv32)
    ensures Low(Xor(a, b)) <==> Low(a) != Low(b)
  {
    assert (a ^ b) & 1 == (a & 1) ^ (b & 1);
    assert a & 1 == 0 || a & 1 == 1;
    assert b & 1 == 0 || b & 1 == 1;
  }

  /** A word is determined by its lowest bit and the others. */
  lemma HalfLow(a: bv32, b: bv32)
    requires Half(a) == Half(b) && Low(a) == Low(b)
    ensures a == b
  {
  }

  // The register step.

  lemma StepLinear(p: bv32, a: bv32, b: bv32)
    ensures StepRight(p, Xor(a, b)) == Xor(StepRight(p, a), StepRight(p, b))
  {
    hide Xor, Half, Low;
    HalfXor(a, b);
    LowXor(a, b);
    XorSwap(Half(a), Half(b), p);
  }

  lemma HalfFits(w: nat, v: bv32)
    requires IsWidth(w) && Fits(w, v)
    ensures Fits(w, Half(v)) && !High(w, Half(v))
  {
  }

  lemma HighXor8(a: bv32, p: bv32)
    requires a & 0x80 == 0 && p & 0x80 != 0
    ensures (a ^ p) & 0x80 != 0
  {
  }

  lemma HighXor16(a: bv32, p: bv32)
    requires a & 0x8000 == 0 && p & 0x8000 != 0
    ensures (a ^ p) & 0x8000 != 0
  {
  }

  lemma HighXor32(a: bv32, p: bv32)
    requires a & 0x8000_0000 == 0 && p & 0x8000_0000 != 0
    ensures (a ^ p) & 0x8000_0000 != 0
  {
  }

  lemma HighXor(w: nat, a: bv32, p: bv32)
    requires IsWidth(w) && !High(w, a) && High(w, p)
    ensures High(w, Xor(a, p))
  {
    if w == 8 {
      HighXor8(a, p);
    } else if w == 16 {
      HighXor16(a, p);
    } else {
      HighXor32(a, p);
    }
  }

  /** The bit shifted out can be read off the new register when the polynomial has its top bit. */
  lemma StepHigh(w: nat, p: bv32, v: bv32)
    requires IsWidth(w) && High(w, p) && Fits(w, p) && Fits(w, v)
    ensures High(w, StepRight(p, v)) <==> Low(v)
    ensures Fits(w, StepRight(p, v))
  {
    hide Xor, Half, Low, High, Fits;
    HalfFits(w, v);
    HighXor(w, Half(v), p);
    XorFits(w, Half(v), p);
  }

  lemma StepInjective(w: nat, p: bv32, a: bv32, b: bv32)
    requires IsWidth(w) && High(w, p) && Fits(w, p) && Fits(w, a) && Fits(w, b)
    requires StepRight(p, a) == StepRight(p, b)
    ensures a == b
  {
    hide Xor, Half, Low, High, Fits;
    StepHigh(w, p, a);
    StepHigh(w, p, b);
    if Low(a) {
      XorCancel(Half(a), Half(b), p);
    }
    HalfLow(a, b);
  }

  // Reversal.

  function Swap1(x: bv32): bv32 { ((x >> 1) & 0x5555_5555) | ((x & 0x5555_5555) << 1) }

  function Swap2(x: bv32): bv32 { ((x >> 2) & 0x3333_3333) | ((x & 0x3333_3333) << 2) }

  function Swap4(x: bv32): bv32 { ((x >> 4) & 0x0F0F_0F0F) | ((x & 0x0F0F_0F0F) << 4) }

  function Swap8(x: bv32): bv32 { ((x >> 8) & 0x00FF_00FF) | ((x & 0x00FF_00FF) << 8) }

  function Swap16(x: bv32): bv32 { (x >> 16) | (x << 16) }

  /** `ReverseBits<uint32_t>`. */
  function Reverse32(x: bv32): bv32 { Swap16(Swap8(Swap4(Swap2(Swap1(x))))) }

  /** `ReverseBits<uint16_t>`. */
  function Reverse16(x: bv32): bv32
  {
    var t1 := ((x >> 1) & 0x5555) | ((x & 0x5555) << 1);
    var t2 := ((t1 >> 2) & 0x3333) | ((t1 & 0x3333) << 2);
    var t3 := ((t2 >> 4) & 0x0F0F) | ((t2 & 0x0F0F) << 4);
    (t3 >> 8) | ((t3 << 8) & 0xFF00)
  }

  /** `ReverseBits<uint8_t>`. */
  function Reverse8(x: bv32): bv32
  {
    var t1 := ((x >> 1) & 0x55) | ((x & 0x55) << 1);
    var t2 := ((t1 >> 2) & 0x33) | ((t1 & 0x33) << 2);
    (t2 >> 4) | ((t2 << 4) & 0xFF)
  }

  function Reverse(w: nat, x: bv32): bv32
    requires IsWidth(w)
  {
    if w == 8 then Reverse8(x) else if w == 16 then Reverse16(x) else Reverse32(x)
  }

  /** A narrower reversal is the upper part of the full one. */
  function Down(w: nat, x: bv32): bv32
    requires IsWidth(w)
  {
    if w == 8 then x >> 24 else if w == 16 then x >> 16 else x
  }

  lemma ReverseIsDown(w: nat, x: bv32)
    requires IsWidth(w) && Fits(w, x)
    ensures Reverse(w, x) == Down(w, Reverse32(x))
  {
  }

  lemma Reverse32Xor(a: bv32, b: bv32)
    ensures Reverse32(Xor(a, b)) == Xor(Reverse32(a), Reverse32(b))
  {
    hide Swap1, Swap2, Swap4, Swap8, Swap16, Xor;
    Swap1Xor(a, b);
    var a1, b1 := Swap1(a), Swap1(b);
    Swap2Xor(a1, b1);
    var a2, b2 := Swap2(a1), Swap2(b1);
    Swap4Xor(a2, b2);
    var a4, b4 := Swap4(a2), Swap4(b2);
    Swap8Xor(a4, b4);
    Swap16Xor(Swap8(a4), Swap8(b4));
  }

  lemma Swap1Xor(a: bv32, b: bv32)
    ensures Swap1(Xor(a, b)) == Xor(Swap1(a), Swap1(b))
  {
  }

  lemma Swap2Xor(a: bv32, b: bv32)
    ensures Swap2(Xor(a, b)) == Xor(Swap2(a), Swap2(b))
  {
  }

  lemma Swap4Xor(a: bv32, b: bv32)
    ensures Swap4(Xor(a, b)) == Xor(Swap4(a), Swap4(b))
  {
  }

  lemma Swap8Xor(a: bv32, b: bv32)
    ensures Swap8(Xor(a, b)) == Xor(Swap8(a), Swap8(b))
  {
  }

  lemma Swap16Xor(a: bv32, b: bv32)
    ensures Swap16(Xor(a, b)) == Xor(Swap16(a), Swap16(b))
  {
  }

  lemma DownXor(w: nat, a: bv32, b: bv32)
    requires IsWidth(w)
    ensures Down(w, Xor(a, b)) == Xor(Down(w, a), Down(w, b))
  {
    if w == 8 {
      assert (a ^ b) >> 24 == (a >> 24) ^ (b >> 24);
    } else if w == 16 {
      assert (a ^ b) >> 16 == (a >> 16) ^ (b >> 16);
    }
  }

  lemma ReverseXor(w: nat, a: bv32, b: bv32)
    requires IsWidth(w) && Fits(w, a) && Fits(w, b)
    ensures Reverse(w, Xor(a, b)) == Xor(Reverse(w, a), Reverse(w, b))
  {
    hide Reverse, Reverse32, Down, Fits, Xor;
    XorFits(w, a, b);
    ReverseIsDown(w, a);
    ReverseIsDown(w, b);
    ReverseIsDown(w, Xor(a, b));
    Reverse32Xor(a, b);
    DownXor(w, Reverse32(a), Reverse32(b));
  }

  lemma ReverseFits8(v: bv32)
    requires Fits(8, v)
    ensures Fits(8, Reverse8(v))
  {
  }

  lemma ReverseFits16(v: bv32)
    requires Fits(16, v)
    ensures Fits(16, Reverse16(v))
  {
  }

  lemma ReverseFits32(v: bv32)
    requires Fits(32, v)
    ensures Fits(32, Reverse32(v))
  {
  }

  lemma ReverseFits(w: nat, v: bv32)
    requires IsWidth(w) && Fits(w, v)
    ensures Fits(w, Reverse(w, v))
  {
    hide Fits, Mask, Reverse8, Reverse16, Reverse32;
    if w == 8 {
      ReverseFits8(v);
    } else if w == 16 {
      ReverseFits16(v);
    } else {
      ReverseFits32(v);
    }
  }

  lemma ReverseTwice(w: nat, v: bv32)
    requires IsWidth(w) && Fits(w, v)
    ensures Reverse(w, Reverse(w, v)) == v
  {
    hide Reverse8, Reverse16, Reverse32;
    if w == 8 {
      Reverse8Twice(v);
    } else if w == 16 {
      Reverse16Twice(v);
    } else {
      Reverse32Twice(v);
    }
  }

  lemma Reverse8Twice(v: bv32)
    requires v & 0xFF == v
    ensures Reverse8(Reverse8(v)) == v
  {
  }

  lemma Reverse16Twice(v: bv32)
    requires v & 0xFFFF == v
    ensures Reverse16(Reverse16(v)) == v
  {
  }

  lemma Reverse32Twice(v: bv32)
    ensures Reverse32(Reverse32(v)) == v
  {
  }

  lemma LowEnd8(v: bv32)
    ensures Low(Reverse8(v)) <==> High(8, v)
  {
  }

  lemma HighEnd8(v: bv32)
    ensures High(8, Reverse8(v)) <==> Low(v)
  {
  }

  lemma LowEnd16(v: bv32)
    ensures Low(Reverse16(v)) <==> High(16, v)
  {
  }

  lemma HighEnd16(v: bv32)
    ensures High(16, Reverse16(v)) <==> Low(v)
  {
  }

  lemma LowEnd32(v: bv32)
    ensures Low(Reverse32(v)) <==> High(32, v)
  {
  }

  lemma HighEnd32(v: bv32)
    ensures High(32, Reverse32(v)) <==> Low(v)
  {
  }

  lemma ReverseEnds(w: nat, v: bv32)
    requires IsWidth(w) && Fits(w, v)
    ensures Low(Reverse(w, v)) <==> High(w, v)
    ensures High(w, Reverse(w, v)) <==> Low(v)
  {
    hide Reverse8, Reverse16, Reverse32, Fits, Low, High;
    if w == 8 {
      LowEnd8(v);
      HighEnd8(v);
    } else if w == 16 {
      LowEnd16(v);
      HighEnd16(v);
    } else {
      LowEnd32(v);
      HighEnd32(v);
    }
  }

  /** One byte of a word. */
  function Lane(k: nat, x: bv32): bv32
    requires k < 4
  {
    if k == 0 then x & 0xFF else if k == 1 then x & 0xFF00 else if k == 2 then x & 0xFF_0000 else x & 0xFF00_0000
  }

  lemma LanesEqual(a: bv32, b: bv32)
    requires Lane(0, a) == Lane(0, b) && Lane(1, a) == Lane(1, b)
    requires Lane(2, a) == Lane(2, b) && Lane(3, a) == Lane(3, b)
    ensures a == b
  {
  }

  lemma Double32Lane(k: nat, v: bv32)
    requires k < 4
    ensures Lane(k, Reverse32(Double(32, v))) == Lane(k, Half(Reverse32(v)))
  {
    if k == 0 {
    } else if k == 1 {
    } else if k == 2 {
    } else {
    }
  }

  lemma Double16Lane(k: nat, v: bv32)
    requires k < 4 && Fits(16, v)
    ensures Lane(k, Reverse16(Double(16, v))) == Lane(k, Half(Reverse16(v)))
  {
    if k == 0 {
    } else if k == 1 {
    } else if k == 2 {
    } else {
    }
  }

  lemma Double8(v: bv32)
    requires Fits(8, v)
    ensures Reverse8(Double(8, v)) == Half(Reverse8(v))
  {
  }

  lemma ReverseDouble(w: nat, v: bv32)
    requires IsWidth(w) && Fits(w, v)
    ensures Reverse(w, Double(w, v)) == Half(Reverse(w, v))
  {
    hide Lane, Reverse8, Reverse16, Reverse32, Double, Half, Fits;
    if w == 8 {
      Double8(v);
    } else if w == 16 {
      Double16Lane(0, v);
      Double16Lane(1, v);
      Double16Lane(2, v);
      Double16Lane(3, v);
      LanesEqual(Reverse16(Double(16, v)), Half(Reverse16(v)));
    } else {
      Double32Lane(0, v);
      Double32Lane(1, v);
      Double32Lane(2, v);
      Double32Lane(3, v);
      LanesEqual(Reverse32(Double(32, v)), Half(Reverse32(v)));
    }
  }

  /** Shifting one way is the mirror image of shifting the other way. */
  lemma StepMirror(w: nat, p: bv32, v: bv32)
    requires IsWidth(w) && Fits(w, p) && Fits(w, v)
    ensures Fits(w, StepLeft(w, p, v)) && Reverse(w, StepLeft(w, p, v)) == StepRight(Reverse(w, p), Reverse(w, v))
  {
    hide Reverse, Double, Half, Xor, Fits, Low, High;
    ReverseEnds(w, v);
    ReverseDouble(w, v);
    DoubleFits(w, v);
    ReverseXor(w, Double(w, v), p);
    XorFits(w, Double(w, v), p);
  }

  lemma DoubleFits(w: nat, v: bv32)
    requires IsWidth(w)
    ensures Fits(w, Double(w, v))
  {
  }

  // Whole bytes.

  function LowByte(v: bv32): (b: Byte) { v & 0xFF }

  function Shr8(v: bv32): bv32 { v >> 8 }

  function Shl8(w: nat, v: bv32): bv32
    requires IsWidth(w)
  {
    (v << 8) & Mask(w)
  }

  /** The byte that is shifted out first, most significant bit first; and a byte moved there. */
  function TopByte(w: nat, v: bv32): (b: Byte)
    requires IsWidth(w)
  {
    if w == 8 then v & 0xFF else if w == 16 then (v >> 8) & 0xFF else v >> 24
  }

  function FromByte(w: nat, c: bv32): bv32
    requires IsWidth(w)
  {
    if w == 8 then c & 0xFF else if w == 16 then (c << 8) & 0xFFFF else c << 24
  }

  /** The low 24 bits of `z`, `k` places up. */
  function Up(z: bv32, k: nat): bv32
    requires k <= 8
  {
    if k == 0 then z & 0xFF_FFFF
    else if k == 1 then (z & 0xFF_FFFF) << 1
    else if k == 2 then (z & 0xFF_FFFF) << 2
    else if k == 3 then (z & 0xFF_FFFF) << 3
    else if k == 4 then (z & 0xFF_FFFF) << 4
    else if k == 5 then (z & 0xFF_FFFF) << 5
    else if k == 6 then (z & 0xFF_FFFF) << 6
    else if k == 7 then (z & 0xFF_FFFF) << 7
    else (z & 0xFF_FFFF) << 8
  }

  lemma ShiftedUp(z: bv32)
    ensures !Low((z & 0xFF_FFFF) << 1) && Half((z & 0xFF_FFFF) << 1) == z & 0xFF_FFFF
    ensures !Low((z & 0xFF_FFFF) << 2) && Half((z & 0xFF_FFFF) << 2) == (z & 0xFF_FFFF) << 1
    ensures !Low((z & 0xFF_FFFF) << 3) && Half((z & 0xFF_FFFF) << 3) == (z & 0xFF_FFFF) << 2
    ensures !Low((z & 0xFF_FFFF) << 4) && Half((z & 0xFF_FFFF) << 4) == (z & 0xFF_FFFF) << 3
    ensures !Low((z & 0xFF_FFFF) << 5) && Half((z & 0xFF_FFFF) << 5) == (z & 0xFF_FFFF) << 4
    ensures !Low((z & 0xFF_FFFF) << 6) && Half((z & 0xFF_FFFF) << 6) == (z & 0xFF_FFFF) << 5
    ensures !Low((z & 0xFF_FFFF) << 7) && Half((z & 0xFF_FFFF) << 7) == (z & 0xFF_FFFF) << 6
    ensures !Low((z & 0xFF_FFFF) << 8) && Half((z & 0xFF_FFFF) << 8) == (z & 0xFF_FFFF) << 7
  {
  }

  lemma UpHalf(z: bv32, k: nat)
    requires 1 <= k <= 8
    ensures !Low(Up(z, k)) && Half(Up(z, k)) == Up(z, k - 1)
  {
    hide Low, Half;
    ShiftedUp(z);
  }

  /** Clear low bits are shifted out and nothing else happens. */
  lemma StepUp(p: bv32, z: bv32, k: nat)
    requires 1 <= k <= 8
    ensures StepRight(p, Up(z, k)) == Up(z, k - 1)
  {
    hide Low, Half, Xor, Up;
    UpHalf(z, k);
  }

  lemma SplitByte(v: bv32)
    ensures v == Xor(Up(Shr8(v), 8), LowByte(v)) && Up(Shr8(v), 0) == Shr8(v)
  {
    hide Up;
    UpEnds(Shr8(v));
    SplitLow(v);
  }

  lemma UpEnds(z: bv32)
    ensures Up(z, 8) == (z & 0xFF_FFFF) << 8 && Up(z, 0) == z & 0xFF_FFFF
  {
  }

  lemma SplitLow(v: bv32)
    ensures (((v >> 8) & 0xFF_FFFF) << 8) ^ (v & 0xFF) == v && (v >> 8) & 0xFF_FFFF == v >> 8
  {
  }

  lemma Shr8Xor(v: bv32, c: Byte)
    ensures Shr8(Xor(v, c)) == Shr8(v)
  {
    assert (v ^ c) >> 8 == (v >> 8) ^ (c >> 8);
    assert c >> 8 == 0;
    assert (v >> 8) ^ 0 == v >> 8;
  }

  lemma LowByteXor(a: bv32, b: bv32)
    ensures LowByte(Xor(a, b)) == Xor(LowByte(a), LowByte(b))
  {
    Xor8(a, b);
  }

  lemma Shl8Lane32(k: nat, v: bv32)
    requires k < 4
    ensures Lane(k, Reverse32(Shl8(32, v))) == Lane(k, Shr8(Reverse32(v)))
  {
    if k == 0 {
    } else if k == 1 {
    } else if k == 2 {
    } else {
    }
  }

  lemma Shl8Lane16(k: nat, v: bv32)
    requires k < 4 && Fits(16, v)
    ensures Lane(k, Reverse16(Shl8(16, v))) == Lane(k, Shr8(Reverse16(v)))
  {
    if k == 0 {
    } else if k == 1 {
    } else if k == 2 {
    } else {
    }
  }

  lemma Shl8Is0(v: bv32)
    requires Fits(8, v)
    ensures Reverse8(Shl8(8, v)) == Shr8(Reverse8(v))
  {
  }

  lemma ReverseShl8(w: nat, v: bv32)
    requires IsWidth(w) && Fits(w, v)
    ensures Reverse(w, Shl8(w, v)) == Shr8(Reverse(w, v))
  {
    hide Lane, Reverse8, Reverse16, Reverse32, Shl8, Shr8, Fits;
    if w == 8 {
      Shl8Is0(v);
    } else if w == 16 {
      Shl8Lane16(0, v);
      Shl8Lane16(1, v);
      Shl8Lane16(2, v);
      Shl8Lane16(3, v);
      LanesEqual(Reverse16(Shl8(16, v)), Shr8(Reverse16(v)));
    } else {
      Shl8Lane32(0, v);
      Shl8Lane32(1, v);
      Shl8Lane32(2, v);
      Shl8Lane32(3, v);
      LanesEqual(Reverse32(Shl8(32, v)), Shr8(Reverse32(v)));
    }
  }

  lemma ReverseFromByte(w: nat, c: Byte)
    requires IsWidth(w)
    ensures Fits(w, FromByte(w, c)) && Reverse(w, FromByte(w, c)) == Reverse8(c)
  {
  }

  lemma ReverseTopByte(w: nat, v: bv32)
    requires IsWidth(w) && Fits(w, v)
    ensures Reverse8(TopByte(w, v)) == LowByte(Reverse(w, v))
  {
  }

  // Single bits.

  /** A bit at place `k`. */
  function Digit(bit: bool, k: nat): bv32
    requires k < 32
  {
    if bit then One(k) else 0
  }

  lemma DigitBit(bit: bool, k: nat, i: nat)
    requires k < 32 && i < 32
    ensures Bit(Digit(bit, k), i) <==> bit && i == k
  {
    hide Bit, One;
    OneBit(k, i);
    ZeroBits(i);
  }

  lemma DigitFits(w: nat, bit: bool, k: nat)
    requires IsWidth(w) && k < w
    ensures Fits(w, Digit(bit, k))
  {
    hide Fits, One;
    OneFits(w, k);
    ZeroFits(w);
  }

  lemma XorBit(x: bv32, y: bv32, k: nat)
    requires k < 32
    ensures Bit(Xor(x, y), k) <==> (Bit(x, k) != Bit(y, k))
  {
    hide Bit;
    BitXor(x, y, k);
  }

  lemma StepDigit(p: bv32, bit: bool, k: nat)
    requires 1 <= k < 32
    ensures StepRight(p, Digit(bit, k)) == Digit(bit, k - 1)
  {
    hide Low, Half, Xor, One;
    OneHalf(k);
    ZeroHalf();
  }

  lemma OneHalf(k: nat)
    requires 1 <= k < 32
    ensures !Low(One(k)) && Half(One(k)) == One(k - 1)
  {
    Amount(k - 1);
    AmountBound(k - 1);
    OneHalfBv((k - 1) as bv6);
  }

  lemma OneHalfBv(k: bv6)
    requires k < 31
    ensures ((1 as bv32) << (k + 1)) >> 1 == (1 as bv32) << k && ((1 as bv32) << (k + 1)) & 1 == 0
  {
  }

  lemma ZeroHalf()
    ensures !Low(0) && Half(0) == 0
  {
  }

  /** Bytes with the same bits are equal. */
  lemma ByteExtensional(a: bv32, b: bv32)
    requires Fits(8, a) && Fits(8, b) && forall i: nat :: i < 8 ==> Bit(a, i) == Bit(b, i)
    ensures a == b
  {
    assert Bit(a, 0) == Bit(b, 0) && Bit(a, 1) == Bit(b, 1) && Bit(a, 2) == Bit(b, 2) && Bit(a, 3) == Bit(b, 3);
    assert Bit(a, 4) == Bit(b, 4) && Bit(a, 5) == Bit(b, 5) && Bit(a, 6) == Bit(b, 6) && Bit(a, 7) == Bit(b, 7);
  }

  lemma ReverseBit(c: Byte, i: nat)
    requires i < 8
    ensures Bit(Reverse8(c), i) == Bit(c, 7 - i)
  {
    if i == 0 {
    } else if i == 1 {
    } else if i == 2 {
    } else if i == 3 {
    } else if i == 4 {
    } else if i == 5 {
    } else if i == 6 {
    } else {
    }
  }
}
