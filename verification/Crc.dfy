/** Cyclic redundancy checks (mcucpp/crc.h). */
module Crc {
  import opened Bits32
  import opened CrcBits

  type Message = seq<Byte>

  /** A CRC class; `tablePoly` is the polynomial of the class whose table it uses. */
  datatype CrcClass = CrcClass(width: nat, init: bv32, refIn: bool, refOut: bool, xorOut: bv32, tablePoly: bv32) {
    predicate Valid()
    {
      IsWidth(width) && refIn == refOut && Fits(width, init) && Fits(width, xorOut) && Fits(width, tablePoly)
          && Low(tablePoly)
    }
  }

  const Crc16 := CrcClass(16, 0, true, true, 0, 0x8005)
  const Crc16Modbus := CrcClass(16, 0xFFFF, true, true, 0, 0x8005)
  const Crc16Citt := CrcClass(16, 0xFFFF, false, false, 0, 0x1021)
  const XModemCrc := CrcClass(16, 0, false, false, 0, 0x1021)
  const Crc32 := CrcClass(32, 0xFFFF_FFFF, true, true, 0xFFFF_FFFF, 0x04C1_1DB7)
  const DallasCrc := CrcClass(8, 0, true, true, 0, 0x31)

  lemma ClassesValid()
    ensures Crc16.Valid() && Crc16Modbus.Valid() && Crc16Citt.Valid()
    ensures XModemCrc.Valid() && Crc32.Valid() && DallasCrc.Valid()
  {
  }

  // The shift register.

  function StepsRight(p: bv32, v: bv32, n: nat): bv32
  {
    if n == 0 then v else StepRight(p, StepsRight(p, v, n - 1))
  }

  function StepsLeft(w: nat, p: bv32, v: bv32, n: nat): bv32
    requires IsWidth(w)
  {
    if n == 0 then v else StepLeft(w, p, StepsLeft(w, p, v, n - 1))
  }

  lemma {:induction false} StepsLinear(p: bv32, a: bv32, b: bv32, n: nat)
    ensures StepsRight(p, Xor(a, b), n) == Xor(StepsRight(p, a, n), StepsRight(p, b, n))
  {
    hide Xor, StepRight;
    if n == 0 {
    } else {
      StepsLinear(p, a, b, n - 1);
      StepLinear(p, StepsRight(p, a, n - 1), StepsRight(p, b, n - 1));
    }
  }

  lemma {:induction false} StepsFit(w: nat, p: bv32, v: bv32, n: nat)
    requires IsWidth(w) && High(w, p) && Fits(w, p) && Fits(w, v)
    ensures Fits(w, StepsRight(p, v, n))
  {
    hide StepRight, High, Fits;
    if n == 0 {
    } else {
      StepsFit(w, p, v, n - 1);
      StepHigh(w, p, StepsRight(p, v, n - 1));
    }
  }

  lemma {:induction false} StepsInjective(w: nat, p: bv32, a: bv32, b: bv32, n: nat)
    requires IsWidth(w) && High(w, p) && Fits(w, p) && Fits(w, a) && Fits(w, b)
    requires StepsRight(p, a, n) == StepsRight(p, b, n)
    ensures a == b
    decreases n
  {
    hide StepRight, High, Fits;
    if n == 0 {
    } else {
      StepsFit(w, p, a, n - 1);
      StepsFit(w, p, b, n - 1);
      StepInjective(w, p, StepsRight(p, a, n - 1), StepsRight(p, b, n - 1));
      StepsInjective(w, p, a, b, n - 1);
    }
  }

  lemma {:induction false} StepsAdd(p: bv32, v: bv32, m: nat, n: nat)
    ensures StepsRight(p, v, m + n) == StepsRight(p, StepsRight(p, v, m), n)
    decreases n
  {
    hide StepRight;
    if n == 0 {
    } else {
      StepsAdd(p, v, m, n - 1);
    }
  }

  /** A word whose low byte is clear only moves down. */
  lemma {:induction false} StepsUp(p: bv32, z: bv32, n: nat)
    requires n <= 8
    ensures StepsRight(p, Up(z, 8), n) == Up(z, 8 - n)
  {
    hide StepRight, Up;
    if n == 0 {
    } else {
      StepsUp(p, z, n - 1);
      StepUp(p, z, 8 - (n - 1));
    }
  }

  lemma {:induction false} StepsMirror(w: nat, p: bv32, v: bv32, n: nat)
    requires IsWidth(w) && Fits(w, p) && Fits(w, v)
    ensures Fits(w, StepsLeft(w, p, v, n))
    ensures Reverse(w, StepsLeft(w, p, v, n)) == StepsRight(Reverse(w, p), Reverse(w, v), n)
  {
    hide StepRight, StepLeft, Reverse, Fits;
    if n == 0 {
    } else {
      StepsMirror(w, p, v, n - 1);
      StepMirror(w, p, StepsLeft(w, p, v, n - 1));
    }
  }

  // One byte.

  /** `CrcTable`: eight steps on a byte. */
  function Table(c: CrcClass, v: bv32): bv32
    requires c.Valid()
  {
    if c.refIn then StepsRight(Reverse(c.width, c.tablePoly), v, 8)
    else StepsLeft(c.width, c.tablePoly, FromByte(c.width, v), 8)
  }

  /** `CrcUpdate`. */
  function Update(c: CrcClass, byte: Byte, crc: bv32): bv32
    requires c.Valid()
  {
    if c.refOut then Xor(Shr8(crc), Table(c, LowByte(Xor(crc, byte))))
    else Xor(Table(c, Xor(byte, TopByte(c.width, crc))), Shl8(c.width, crc))
  }

  /** The table form of a reflected update is the bit-serial one. */
  lemma UpdateRight(p: bv32, crc: bv32, byte: Byte)
    ensures Xor(Shr8(crc), StepsRight(p, LowByte(Xor(crc, byte)), 8)) == StepsRight(p, Xor(crc, byte), 8)
  {
    hide Xor, Shr8, LowByte, Up, StepsRight;
    var v := Xor(crc, byte);
    Shr8Xor(crc, byte);
    SplitByte(v);
    StepsUp(p, Shr8(v), 8);
    StepsLinear(p, Up(Shr8(v), 8), LowByte(v), 8);
  }

  /** An unreflected update is the mirror image of a reflected one. */
  lemma UpdateLeft(w: nat, p: bv32, crc: bv32, byte: Byte)
    requires IsWidth(w) && Fits(w, p) && Fits(w, crc)
    ensures var u := Xor(StepsLeft(w, p, FromByte(w, Xor(byte, TopByte(w, crc))), 8), Shl8(w, crc));
            Fits(w, u) && Reverse(w, u) == StepsRight(Reverse(w, p), Xor(Reverse(w, crc), Reverse8(byte)), 8)
  {
    hide Xor, Shr8, Shl8, LowByte, StepsRight, StepsLeft, Reverse, Reverse8, Fits, FromByte, TopByte;
    ByteFits(byte);
    ByteFits(TopByte(w, crc));
    var x: Byte := XorByte(byte, TopByte(w, crc));
    var t := StepsLeft(w, p, FromByte(w, x), 8);
    ReverseFromByte(w, x);
    StepsMirror(w, p, FromByte(w, x), 8);
    Shl8Fits(w, crc);
    ReverseXor(w, t, Shl8(w, crc));
    XorFits(w, t, Shl8(w, crc));
    ReverseShl8(w, crc);
    ReverseTopByte(w, crc);
    Reverse8Xor(byte, TopByte(w, crc));
    LowByteXor(Reverse(w, crc), Reverse8(byte));
    Reverse8Byte(byte);
    XorComm(Reverse8(byte), LowByte(Reverse(w, crc)));
    XorComm(StepsRight(Reverse(w, p), Reverse8(x), 8), Shr8(Reverse(w, crc)));
    UpdateRight(Reverse(w, p), Reverse(w, crc), ReversedByte(byte));
  }

  /** A byte with its bits in the opposite order. */
  function ReversedByte(byte: Byte): (b: Byte)
    ensures b == Reverse8(byte)
  {
    Reverse8Byte(byte);
    Reverse8(byte)
  }

  function XorByte(a: Byte, b: Byte): (x: Byte)
    ensures x == Xor(a, b)
  {
    Xor8(a, b);
    Xor(a, b)
  }

  lemma ByteFits(a: Byte)
    ensures Fits(8, a)
  {
  }

  lemma Reverse8Byte(a: Byte)
    ensures Reverse8(a) & 0xFF == Reverse8(a) && LowByte(Reverse8(a)) == Reverse8(a)
  {
  }

  lemma Reverse8Xor(a: Byte, b: Byte)
    ensures Reverse8(Xor(a, b)) == Xor(Reverse8(a), Reverse8(b))
  {
    ByteFits(a);
    ByteFits(b);
    ReverseXor(8, a, b);
  }

  lemma Shl8Fits(w: nat, v: bv32)
    requires IsWidth(w)
    ensures Fits(w, Shl8(w, v))
  {
  }

  // Whole messages.

  /** The register after a message, with the table. */
  function Register(c: CrcClass, m: Message, crc: bv32): bv32
    requires c.Valid()
  {
    if m == [] then crc else Update(c, m[|m| - 1], Register(c, m[..|m| - 1], crc))
  }

  /** The bit-serial register: every byte is added and shifted through, least significant bit first. */
  function SerialRight(p: bv32, m: Message, crc: bv32): bv32
  {
    if m == [] then crc else StepsRight(p, Xor(SerialRight(p, m[..|m| - 1], crc), m[|m| - 1]), 8)
  }

  /** The same, most significant bit first. */
  function SerialLeft(w: nat, p: bv32, m: Message, crc: bv32): bv32
    requires IsWidth(w)
  {
    if m == [] then crc else StepsLeft(w, p, Xor(SerialLeft(w, p, m[..|m| - 1], crc), FromByte(w, m[|m| - 1])), 8)
  }

  function ReversedBytes(m: Message): (r: Message)
    ensures |r| == |m| && forall i :: 0 <= i < |m| ==> r[i] == ReversedByte(m[i])
  {
    seq(|m|, i requires 0 <= i < |m| => ReversedByte(m[i]))
  }

  /** The polynomial the reflected register uses. */
  function RevPoly(c: CrcClass): bv32
    requires c.Valid()
  {
    Reverse(c.width, c.tablePoly)
  }

  lemma RevPolyHigh(c: CrcClass)
    requires c.Valid()
    ensures Fits(c.width, RevPoly(c)) && High(c.width, RevPoly(c))
  {
    hide Reverse, Fits, High, Low;
    ReverseFits(c.width, c.tablePoly);
    ReverseEnds(c.width, c.tablePoly);
  }

  /** For a reflected class the table form is the register shifted least significant bit first. */
  lemma {:induction false} RegisterIsSerialRight(c: CrcClass, m: Message, crc: bv32)
    requires c.Valid() && c.refIn
    ensures Register(c, m, crc) == SerialRight(RevPoly(c), m, crc)
    decreases |m|
  {
    hide StepsRight, Xor, Shr8, LowByte, Reverse, Fits, Low;
    if m == [] {
    } else {
      RegisterIsSerialRight(c, m[..|m| - 1], crc);
      UpdateRight(RevPoly(c), Register(c, m[..|m| - 1], crc), m[|m| - 1]);
    }
  }

  /** For the other classes it is the mirror image of that register, fed with mirrored bytes. */
  lemma {:induction false} RegisterIsMirror(c: CrcClass, m: Message, crc: bv32)
    requires c.Valid() && !c.refIn && Fits(c.width, crc)
    ensures Fits(c.width, Register(c, m, crc))
    ensures Reverse(c.width, Register(c, m, crc)) == SerialRight(RevPoly(c), ReversedBytes(m), Reverse(c.width, crc))
    decreases |m|
  {
    hide StepsRight, StepsLeft, Xor, Shr8, Shl8, LowByte, Reverse, Reverse8, Fits, Low, FromByte, TopByte;
    if m == [] {
    } else {
      var rest := m[..|m| - 1];
      RegisterIsMirror(c, rest, crc);
      UpdateLeft(c.width, c.tablePoly, Register(c, rest, crc), m[|m| - 1]);
      assert ReversedBytes(m)[..|m| - 1] == ReversedBytes(rest);
    }
  }

  /** The reflected and the unreflected form of a class, on mirrored bytes, are mirror images. */
  lemma MirroredClass(c: CrcClass, m: Message, crc: bv32)
    requires c.Valid() && !c.refIn && Fits(c.width, crc)
    ensures Register(c.(refIn := true, refOut := true), ReversedBytes(m), Reverse(c.width, crc)) ==
            Reverse(c.width, Register(c, m, crc))
  {
    hide Register, SerialRight, Reverse, Fits, Low;
    RegisterIsMirror(c, m, crc);
    RegisterIsSerialRight(c.(refIn := true, refOut := true), ReversedBytes(m), Reverse(c.width, crc));
  }

  /** For an unreflected class the table form is the register shifted most significant bit first. */
  lemma {:induction false} RegisterIsSerialLeft(c: CrcClass, m: Message, crc: bv32)
    requires c.Valid() && !c.refIn && Fits(c.width, crc)
    ensures Register(c, m, crc) == SerialLeft(c.width, c.tablePoly, m, crc) && Fits(c.width, Register(c, m, crc))
    decreases |m|
  {
    hide StepsRight, StepsLeft, Xor, Shr8, Shl8, LowByte, Reverse, Reverse8, Fits, Low, FromByte, TopByte;
    if m == [] {
    } else {
      var w, p, byte := c.width, c.tablePoly, m[|m| - 1];
      RegisterIsSerialLeft(c, m[..|m| - 1], crc);
      var r := Register(c, m[..|m| - 1], crc);
      UpdateLeft(w, p, r, byte);
      ReverseFromByte(w, byte);
      XorFits(w, r, FromByte(w, byte));
      StepsMirror(w, p, Xor(r, FromByte(w, byte)), 8);
      ReverseXor(w, r, FromByte(w, byte));
      ReverseTwice(w, Register(c, m, crc));
      ReverseTwice(w, SerialLeft(w, p, m, crc));
    }
  }

  /** `ComputeCrc` as a function of the message. */
  function Crc(c: CrcClass, m: Message, crc: bv32): bv32
    requires c.Valid()
  {
    Xor(Register(c, m, crc), c.xorOut)
  }

  /** A message can be processed in parts: the register carries over. */
  lemma {:induction false} Chaining(c: CrcClass, a: Message, b: Message, crc: bv32)
    requires c.Valid()
    ensures Register(c, a + b, crc) == Register(c, b, Register(c, a, crc))
    ensures Crc(c, a + b, crc) == Crc(c, b, Xor(Crc(c, a, crc), c.xorOut))
    decreases |b|
  {
    hide Update, Xor;
    RegisterChains(c, a, b, crc);
    var r := Register(c, a, crc);
    XorAssoc(r, c.xorOut, c.xorOut);
    XorSelf(c.xorOut);
    XorSelf(r);
  }

  lemma {:induction false} RegisterChains(c: CrcClass, a: Message, b: Message, crc: bv32)
    requires c.Valid()
    ensures Register(c, a + b, crc) == Register(c, b, Register(c, a, crc))
    decreases |b|
  {
    hide Update;
    if b == [] {
      assert a + b == a;
    } else {
      RegisterChains(c, a, b[..|b| - 1], crc);
      assert (a + b)[..|a + b| - 1] == a + b[..|b| - 1];
    }
  }

  // Bit by bit.

  /** The bit-serial register: each bit is added at the low end and shifted through. */
  function SerialBits(p: bv32, bits: seq<bool>, crc: bv32): bv32
  {
    if bits == [] then crc
    else StepRight(p, Xor(SerialBits(p, bits[..|bits| - 1], crc), Digit(bits[|bits| - 1], 0)))
  }

  /** Up to 32 bits as one word, the first bit lowest. */
  function Word(bits: seq<bool>): bv32
    requires |bits| <= 32
  {
    if bits == [] then 0
    else
      var k := |bits| - 1;
      Xor(Word(bits[..k]), Digit(bits[k], k))
  }

  lemma {:induction false} WordBit(bits: seq<bool>, i: nat)
    requires |bits| <= 32 && i < 32
    ensures Bit(Word(bits), i) <==> i < |bits| && bits[i]
    decreases |bits|
  {
    hide Bit, Xor, Digit;
    if bits == [] {
      ZeroBits(i);
    } else {
      var k := |bits| - 1;
      WordBit(bits[..k], i);
      DigitBit(bits[k], k, i);
      XorBit(Word(bits[..k]), Digit(bits[k], k), i);
    }
  }

  lemma WordInjective(a: seq<bool>, b: seq<bool>)
    requires |a| == |b| <= 32 && Word(a) == Word(b)
    ensures a == b
  {
    hide Bit, Word;
    forall i | 0 <= i < |a|
      ensures a[i] == b[i]
    {
      WordBit(a, i);
      WordBit(b, i);
    }
  }

  lemma {:induction false} WordFits(w: nat, bits: seq<bool>)
    requires IsWidth(w) && |bits| <= w
    ensures Fits(w, Word(bits))
    decreases |bits|
  {
    hide Fits, Xor, Digit;
    if bits == [] {
      ZeroFits(w);
    } else {
      var k := |bits| - 1;
      WordFits(w, bits[..k]);
      DigitFits(w, bits[k], k);
      XorFits(w, Word(bits[..k]), Digit(bits[k], k));
    }
  }

  /** A placed bit comes down after one step for each place below it. */
  lemma {:induction false} DigitComesDown(p: bv32, bit: bool, k: nat)
    requires k < 32
    ensures StepsRight(p, Digit(bit, k), k) == Digit(bit, 0)
    decreases k
  {
    hide Digit, StepRight;
    if k == 0 {
    } else {
      StepDigit(p, bit, k);
      StepsAdd(p, Digit(bit, k), 1, k - 1);
      assert StepsRight(p, Digit(bit, k), 1) == StepRight(p, StepsRight(p, Digit(bit, k), 0));
      DigitComesDown(p, bit, k - 1);
    }
  }

  lemma NoSteps(p: bv32, v: bv32)
    ensures StepsRight(p, v, 0) == v
  {
  }

  /** Up to 32 bits act on the register like their word, added at once. */
  lemma {:induction false} SerialIsWord(p: bv32, bits: seq<bool>, crc: bv32)
    requires |bits| <= 32
    ensures SerialBits(p, bits, crc) == StepsRight(p, Xor(crc, Word(bits)), |bits|)
    decreases |bits|
  {
    hide Xor, Digit, StepRight;
    if bits == [] {
      XorSelf(crc);
      NoSteps(p, crc);
    } else {
      var k := |bits| - 1;
      var x := Xor(crc, Word(bits[..k]));
      SerialIsWord(p, bits[..k], crc);
      DigitComesDown(p, bits[k], k);
      StepsLinear(p, x, Digit(bits[k], k), k);
      XorAssoc(crc, Word(bits[..k]), Digit(bits[k], k));
    }
  }

  lemma {:induction false} SerialChains(p: bv32, a: seq<bool>, b: seq<bool>, crc: bv32)
    ensures SerialBits(p, a + b, crc) == SerialBits(p, b, SerialBits(p, a, crc))
    decreases |b|
  {
    hide Xor, Digit, StepRight;
    if b == [] {
      assert a + b == a;
    } else {
      SerialChains(p, a, b[..|b| - 1], crc);
      assert (a + b)[..|a + b| - 1] == a + b[..|b| - 1];
    }
  }

  lemma {:induction false} SerialFits(w: nat, p: bv32, bits: seq<bool>, crc: bv32)
    requires IsWidth(w) && High(w, p) && Fits(w, p) && Fits(w, crc)
    ensures Fits(w, SerialBits(p, bits, crc))
    decreases |bits|
  {
    hide Xor, Digit, StepRight, High, Fits;
    if bits == [] {
    } else {
      var r, d := SerialBits(p, bits[..|bits| - 1], crc), Digit(bits[|bits| - 1], 0);
      SerialFits(w, p, bits[..|bits| - 1], crc);
      DigitFits(w, bits[|bits| - 1], 0);
      XorFits(w, r, d);
      StepHigh(w, p, Xor(r, d));
    }
  }

  /** The same bits keep different registers apart. */
  lemma {:induction false} SerialInjective(w: nat, p: bv32, bits: seq<bool>, c1: bv32, c2: bv32)
    requires IsWidth(w) && High(w, p) && Fits(w, p) && Fits(w, c1) && Fits(w, c2)
    requires SerialBits(p, bits, c1) == SerialBits(p, bits, c2)
    ensures c1 == c2
    decreases |bits|
  {
    hide Xor, Digit, StepRight, High, Fits;
    if bits == [] {
    } else {
      var rest, d := bits[..|bits| - 1], Digit(bits[|bits| - 1], 0);
      var r1, r2 := SerialBits(p, rest, c1), SerialBits(p, rest, c2);
      SerialFits(w, p, rest, c1);
      SerialFits(w, p, rest, c2);
      DigitFits(w, bits[|bits| - 1], 0);
      XorFits(w, r1, d);
      XorFits(w, r2, d);
      StepInjective(w, p, Xor(r1, d), Xor(r2, d));
      XorCancel(r1, r2, d);
      SerialInjective(w, p, rest, c1, c2);
    }
  }

  // Bits of messages.

  function ByteBits(byte: Byte): (bits: seq<bool>)
    ensures |bits| == 8
  {
    seq(8, i requires 0 <= i < 8 => Bit(byte, i))
  }

  lemma WordOfByte(byte: Byte)
    ensures Word(ByteBits(byte)) == byte
  {
    hide Bit, Word;
    var v := Word(ByteBits(byte));
    WordFits(8, ByteBits(byte));
    forall i: nat | i < 8
      ensures Bit(v, i) == Bit(byte, i)
    {
      WordBit(ByteBits(byte), i);
    }
    ByteExtensional(v, byte);
  }

  /** A byte added at once and shifted through is its bits, one by one. */
  lemma ByteIsBits(p: bv32, byte: Byte, crc: bv32)
    ensures SerialBits(p, ByteBits(byte), crc) == StepsRight(p, Xor(crc, byte), 8)
  {
    hide Xor, StepsRight, SerialBits, ByteBits, Word;
    SerialIsWord(p, ByteBits(byte), crc);
    WordOfByte(byte);
  }

  /** The bits of a message, each byte from its low end. */
  function LowFirst(m: Message): (bits: seq<bool>)
    ensures |bits| == 8 * |m|
  {
    seq(8 * |m|, i requires 0 <= i < 8 * |m| => Bit(m[i / 8], i % 8))
  }

  lemma {:induction false} SerialRightIsBits(p: bv32, m: Message, crc: bv32)
    ensures SerialRight(p, m, crc) == SerialBits(p, LowFirst(m), crc)
    decreases |m|
  {
    hide Xor, StepsRight, Bit, SerialBits;
    if m == [] {
      assert LowFirst(m) == [];
      NoBits(p, crc);
    } else {
      var rest, byte := m[..|m| - 1], m[|m| - 1];
      SerialRightIsBits(p, rest, crc);
      assert LowFirst(m) == LowFirst(rest) + ByteBits(byte);
      SerialChains(p, LowFirst(rest), ByteBits(byte), crc);
      ByteIsBits(p, byte, SerialRight(p, rest, crc));
    }
  }

  lemma NoBits(p: bv32, crc: bv32)
    ensures SerialBits(p, [], crc) == crc
  {
  }

  /** The bits of a message in the order in which a class takes them. */
  function Transmitted(c: CrcClass, m: Message): (bits: seq<bool>)
    ensures |bits| == 8 * |m|
  {
    seq(8 * |m|, i requires 0 <= i < 8 * |m| => Bit(m[i / 8], if c.refIn then i % 8 else 7 - i % 8))
  }

  lemma TransmittedMirror(c: CrcClass, m: Message)
    ensures Transmitted(c, m) == if c.refIn then LowFirst(m) else LowFirst(ReversedBytes(m))
  {
    hide Bit, ReversedByte;
    if !c.refIn {
      forall i | 0 <= i < 8 * |m|
        ensures Transmitted(c, m)[i] == LowFirst(ReversedBytes(m))[i]
      {
        ReverseBit(m[i / 8], i % 8);
      }
    }
  }

  lemma TransmittedInjective(c: CrcClass, a: Message, b: Message)
    requires |a| == |b| && Transmitted(c, a) == Transmitted(c, b)
    ensures a == b
  {
    hide Bit;
    forall i | 0 <= i < |a|
      ensures a[i] == b[i]
    {
      forall k: nat | k < 8
        ensures Bit(a[i], k) == Bit(b[i], k)
      {
        var n := 8 * i + (if c.refIn then k else 7 - k);
        assert n / 8 == i && n % 8 == if c.refIn then k else 7 - k;
        assert Transmitted(c, a)[n] == Transmitted(c, b)[n];
      }
      ByteExtensional(a[i], b[i]);
    }
  }

  /** The register as the bit-serial one, in every class: the mirrored register when the class is not reflected. */
  lemma RegisterIsBits(c: CrcClass, m: Message, crc: bv32)
    requires c.Valid() && Fits(c.width, crc)
    ensures c.refIn ==> Register(c, m, crc) == SerialBits(RevPoly(c), Transmitted(c, m), crc)
    ensures !c.refIn ==>
              Reverse(c.width, Register(c, m, crc)) == SerialBits(RevPoly(c), Transmitted(c, m), Reverse(c.width, crc))
  {
    hide Register, SerialRight, SerialBits, Reverse, Fits, Low, LowFirst, Transmitted, ReversedBytes;
    TransmittedMirror(c, m);
    if c.refIn {
      RegisterIsSerialRight(c, m, crc);
      SerialRightIsBits(RevPoly(c), m, crc);
    } else {
      RegisterIsMirror(c, m, crc);
      SerialRightIsBits(RevPoly(c), ReversedBytes(m), Reverse(c.width, crc));
    }
  }

  // Error detection.

  /** Two windows of at most the register's width lead from one register to different ones. */
  lemma WindowInjective(w: nat, p: bv32, a: seq<bool>, b: seq<bool>, crc: bv32)
    requires IsWidth(w) && High(w, p) && Fits(w, p) && Fits(w, crc)
    requires |a| == |b| <= w && SerialBits(p, a, crc) == SerialBits(p, b, crc)
    ensures a == b
  {
    hide Xor, StepsRight, High, Fits, Word, SerialBits;
    SerialIsWord(p, a, crc);
    SerialIsWord(p, b, crc);
    WordFits(w, a);
    WordFits(w, b);
    XorFits(w, crc, Word(a));
    XorFits(w, crc, Word(b));
    StepsInjective(w, p, Xor(crc, Word(a)), Xor(crc, Word(b)), |a|);
    XorComm(crc, Word(a));
    XorComm(crc, Word(b));
    XorCancel(Word(a), Word(b), crc);
    WordInjective(a, b);
  }

  /** The bits `x` and `y` differ at most at the places `lo .. lo + w`. */
  ghost predicate DifferWithin(x: seq<bool>, y: seq<bool>, lo: nat, w: nat)
  {
    |x| == |y| && forall i :: 0 <= i < |x| && x[i] != y[i] ==> lo <= i < lo + w
  }

  /** A difference in a window of the register's width survives any common prefix and suffix. */
  lemma SerialDetects(w: nat, p: bv32, x: seq<bool>, y: seq<bool>, lo: nat, crc: bv32)
    requires IsWidth(w) && High(w, p) && Fits(w, p) && Fits(w, crc)
    requires DifferWithin(x, y, lo, w) && SerialBits(p, x, crc) == SerialBits(p, y, crc)
    ensures x == y
  {
    hide High, Fits, SerialBits;
    var n := |x|;
    var i, j := if lo <= n then lo else n, if lo + w <= n then lo + w else n;
    var pre, a, b, post := x[..i], x[i..j], y[i..j], x[j..];
    assert pre == y[..i] && post == y[j..];
    assert x == pre + a + post && y == pre + b + post;
    SerialChains(p, pre + a, post, crc);
    SerialChains(p, pre + b, post, crc);
    SerialChains(p, pre, a, crc);
    SerialChains(p, pre, b, crc);
    var r := SerialBits(p, pre, crc);
    SerialFits(w, p, pre, crc);
    SerialFits(w, p, a, r);
    SerialFits(w, p, b, r);
    SerialInjective(w, p, post, SerialBits(p, a, r), SerialBits(p, b, r));
    WindowInjective(w, p, a, b, r);
  }

  /** Messages of any length that differ, but only within as many consecutive transmitted bits as the CRC has,
      have different CRCs. */
  lemma BurstDetected(c: CrcClass, x: Message, y: Message, lo: nat, crc: bv32)
    requires c.Valid() && Fits(c.width, crc)
    requires |x| == |y| && x != y && DifferWithin(Transmitted(c, x), Transmitted(c, y), lo, c.width)
    ensures Crc(c, x, crc) != Crc(c, y, crc)
  {
    hide Register, SerialBits, Xor, Fits, High, Low, Reverse, Transmitted, DifferWithin;
    if Crc(c, x, crc) == Crc(c, y, crc) {
      XorCancel(Register(c, x, crc), Register(c, y, crc), c.xorOut);
      RevPolyHigh(c);
      RegisterIsBits(c, x, crc);
      RegisterIsBits(c, y, crc);
      ReverseFits(c.width, crc);
      var start := if c.refIn then crc else Reverse(c.width, crc);
      SerialDetects(c.width, RevPoly(c), Transmitted(c, x), Transmitted(c, y), lo, start);
      TransmittedInjective(c, x, y);
    }
  }

  /** In particular, a difference within as many consecutive bytes as the CRC has. */
  lemma ByteWindowDetected(c: CrcClass, pre: Message, a: Message, b: Message, post: Message, crc: bv32)
    requires c.Valid() && Fits(c.width, crc)
    requires |a| == |b| && 8 * |a| <= c.width && a != b
    ensures Crc(c, pre + a + post, crc) != Crc(c, pre + b + post, crc)
  {
    hide Crc, Fits, Low, Bit;
    var x, y := pre + a + post, pre + b + post;
    assert x[|pre|..|pre| + |a|] == a && y[|pre|..|pre| + |a|] == b;
    forall i | 0 <= i < 8 * |x| && Transmitted(c, x)[i] != Transmitted(c, y)[i]
      ensures 8 * |pre| <= i < 8 * |pre| + c.width
    {
      assert x[i / 8] != y[i / 8];
      assert |pre| <= i / 8 < |pre| + |a|;
    }
    BurstDetected(c, x, y, 8 * |pre|, crc);
  }

  // The code.

  /** `CrcTable`: the loop of eight shifts. */
  method CrcTable(c: CrcClass, v0: Byte) returns (v: bv32)
    requires c.Valid()
    ensures v == Table(c, v0)
  {
    hide StepRight, StepLeft, Reverse, FromByte;
    v := v0;
    if c.refIn {
      for i := 0 to 8
        invariant v == StepsRight(RevPoly(c), v0, i)
      {
        v := StepRight(RevPoly(c), v);
      }
    } else {
      v := FromByte(c.width, v);
      for i := 0 to 8
        invariant v == StepsLeft(c.width, c.tablePoly, FromByte(c.width, v0), i)
      {
        v := StepLeft(c.width, c.tablePoly, v);
      }
    }
  }

  /** `CrcUpdate`, with the table computed. */
  method CrcUpdate(c: CrcClass, newchar: Byte, crcval: bv32) returns (crc: bv32)
    requires c.Valid()
    ensures crc == Update(c, newchar, crcval)
  {
    hide Table, Xor, Shr8, Shl8, LowByte, TopByte;
    if c.refOut {
      var t := CrcTable(c, LowByte(Xor(crcval, newchar)));
      crc := Xor(Shr8(crcval), t);
    } else {
      var t := CrcTable(c, XorByte(newchar, TopByte(c.width, crcval)));
      crc := Xor(t, Shl8(c.width, crcval));
    }
  }

  /** `ComputeCrc`. */
  method ComputeCrc(c: CrcClass, message: Message, start: bv32) returns (crc: bv32)
    requires c.Valid()
    ensures crc == Crc(c, message, start)
  {
    hide Update, Xor;
    crc := start;
    for i := 0 to |message|
      invariant crc == Register(c, message[..i], start)
    {
      crc := CrcUpdate(c, message[i], crc);
      assert message[..i + 1][..i] == message[..i];
    }
    assert message[..|message|] == message;
    crc := Xor(crc, c.xorOut);
  }

  // Section 8 of RFC 1952: the CRC of a gzip member.

  /** `make_crc_table`: entry `n` of the table, after `k` rounds. */
  function GzipEntry(n: bv32, k: nat): bv32
  {
    if k == 0 then n
    else
      var c := GzipEntry(n, k - 1);
      if c & 1 != 0 then Xor(0xEDB8_8320, c >> 1) else c >> 1
  }

  /** The loop of `update_crc`. */
  function GzipLoop(c: bv32, m: Message): bv32
  {
    if m == [] then c
    else
      var r := GzipLoop(c, m[..|m| - 1]);
      Xor(GzipEntry(LowByte(Xor(r, m[|m| - 1])), 8), Shr8(r))
  }

  function GzipCrc(m: Message): bv32
  {
    Xor(GzipLoop(Xor(0, 0xFFFF_FFFF), m), 0xFFFF_FFFF)
  }

  lemma {:induction false} GzipEntryIsSteps(n: bv32, k: nat)
    ensures GzipEntry(n, k) == StepsRight(0xEDB8_8320, n, k)
  {
    if k == 0 {
    } else {
      GzipEntryIsSteps(n, k - 1);
      XorComm(0xEDB8_8320, Half(GzipEntry(n, k - 1)));
    }
  }

  lemma {:induction false} GzipLoopIsRegister(m: Message, crc: bv32)
    ensures GzipLoop(crc, m) == Register(Crc32, m, crc)
    decreases |m|
  {
    hide Xor, Shr8, LowByte, StepsRight;
    if m == [] {
    } else {
      var rest := m[..|m| - 1];
      GzipLoopIsRegister(rest, crc);
      var r := GzipLoop(crc, rest);
      GzipEntryIsSteps(LowByte(Xor(r, m[|m| - 1])), 8);
      Crc32Polynomial();
      XorComm(GzipEntry(LowByte(Xor(r, m[|m| - 1])), 8), Shr8(r));
    }
  }

  lemma Crc32Polynomial()
    ensures Crc32.Valid() && RevPoly(Crc32) == 0xEDB8_8320
  {
  }

  /** `Crc32` is the CRC of section 8 of RFC 1952. */
  lemma Crc32IsGzip(m: Message)
    ensures Crc(Crc32, m, Crc32.init) == GzipCrc(m)
  {
    XorComm(0, 0xFFFF_FFFF);
    XorSelf(0xFFFF_FFFF);
    GzipLoopIsRegister(m, 0xFFFF_FFFF);
  }
}
