/** The check values that the classes of mcucpp/crc.h carry: the CRC of the message "123456789". */
module CrcCheck {
  import opened Bits32
  import opened CrcBits
  import C = Crc

  const Message: C.Message := [0x31, 0x32, 0x33, 0x34, 0x35, 0x36, 0x37, 0x38, 0x39]

  function FourRight(p: bv32, v: bv32): bv32
  {
    StepRight(p, StepRight(p, StepRight(p, StepRight(p, v))))
  }

  function FourLeft(w: nat, p: bv32, v: bv32): bv32
    requires IsWidth(w)
  {
    StepLeft(w, p, StepLeft(w, p, StepLeft(w, p, StepLeft(w, p, v))))
  }

  lemma EightRight(p: bv32, v: bv32)
    ensures C.StepsRight(p, v, 8) == FourRight(p, FourRight(p, v))
  {
    hide StepRight;
    assert C.StepsRight(p, v, 0) == v;
    assert C.StepsRight(p, v, 2) == StepRight(p, StepRight(p, v));
    assert C.StepsRight(p, v, 4) == FourRight(p, v);
    assert C.StepsRight(p, v, 6) == StepRight(p, StepRight(p, FourRight(p, v)));
  }

  lemma EightLeft(w: nat, p: bv32, v: bv32)
    requires IsWidth(w)
    ensures C.StepsLeft(w, p, v, 8) == FourLeft(w, p, FourLeft(w, p, v))
  {
    hide StepLeft;
    assert C.StepsLeft(w, p, v, 0) == v;
    assert C.StepsLeft(w, p, v, 2) == StepLeft(w, p, StepLeft(w, p, v));
    assert C.StepsLeft(w, p, v, 4) == FourLeft(w, p, v);
    assert C.StepsLeft(w, p, v, 6) == StepLeft(w, p, StepLeft(w, p, FourLeft(w, p, v)));
  }

  /** One byte of a reflected class, step by step. */
  lemma ByteRight(c: C.CrcClass, p: bv32, byte: Byte, crc: bv32)
    requires c.Valid() && c.refIn && p == C.RevPoly(c)
    ensures C.Update(c, byte, crc) == Xor(Shr8(crc), FourRight(p, FourRight(p, LowByte(Xor(crc, byte)))))
  {
    hide StepRight, C.StepsRight, FourRight, Xor, Shr8, LowByte, Reverse;
    EightRight(p, LowByte(Xor(crc, byte)));
  }

  /** One byte of an unreflected class, step by step. */
  lemma ByteLeft(c: C.CrcClass, w: nat, p: bv32, byte: Byte, crc: bv32)
    requires c.Valid() && !c.refIn && p == c.tablePoly && w == c.width
    ensures C.Update(c, byte, crc) ==
            Xor(FourLeft(w, p, FourLeft(w, p, FromByte(w, Xor(byte, TopByte(w, crc))))), Shl8(w, crc))
  {
    hide StepLeft, C.StepsLeft, FourLeft, Xor, Shl8, FromByte, TopByte;
    EightLeft(w, p, FromByte(w, Xor(byte, TopByte(w, crc))));
  }

  /** The polynomials as a reflected register uses them. */
  lemma ReversedPolynomials()
    ensures C.Crc16.Valid() && C.RevPoly(C.Crc16) == 0xA001
    ensures C.Crc16Modbus.Valid() && C.RevPoly(C.Crc16Modbus) == 0xA001
    ensures C.Crc32.Valid() && C.RevPoly(C.Crc32) == 0xEDB8_8320
    ensures C.DallasCrc.Valid() && C.RevPoly(C.DallasCrc) == 0x8C
    ensures C.Crc16Citt.Valid() && C.XModemCrc.Valid()
  {
  }

  /** The register after each byte of a message. */
  lemma {:induction false} Through(c: C.CrcClass, m: C.Message, r: seq<bv32>)
    requires c.Valid() && |r| == |m| + 1
    requires forall i :: 0 <= i < |m| ==> C.Update(c, m[i], r[i]) == r[i + 1]
    ensures C.Register(c, m, r[0]) == r[|m|]
    decreases |m|
  {
    hide C.Update;
    if m != [] {
      var last := |m| - 1;
      Through(c, m[..last], r[..|m|]);
    }
  }

  lemma Crc16Check()
    ensures C.Crc16.Valid() && C.Crc(C.Crc16, Message, C.Crc16.init) == 0xBB3D
  {
    hide C.Update, C.RevPoly, C.CrcClass.Valid;
    ReversedPolynomials();
    assert C.Update(C.Crc16, 0x31, 0x0) == 0xD4C1 by {
      ByteRight(C.Crc16, 0xA001, 0x31, 0x0);
    }
    assert C.Update(C.Crc16, 0x32, 0xD4C1) == 0x4594 by {
      ByteRight(C.Crc16, 0xA001, 0x32, 0xD4C1);
    }
    assert C.Update(C.Crc16, 0x33, 0x4594) == 0xBA04 by {
      ByteRight(C.Crc16, 0xA001, 0x33, 0x4594);
    }
    assert C.Update(C.Crc16, 0x34, 0xBA04) == 0x14BA by {
      ByteRight(C.Crc16, 0xA001, 0x34, 0xBA04);
    }
    assert C.Update(C.Crc16, 0x35, 0x14BA) == 0xA455 by {
      ByteRight(C.Crc16, 0xA001, 0x35, 0x14BA);
    }
    assert C.Update(C.Crc16, 0x36, 0xA455) == 0x29E4 by {
      ByteRight(C.Crc16, 0xA001, 0x36, 0xA455);
    }
    assert C.Update(C.Crc16, 0x37, 0x29E4) == 0x9D68 by {
      ByteRight(C.Crc16, 0xA001, 0x37, 0x29E4);
    }
    assert C.Update(C.Crc16, 0x38, 0x9D68) == 0x3C9D by {
      ByteRight(C.Crc16, 0xA001, 0x38, 0x9D68);
    }
    assert C.Update(C.Crc16, 0x39, 0x3C9D) == 0xBB3D by {
      ByteRight(C.Crc16, 0xA001, 0x39, 0x3C9D);
    }
    Through(C.Crc16, Message, [0x0, 0xD4C1, 0x4594, 0xBA04, 0x14BA, 0xA455, 0x29E4, 0x9D68, 0x3C9D, 0xBB3D]);
  }

  lemma Crc16ModbusCheck()
    ensures C.Crc16Modbus.Valid() && C.Crc(C.Crc16Modbus, Message, C.Crc16Modbus.init) == 0x4B37
  {
    hide C.Update, C.RevPoly, C.CrcClass.Valid;
    ReversedPolynomials();
    assert C.Update(C.Crc16Modbus, 0x31, 0xFFFF) == 0x947E by {
      ByteRight(C.Crc16Modbus, 0xA001, 0x31, 0xFFFF);
    }
    assert C.Update(C.Crc16Modbus, 0x32, 0x947E) == 0xF595 by {
      ByteRight(C.Crc16Modbus, 0xA001, 0x32, 0x947E);
    }
    assert C.Update(C.Crc16Modbus, 0x33, 0xF595) == 0x7A75 by {
      ByteRight(C.Crc16Modbus, 0xA001, 0x33, 0xF595);
    }
    assert C.Update(C.Crc16Modbus, 0x34, 0x7A75) == 0x30BA by {
      ByteRight(C.Crc16Modbus, 0xA001, 0x34, 0x7A75);
    }
    assert C.Update(C.Crc16Modbus, 0x35, 0x30BA) == 0xA471 by {
      ByteRight(C.Crc16Modbus, 0xA001, 0x35, 0x30BA);
    }
    assert C.Update(C.Crc16Modbus, 0x36, 0xA471) == 0x32E4 by {
      ByteRight(C.Crc16Modbus, 0xA001, 0x36, 0xA471);
    }
    assert C.Update(C.Crc16Modbus, 0x37, 0x32E4) == 0x9D73 by {
      ByteRight(C.Crc16Modbus, 0xA001, 0x37, 0x32E4);
    }
    assert C.Update(C.Crc16Modbus, 0x38, 0x9D73) == 0x37DD by {
      ByteRight(C.Crc16Modbus, 0xA001, 0x38, 0x9D73);
    }
    assert C.Update(C.Crc16Modbus, 0x39, 0x37DD) == 0x4B37 by {
      ByteRight(C.Crc16Modbus, 0xA001, 0x39, 0x37DD);
    }
    Through(C.Crc16Modbus, Message, [0xFFFF, 0x947E, 0xF595, 0x7A75, 0x30BA, 0xA471, 0x32E4, 0x9D73, 0x37DD, 0x4B37]);
  }

  lemma Crc16CittCheck()
    ensures C.Crc16Citt.Valid() && C.Crc(C.Crc16Citt, Message, C.Crc16Citt.init) == 0x29B1
  {
    hide C.Update, C.CrcClass.Valid;
    ReversedPolynomials();
    ByteLeft(C.Crc16Citt, 16, 0x1021, 0x31, 0xFFFF);
    ByteLeft(C.Crc16Citt, 16, 0x1021, 0x32, 0xC782);
    ByteLeft(C.Crc16Citt, 16, 0x1021, 0x33, 0x3DBA);
    ByteLeft(C.Crc16Citt, 16, 0x1021, 0x34, 0x5BCE);
    ByteLeft(C.Crc16Citt, 16, 0x1021, 0x35, 0x5349);
    ByteLeft(C.Crc16Citt, 16, 0x1021, 0x36, 0x4560);
    ByteLeft(C.Crc16Citt, 16, 0x1021, 0x37, 0x2EF4);
    ByteLeft(C.Crc16Citt, 16, 0x1021, 0x38, 0x7718);
    ByteLeft(C.Crc16Citt, 16, 0x1021, 0x39, 0xA12B);
    Through(C.Crc16Citt, Message, [0xFFFF, 0xC782, 0x3DBA, 0x5BCE, 0x5349, 0x4560, 0x2EF4, 0x7718, 0xA12B, 0x29B1]);
  }

  lemma XModemCrcCheck()
    ensures C.XModemCrc.Valid() && C.Crc(C.XModemCrc, Message, C.XModemCrc.init) == 0x31C3
  {
    hide C.Update, C.CrcClass.Valid;
    ReversedPolynomials();
    ByteLeft(C.XModemCrc, 16, 0x1021, 0x31, 0x0);
    ByteLeft(C.XModemCrc, 16, 0x1021, 0x32, 0x2672);
    ByteLeft(C.XModemCrc, 16, 0x1021, 0x33, 0x20B5);
    ByteLeft(C.XModemCrc, 16, 0x1021, 0x34, 0x9752);
    ByteLeft(C.XModemCrc, 16, 0x1021, 0x35, 0xD789);
    ByteLeft(C.XModemCrc, 16, 0x1021, 0x36, 0x546C);
    ByteLeft(C.XModemCrc, 16, 0x1021, 0x37, 0x20E4);
    ByteLeft(C.XModemCrc, 16, 0x1021, 0x38, 0x86D6);
    ByteLeft(C.XModemCrc, 16, 0x1021, 0x39, 0x9015);
    Through(C.XModemCrc, Message, [0x0, 0x2672, 0x20B5, 0x9752, 0xD789, 0x546C, 0x20E4, 0x86D6, 0x9015, 0x31C3]);
  }

  lemma Crc32Check()
    ensures C.Crc32.Valid() && C.Crc(C.Crc32, Message, C.Crc32.init) == 0xCBF43926
  {
    hide C.Update, C.RevPoly, C.CrcClass.Valid;
    ReversedPolynomials();
    assert C.Update(C.Crc32, 0x31, 0xFFFFFFFF) == 0x7C231048 by {
      ByteRight(C.Crc32, 0xEDB88320, 0x31, 0xFFFFFFFF);
    }
    assert C.Update(C.Crc32, 0x32, 0x7C231048) == 0xB0ACBB32 by {
      ByteRight(C.Crc32, 0xEDB88320, 0x32, 0x7C231048);
    }
    assert C.Update(C.Crc32, 0x33, 0xB0ACBB32) == 0x77B79C2D by {
      ByteRight(C.Crc32, 0xEDB88320, 0x33, 0xB0ACBB32);
    }
    assert C.Update(C.Crc32, 0x34, 0x77B79C2D) == 0x641C1F5C by {
      ByteRight(C.Crc32, 0xEDB88320, 0x34, 0x77B79C2D);
    }
    assert C.Update(C.Crc32, 0x35, 0x641C1F5C) == 0x340AC5E3 by {
      ByteRight(C.Crc32, 0xEDB88320, 0x35, 0x641C1F5C);
    }
    assert C.Update(C.Crc32, 0x36, 0x340AC5E3) == 0xF68D2C9E by {
      ByteRight(C.Crc32, 0xEDB88320, 0x36, 0x340AC5E3);
    }
    assert C.Update(C.Crc32, 0x37, 0xF68D2C9E) == 0xAFFC9660 by {
      ByteRight(C.Crc32, 0xEDB88320, 0x37, 0xF68D2C9E);
    }
    assert C.Update(C.Crc32, 0x38, 0xAFFC9660) == 0x651F2550 by {
      ByteRight(C.Crc32, 0xEDB88320, 0x38, 0xAFFC9660);
    }
    assert C.Update(C.Crc32, 0x39, 0x651F2550) == 0x340BC6D9 by {
      ByteRight(C.Crc32, 0xEDB88320, 0x39, 0x651F2550);
    }
    Through(C.Crc32, Message, [0xFFFFFFFF, 0x7C231048, 0xB0ACBB32, 0x77B79C2D, 0x641C1F5C,
                               0x340AC5E3, 0xF68D2C9E, 0xAFFC9660, 0x651F2550, 0x340BC6D9]);
  }

  lemma DallasCrcCheck()
    ensures C.DallasCrc.Valid() && C.Crc(C.DallasCrc, Message, C.DallasCrc.init) == 0xA1
  {
    hide C.Update, C.RevPoly, C.CrcClass.Valid;
    ReversedPolynomials();
    assert C.Update(C.DallasCrc, 0x31, 0x0) == 0xE0 by {
      ByteRight(C.DallasCrc, 0x8C, 0x31, 0x0);
    }
    assert C.Update(C.DallasCrc, 0x32, 0xE0) == 0xEB by {
      ByteRight(C.DallasCrc, 0x8C, 0x32, 0xE0);
    }
    assert C.Update(C.DallasCrc, 0x33, 0xEB) == 0x95 by {
      ByteRight(C.DallasCrc, 0x8C, 0x33, 0xEB);
    }
    assert C.Update(C.DallasCrc, 0x34, 0x95) == 0xF1 by {
      ByteRight(C.DallasCrc, 0x8C, 0x34, 0x95);
    }
    assert C.Update(C.DallasCrc, 0x35, 0xF1) == 0xAB by {
      ByteRight(C.DallasCrc, 0x8C, 0x35, 0xF1);
    }
    assert C.Update(C.DallasCrc, 0x36, 0xAB) == 0xEC by {
      ByteRight(C.DallasCrc, 0x8C, 0x36, 0xAB);
    }
    assert C.Update(C.DallasCrc, 0x37, 0xEC) == 0x77 by {
      ByteRight(C.DallasCrc, 0x8C, 0x37, 0xEC);
    }
    assert C.Update(C.DallasCrc, 0x38, 0x77) == 0x7 by {
      ByteRight(C.DallasCrc, 0x8C, 0x38, 0x77);
    }
    assert C.Update(C.DallasCrc, 0x39, 0x7) == 0xA1 by {
      ByteRight(C.DallasCrc, 0x8C, 0x39, 0x7);
    }
    Through(C.DallasCrc, Message, [0x0, 0xE0, 0xEB, 0x95, 0xF1, 0xAB, 0xEC, 0x77, 0x7, 0xA1]);
  }
}
