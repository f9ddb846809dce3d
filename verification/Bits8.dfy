/** Single bits of a byte, and how the byte operators act on them. */
module Bits8 {

  /** Bit `i` of `b`, least significant first. */
  predicate Bit(b: bv8, i: nat)
    requires i < 8
  {
    (b >> i) & 1 == 1
  }

  lemma BitAnd(a: bv8, b: bv8, i: nat)
    requires i < 8
    ensures Bit(a & b, i) <==> Bit(a, i) && Bit(b, i)
  {
    assert ((a & b) >> i) & 1 == ((a >> i) & 1) & ((b >> i) & 1);
  }

  lemma BitOr(a: bv8, b: bv8, i: nat)
    requires i < 8
    ensures Bit(a | b, i) <==> Bit(a, i) || Bit(b, i)
  {
    assert (a | b) >> i == (a >> i) | (b >> i);
  }

  lemma BitXor(a: bv8, b: bv8, i: nat)
    requires i < 8
    ensures Bit(a ^ b, i) <==> (Bit(a, i) != Bit(b, i))
  {
    assert (a ^ b) >> i == (a >> i) ^ (b >> i);
  }

  lemma BitNot(a: bv8, i: nat)
    requires i < 8
    ensures Bit(!a, i) <==> !Bit(a, i)
  {
    assert !a == a ^ 0xFF;
    assert Bit(0xFF, i);
    BitXor(a, 0xFF, i);
  }

  lemma BitShiftRight(a: bv8, k: nat, i: nat)
    requires i < 8 && k < 8
    ensures Bit(a >> k, i) <==> i + k < 8 && Bit(a, i + k)
  {
    if i + k < 8 {
      assert (a >> k) >> i == a >> (i + k);
    } else {
      assert (a >> k) >> i == 0;
    }
  }

  lemma BitConst(i: nat)
    requires i < 8
    ensures !Bit(0, i) && Bit(0xFF, i) && (Bit(0x80, i) <==> i == 7)
  {
  }
}
