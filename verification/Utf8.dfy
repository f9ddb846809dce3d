/** The UTF-8 codec (mcucpp/utf8.h). */
module Utf8 {
  import opened Bits32

  const ErrorMark: bv32 := 0x3F

  // Encoding.

  /** `EncodedLen`. */
  function EncodedLen(c: bv32): nat
  {
    if c <= 0x7F then 1 else if c <= 0x7FF then 2 else if c <= 0xFFFF then 3 else if c <= 0x1F_FFFF then 4 else 1
  }

  /** The leading byte of a code point with `n` subsequent bytes. */
  function Lead(c: bv32, n: nat): (b: Byte)
    requires n <= 3
  {
    if n == 0 then c & 0x7F
    else if n == 1 then ((c >> 6) & 0x1F) | 0xC0
    else if n == 2 then ((c >> 12) & 0x0F) | 0xE0
    else ((c >> 18) & 0x07) | 0xF0
  }

  /** The subsequent byte with `i` others after it. */
  function Subsequent(c: bv32, i: nat): (b: Byte)
    requires i < 3
  {
    if i == 0 then (c & 0x3F) | 0x80 else if i == 1 then ((c >> 6) & 0x3F) | 0x80 else ((c >> 12) & 0x3F) | 0x80
  }

  function SubsequentBytes(c: bv32, n: nat): (s: seq<Byte>)
    requires n <= 3
    ensures |s| == n
  {
    if n == 0 then [] else [Subsequent(c, n - 1)] + SubsequentBytes(c, n - 1)
  }

  function EncodeBytes(c: bv32): (s: seq<Byte>)
    ensures |s| == EncodedLen(c)
  {
    if c > 0x1F_FFFF then [ErrorMark]
    else
      var n := EncodedLen(c) - 1;
      [Lead(c, n)] + SubsequentBytes(c, n)
  }

  /** The byte the loop of `Encode` computes. */
  function ShiftedByte(c: bv32, i: nat): (b: Byte)
    requires i < 3
  {
    ((c >> (6 * i)) & 0xFF & 0x3F) | 0x80
  }

  lemma ShiftedByteIs(c: bv32, i: nat)
    requires i < 3
    ensures ShiftedByte(c, i) == Subsequent(c, i)
  {
    if i == 0 {
    } else if i == 1 {
    } else {
    }
  }

  /** The leading byte `Encode` computes with its mask and value. */
  function LeadByte(c: bv32, n: nat, mask: Byte, value: Byte): (b: Byte)
    requires n <= 3
  {
    ByteOr(c >> (6 * n), mask, value);
    ((c >> (6 * n)) & 0xFF & mask) | value
  }

  lemma ByteOr(x: bv32, mask: Byte, value: Byte)
    ensures ((x & 0xFF & mask) | value) & 0xFF == (x & 0xFF & mask) | value
  {
  }

  lemma LeadByteIs(c: bv32)
    ensures LeadByte(c, 0, 0x7F, 0x00) == Lead(c, 0)
    ensures LeadByte(c, 1, 0x1F, 0xC0) == Lead(c, 1)
    ensures LeadByte(c, 2, 0x0F, 0xE0) == Lead(c, 2)
    ensures LeadByte(c, 3, 0x07, 0xF0) == Lead(c, 3)
  {
  }

  lemma {:induction false} SubsequentAt(c: bv32, n: nat)
    requires n <= 3
    ensures forall k :: 0 <= k < n ==> SubsequentBytes(c, n)[k] == Subsequent(c, n - 1 - k)
  {
    hide Subsequent;
    if n > 0 {
      SubsequentAt(c, n - 1);
    }
  }

  /** `Encode`: write the bytes of `c` at the cursor and move it behind them. */
  method Encode(str: array<Byte>, start: nat, c: bv32) returns (pos: nat)
    requires start + EncodedLen(c) <= str.Length
    modifies str
    ensures pos == start + EncodedLen(c) && str[start..pos] == EncodeBytes(c)
    ensures str[..start] == old(str[..start]) && str[pos..] == old(str[pos..])
  {
    pos := start;
    var subsequentBytes := 0;
    hide LeadByte, Lead, SubsequentBytes;
    var leadingByteMask: Byte, leadingByteValue: Byte := 0x7F, 0x00;
    if c <= 0x7F {
    } else if c <= 0x7FF {
      subsequentBytes, leadingByteMask, leadingByteValue := 1, 0x1F, 0xC0;
    } else if c <= 0xFFFF {
      subsequentBytes, leadingByteMask, leadingByteValue := 2, 0x0F, 0xE0;
    } else if c <= 0x1F_FFFF {
      subsequentBytes, leadingByteMask, leadingByteValue := 3, 0x07, 0xF0;
    } else {
      str[pos] := ErrorMark;
      pos := pos + 1;
      return;
    }
    LeadByteIs(c);
    var lead := LeadByte(c, subsequentBytes, leadingByteMask, leadingByteValue);
    pos := EncodeRest(str, pos, c, subsequentBytes, lead);
  }

  /** The leading byte, and the loop over the subsequent ones. */
  method EncodeRest(str: array<Byte>, start: nat, c: bv32, subsequentBytes: nat, lead: Byte) returns (pos: nat)
    requires subsequentBytes <= 3 && start + 1 + subsequentBytes <= str.Length && lead == Lead(c, subsequentBytes)
    modifies str
    ensures pos == start + 1 + subsequentBytes && str[start..pos] == [lead] + SubsequentBytes(c, subsequentBytes)
    ensures str[..start] == old(str[..start]) && str[pos..] == old(str[pos..])
  {
    hide Lead, Subsequent, ShiftedByte, SubsequentBytes;
    SubsequentAt(c, subsequentBytes);
    str[start] := lead;
    pos := start + 1;
    var i := subsequentBytes - 1;
    while i >= 0
      invariant -1 <= i < 3 && pos + i == start + subsequentBytes
      invariant str[start] == lead
      invariant forall k :: start < k < pos ==> str[k] == SubsequentBytes(c, subsequentBytes)[k - start - 1]
      invariant forall k :: 0 <= k < str.Length && !(start <= k < pos) ==> str[k] == old(str[k])
    {
      ShiftedByteIs(c, i);
      str[pos] := ShiftedByte(c, i);
      pos := pos + 1;
      i := i - 1;
    }
    ghost var written := [lead] + SubsequentBytes(c, subsequentBytes);
    forall k | 0 <= k < |written|
      ensures str[start..pos][k] == written[k]
    {
      if k > 0 {
        assert str[start + k] == SubsequentBytes(c, subsequentBytes)[start + k - start - 1];
      }
    }
    assert str[start..pos] == written;
  }

  // Decoding.

  predicate IsSubsequent(b: Byte) { b & 0xC0 == 0x80 }

  /** A byte no encoded code point starts with. */
  predicate BadLead(b: Byte) { b == 192 || b == 193 || b >= 245 || IsSubsequent(b) }

  /** Number of subsequent bytes a leading byte announces, and the bits it carries itself. */
  function Announced(b: Byte): (n: nat)
    ensures n <= 3
  {
    if b & 0x80 == 0 then 0
    else if b & 0xE0 == 0xC0 then 1
    else if b & 0xF0 == 0xE0 then 2
    else if b & 0xF8 == 0xF0 then 3
    else 0
  }

  function LeadBits(b: Byte): bv32
  {
    if b & 0x80 == 0 then b & 0x7F
    else if b & 0xE0 == 0xC0 then b & 0x1F
    else if b & 0xF0 == 0xE0 then b & 0x0F
    else if b & 0xF8 == 0xF0 then b & 0x07
    else b & 0x7F
  }

  /** The bytes end with a NUL; there may be others before it. */
  predicate Terminated(s: seq<Byte>)
  {
    |s| > 0 && s[|s| - 1] == 0
  }

  /** Six more bits below the bits gathered so far. */
  function Append(result: bv32, b: Byte): bv32
  {
    (result << 6) | (b & 0x3F)
  }

  /** Take up to `n` subsequent bytes into `result`. */
  function Continue(s: seq<Byte>, pos: nat, result: bv32, n: nat): (r: (bv32, nat))
    requires Terminated(s) && pos <= |s| && (n > 0 ==> pos < |s|)
    ensures pos <= r.1 <= pos + n && r.1 <= |s|
    ensures forall k :: pos <= k < r.1 ==> s[k] != 0
    decreases n
  {
    if n == 0 then (result, pos)
    else if !IsSubsequent(s[pos]) then (ErrorMark, pos)
    else
      SubsequentNotNul(s[pos]);
      Continue(s, pos + 1, Append(result, s[pos]), n - 1)
  }

  /** What `Decode` returns from a position, and where it leaves the cursor: it takes one to four bytes, and a NUL
      only when it starts there. */
  function DecodeAt(s: seq<Byte>, pos: nat): (r: (bv32, nat))
    requires Terminated(s) && pos < |s|
    ensures pos < r.1 <= pos + 4 && r.1 <= |s|
    ensures forall k :: pos < k < r.1 ==> s[k] != 0
  {
    if BadLead(s[pos]) then (ErrorMark, pos + 1)
    else Continue(s, pos + 1, LeadBits(s[pos]), Announced(s[pos]))
  }

  /** `Decode`. */
  method Decode(str: seq<Byte>, start: nat) returns (result: bv32, pos: nat)
    requires Terminated(str) && start < |str|
    ensures (result, pos) == DecodeAt(str, start)
  {
    hide Announced, LeadBits, IsSubsequent;
    var c := str[start];
    pos := start + 1;
    if BadLead(c) {
      return ErrorMark, pos;
    }
    AnnouncedNul(c);
    var charBytes := 1 + Announced(c);
    result := LeadBits(c);
    for i := 1 to charBytes
      invariant pos <= |str| && (i < charBytes ==> pos < |str|)
      invariant Continue(str, pos, result, charBytes - i) == DecodeAt(str, start)
    {
      SubsequentNotNul(str[pos]);
      if !IsSubsequent(str[pos]) {
        return ErrorMark, pos;
      }
      result := Append(result, str[pos]);
      pos := pos + 1;
    }
  }

  lemma AnnouncedNul(b: Byte)
    ensures b == 0 ==> Announced(b) == 0
  {
  }

  lemma SubsequentNotNul(b: Byte)
    ensures IsSubsequent(b) ==> b != 0
  {
  }

  /** A subsequent byte, by its range. */
  predicate Trails(s: seq<Byte>, k: nat) { k + 1 < |s| && 0x80 <= s[k] <= 0xBF }

  lemma SubsequentRange(s: seq<Byte>, k: nat)
    requires Terminated(s) && k < |s|
    ensures IsSubsequent(s[k]) <==> Trails(s, k)
  {
    SubsequentByteRange(s[k]);
  }

  lemma SubsequentByteRange(b: Byte)
    ensures IsSubsequent(b) <==> 0x80 <= b <= 0xBF
  {
  }

  lemma LeadRanges(b: Byte)
    ensures BadLead(b) <==> 0x80 <= b <= 0xC1 || b >= 0xF5
    ensures b <= 0x7F ==> Announced(b) == 0 && LeadBits(b) == b
    ensures 0xC2 <= b <= 0xDF ==> Announced(b) == 1 && LeadBits(b) == b - 0xC0
    ensures 0xE0 <= b <= 0xEF ==> Announced(b) == 2 && LeadBits(b) == b - 0xE0
    ensures 0xF0 <= b <= 0xF4 ==> Announced(b) == 3 && LeadBits(b) == b - 0xF0
  {
  }

  /** The number `bits` followed by the six bits of a subsequent byte. */
  function Extended(bits: bv32, trail: bv32): bv32 { bits * 0x40 + (trail - 0x80) }

  lemma AppendIs(bits: bv32, b: Byte)
    requires 0x80 <= b <= 0xBF
    ensures Append(bits, b) == Extended(bits, b)
  {
    ShiftIsTimes(bits);
    TrailBits(b);
    OrIsPlus(bits << 6, b - 0x80);
  }

  lemma ShiftIsTimes(bits: bv32)
    ensures bits << 6 == bits * 0x40 && (bits << 6) & 0x3F == 0
  {
  }

  lemma TrailBits(b: Byte)
    requires 0x80 <= b <= 0xBF
    ensures b & 0x3F == b - 0x80 && b - 0x80 <= 0x3F
  {
  }

  lemma OrIsPlus(x: bv32, y: bv32)
    requires x & 0x3F == 0 && y <= 0x3F
    ensures x | y == x + y
  {
  }

  /** What `Decode` makes of any bytes, by their ranges: the code point and the bytes taken, or a mark and the bytes
      skipped. */
  lemma DecodeRanges(s: seq<Byte>, pos: nat)
    requires Terminated(s) && pos < |s|
    ensures var b, r := s[pos], DecodeAt(s, pos);
            && (b <= 0x7F ==> r == (b, pos + 1))
            && (0x80 <= b <= 0xC1 || b >= 0xF5 ==> r == (0x3F, pos + 1))
            && (0xC2 <= b <= 0xDF ==>
                  r == if !Trails(s, pos + 1) then (0x3F, pos + 1)
                       else (Extended(b - 0xC0, s[pos + 1]), pos + 2))
            && (0xE0 <= b <= 0xEF ==>
                  r == if !Trails(s, pos + 1) then (0x3F, pos + 1)
                       else if !Trails(s, pos + 2) then (0x3F, pos + 2)
                       else (Extended(Extended(b - 0xE0, s[pos + 1]), s[pos + 2]), pos + 3))
            && (0xF0 <= b <= 0xF4 ==>
                  r == if !Trails(s, pos + 1) then (0x3F, pos + 1)
                       else if !Trails(s, pos + 2) then (0x3F, pos + 2)
                       else if !Trails(s, pos + 3) then (0x3F, pos + 3)
                       else (Extended(Extended(Extended(b - 0xF0, s[pos + 1]), s[pos + 2]), s[pos + 3]), pos + 4))
  {
    hide IsSubsequent, BadLead, Announced, LeadBits, Append, Extended, Continue;
    var b := s[pos];
    LeadRanges(b);
    if b <= 0x7F {
      ContinueEnd(s, pos + 1, b);
    } else if 0xC2 <= b <= 0xDF {
      Continue1(s, pos + 1, b - 0xC0);
    } else if 0xE0 <= b <= 0xEF {
      Continue2(s, pos + 1, b - 0xE0);
    } else if 0xF0 <= b <= 0xF4 {
      Continue3(s, pos + 1, b - 0xF0);
    }
  }

  lemma ContinueEnd(s: seq<Byte>, pos: nat, bits: bv32)
    requires Terminated(s) && pos <= |s|
    ensures Continue(s, pos, bits, 0) == (bits, pos)
  {
  }

  lemma Continue1(s: seq<Byte>, pos: nat, bits: bv32)
    requires Terminated(s) && pos < |s|
    ensures Continue(s, pos, bits, 1) ==
            if !Trails(s, pos) then (0x3F, pos) else (Extended(bits, s[pos]), pos + 1)
  {
    hide Continue, Extended;
    ContinueRange(s, pos, bits, 1);
    if Trails(s, pos) {
      ContinueEnd(s, pos + 1, Extended(bits, s[pos]));
    }
  }

  lemma Continue2(s: seq<Byte>, pos: nat, bits: bv32)
    requires Terminated(s) && pos < |s|
    ensures Continue(s, pos, bits, 2) ==
            if !Trails(s, pos) then (0x3F, pos)
            else if !Trails(s, pos + 1) then (0x3F, pos + 1)
            else (Extended(Extended(bits, s[pos]), s[pos + 1]), pos + 2)
  {
    hide Continue, Extended;
    ContinueRange(s, pos, bits, 2);
    if Trails(s, pos) {
      Continue1(s, pos + 1, Extended(bits, s[pos]));
    }
  }

  lemma Continue3(s: seq<Byte>, pos: nat, bits: bv32)
    requires Terminated(s) && pos < |s|
    ensures Continue(s, pos, bits, 3) ==
            if !Trails(s, pos) then (0x3F, pos)
            else if !Trails(s, pos + 1) then (0x3F, pos + 1)
            else if !Trails(s, pos + 2) then (0x3F, pos + 2)
            else (Extended(Extended(Extended(bits, s[pos]), s[pos + 1]), s[pos + 2]), pos + 3)
  {
    hide Continue, Extended;
    ContinueRange(s, pos, bits, 3);
    if Trails(s, pos) {
      Continue2(s, pos + 1, Extended(bits, s[pos]));
    }
  }

  /** One round of the loop of `Decode`. */
  lemma ContinueRange(s: seq<Byte>, pos: nat, result: bv32, n: nat)
    requires Terminated(s) && pos < |s| && n > 0
    ensures Continue(s, pos, result, n) ==
            if !Trails(s, pos) then (0x3F, pos) else Continue(s, pos + 1, Extended(result, s[pos]), n - 1)
  {
    hide IsSubsequent, Append, Extended;
    SubsequentRange(s, pos);
    if Trails(s, pos) {
      AppendIs(result, s[pos]);
    }
  }

  // Round trips.

  /** `s` has the bytes `e` at `pos`, before its terminator. */
  predicate HasAt(s: seq<Byte>, pos: nat, e: seq<Byte>)
  {
    pos + |e| < |s| && s[pos..pos + |e|] == e
  }

  lemma HasTail(s: seq<Byte>, pos: nat, b: Byte, t: seq<Byte>)
    requires HasAt(s, pos, [b] + t)
    ensures pos < |s| && s[pos] == b && HasAt(s, pos + 1, t)
  {
    assert s[pos] == s[pos..pos + |[b] + t|][0];
    assert s[pos + 1..pos + 1 + |t|] == s[pos..pos + |[b] + t|][1..];
  }

  /** The bits of `c` above its lowest `n` groups of six. */
  function Above(c: bv32, n: nat): bv32
    requires n <= 3
  {
    if n == 0 then c else if n == 1 then c >> 6 else if n == 2 then c >> 12 else c >> 18
  }

  lemma SubsequentIs(c: bv32, i: nat)
    requires i < 3
    ensures IsSubsequent(Subsequent(c, i))
  {
    if i == 0 {
    } else if i == 1 {
    } else {
    }
  }

  lemma Append0(c: bv32)
    ensures Append(Above(c, 1), Subsequent(c, 0)) == Above(c, 0)
  {
  }

  lemma Append1(c: bv32)
    ensures Append(Above(c, 2), Subsequent(c, 1)) == Above(c, 1)
  {
  }

  lemma Append2(c: bv32)
    ensures Append(Above(c, 3), Subsequent(c, 2)) == Above(c, 2)
  {
  }

  lemma AppendSubsequent(c: bv32, i: nat)
    requires i < 3
    ensures Append(Above(c, i + 1), Subsequent(c, i)) == Above(c, i)
  {
    hide Append, Above, Subsequent;
    if i == 0 {
      Append0(c);
    } else if i == 1 {
      Append1(c);
    } else {
      Append2(c);
    }
  }

  lemma LeadIs(c: bv32)
    requires c <= 0x1F_FFFF
    ensures var n := EncodedLen(c) - 1;
            Announced(Lead(c, n)) == n && (BadLead(Lead(c, n)) <==> c > 0x13_FFFF)
    ensures c <= 0x7F ==> LeadBits(Lead(c, 0)) == c
    ensures 0x7F < c <= 0x7FF ==> LeadBits(Lead(c, 1)) == c >> 6
    ensures 0x7FF < c <= 0xFFFF ==> LeadBits(Lead(c, 2)) == c >> 12
    ensures 0xFFFF < c ==> LeadBits(Lead(c, 3)) == c >> 18
  {
  }

  lemma {:induction false} ContinueOver(s: seq<Byte>, pos: nat, c: bv32, n: nat)
    requires Terminated(s) && n <= 3 && HasAt(s, pos, SubsequentBytes(c, n))
    ensures Continue(s, pos, Above(c, n), n) == (Above(c, 0), pos + n)
    decreases n
  {
    hide HasAt, Terminated, Subsequent, IsSubsequent, Append, Above;
    if n == 0 {
    } else {
      SubsequentIs(c, n - 1);
      AppendSubsequent(c, n - 1);
      HasTail(s, pos, Subsequent(c, n - 1), SubsequentBytes(c, n - 1));
      ContinueOver(s, pos + 1, c, n - 1);
    }
  }

  /** A code point up to 0x13FFFF decodes to itself, and the cursor moves by its encoded length. */
  lemma DecodeEncoded(s: seq<Byte>, pos: nat, c: bv32)
    requires Terminated(s) && HasAt(s, pos, EncodeBytes(c)) && c <= 0x13_FFFF
    ensures DecodeAt(s, pos) == (c, pos + EncodedLen(c))
  {
    hide Subsequent, IsSubsequent, Lead, LeadBits, Announced, BadLead, Continue, SubsequentBytes;
    var n := EncodedLen(c) - 1;
    LeadIs(c);
    var e := EncodeBytes(c);
    assert s[pos] == e[0];
    assert s[pos + 1..pos + 1 + n] == e[1..];
    ContinueOver(s, pos + 1, c, n);
  }

  /** The round trip holds exactly for code points up to 0x13FFFF: beyond, the decoder rejects the leading byte,
      or the encoder has already written an error mark. */
  lemma RoundTripExact(s: seq<Byte>, c: bv32)
    requires Terminated(s) && s == EncodeBytes(c) + [0]
    ensures DecodeAt(s, 0) == (c, EncodedLen(c)) <==> c <= 0x13_FFFF
  {
    if c <= 0x13_FFFF {
      assert s[0..EncodedLen(c)] == EncodeBytes(c);
      DecodeEncoded(s, 0, c);
    } else {
      hide Subsequent, IsSubsequent, Lead, LeadBits, Announced, BadLead, SubsequentBytes;
      assert s[0] == EncodeBytes(c)[0];
      ErrorMarkDecodes();
      if c <= 0x1F_FFFF {
        LeadIs(c);
      }
    }
  }

  lemma ErrorMarkDecodes()
    ensures !BadLead(ErrorMark) && Announced(ErrorMark) == 0 && LeadBits(ErrorMark) == ErrorMark
  {
  }

  // Whole strings.

  function EncodeAll(cs: seq<bv32>): seq<Byte>
  {
    if cs == [] then [] else EncodeBytes(cs[0]) + EncodeAll(cs[1..])
  }

  /** The first `n` code points of a string, and the cursor behind them. */
  function DecodeMany(s: seq<Byte>, pos: nat, n: nat): (seq<bv32>, nat)
    requires Terminated(s)
    decreases n
  {
    if n == 0 || pos >= |s| then ([], pos)
    else
      var (c, next) := DecodeAt(s, pos);
      var (rest, end) := DecodeMany(s, next, n - 1);
      ([c] + rest, end)
  }

  /** `StrLen` from a position: code points up to the terminator, or up to the first byte that does not fit. */
  function StrLenFrom(s: seq<Byte>, pos: nat): nat
    requires Terminated(s) && pos < |s|
    decreases |s| - pos
  {
    if s[pos] == 0 || BadLead(s[pos]) then 0
    else
      AnnouncedNul(s[pos]);
      var next := Skip(s, pos + 1, Announced(s[pos]));
      if next < 0 then 1 else 1 + StrLenFrom(s, next)
  }

  /** The position after `n` subsequent bytes, or -1 when there are fewer. */
  function Skip(s: seq<Byte>, pos: nat, n: nat): (next: int)
    requires Terminated(s) && pos < |s|
    ensures next == -1 || pos <= next < |s|
    ensures forall k :: pos <= k < next ==> s[k] != 0
    decreases n
  {
    if n == 0 then pos
    else if !IsSubsequent(s[pos]) then -1
    else SubsequentNotNul(s[pos]); Skip(s, pos + 1, n - 1)
  }

  /** What `StrLen` counts, by the ranges of the bytes: it ends at a byte no code point starts with, and counts a code
      point cut short as the last one. */
  lemma StrLenRanges(s: seq<Byte>, pos: nat)
    requires Terminated(s) && pos < |s|
    ensures var b, r := s[pos], StrLenFrom(s, pos);
            && (b == 0 || 0x80 <= b <= 0xC1 || b >= 0xF5 ==> r == 0)
            && (1 <= b <= 0x7F ==> pos + 1 < |s| && r == 1 + StrLenFrom(s, pos + 1))
            && (0xC2 <= b <= 0xDF ==> r == if !Trails(s, pos + 1) then 1 else 1 + StrLenFrom(s, pos + 2))
            && (0xE0 <= b <= 0xEF ==>
                  r == if !(Trails(s, pos + 1) && Trails(s, pos + 2)) then 1 else 1 + StrLenFrom(s, pos + 3))
            && (0xF0 <= b <= 0xF4 ==>
                  r == if !(Trails(s, pos + 1) && Trails(s, pos + 2) && Trails(s, pos + 3)) then 1
                       else 1 + StrLenFrom(s, pos + 4))
  {
    hide IsSubsequent, BadLead, Announced, LeadBits;
    LeadRanges(s[pos]);
    forall k: nat | k < |s|
      ensures IsSubsequent(s[k]) <==> Trails(s, k)
    {
      SubsequentRange(s, k);
    }
  }

  /** `StrLen`. */
  method StrLen(str: seq<Byte>) returns (result: nat)
    requires Terminated(str)
    ensures result == StrLenFrom(str, 0)
  {
    hide Announced, IsSubsequent, BadLead;
    result := 0;
    var pos := 0;
    while true
      invariant pos < |str| && result + StrLenFrom(str, pos) == StrLenFrom(str, 0)
      decreases |str| - pos
    {
      var c := str[pos];
      if c == 0 || BadLead(c) {
        return;
      }
      result := result + 1;
      var charBytes := 1 + Announced(c);
      ghost var start := pos;
      pos := pos + 1;
      for i := 1 to charBytes
        invariant start < pos < |str|
        invariant Skip(str, pos, charBytes - i) == Skip(str, start + 1, charBytes - 1)
      {
        SubsequentNotNul(str[pos]);
        if !IsSubsequent(str[pos]) {
          return;
        }
        pos := pos + 1;
      }
    }
  }

  lemma {:induction false} SkipOver(s: seq<Byte>, pos: nat, c: bv32, n: nat)
    requires Terminated(s) && n <= 3 && HasAt(s, pos, SubsequentBytes(c, n))
    ensures Skip(s, pos, n) == pos + n
    decreases n
  {
    hide HasAt, Terminated, Subsequent, IsSubsequent;
    if n == 0 {
    } else {
      SubsequentIs(c, n - 1);
      HasTail(s, pos, Subsequent(c, n - 1), SubsequentBytes(c, n - 1));
      SkipOver(s, pos + 1, c, n - 1);
    }
  }

  lemma StrLenStep(s: seq<Byte>, pos: nat, c: bv32)
    requires Terminated(s) && HasAt(s, pos, EncodeBytes(c)) && 0 < c <= 0x13_FFFF
    ensures StrLenFrom(s, pos) == 1 + StrLenFrom(s, pos + EncodedLen(c))
  {
    hide Subsequent, IsSubsequent, Lead, LeadBits, Announced, BadLead, Skip, SubsequentBytes;
    var n := EncodedLen(c) - 1;
    LeadNotNul(c);
    LeadIs(c);
    var e := EncodeBytes(c);
    assert s[pos] == e[0];
    assert s[pos + 1..pos + 1 + n] == e[1..];
    SkipOver(s, pos + 1, c, n);
  }

  lemma Parts(s: seq<Byte>, pos: nat, e: seq<Byte>, rest: seq<Byte>)
    requires pos <= |s| && |rest| > 0 && s[pos..] == e + rest
    ensures HasAt(s, pos, e) && s[pos + |e|..] == rest
  {
    assert s[pos..pos + |e|] == s[pos..][..|e|];
    assert s[pos + |e|..] == s[pos..][|e|..];
  }

  /** Code points 0 to 0x13FFFF decode to themselves, also when some are 0. */
  lemma {:induction false} DecodesAll(s: seq<Byte>, pos: nat, cs: seq<bv32>)
    requires Terminated(s) && pos < |s| && s[pos..] == EncodeAll(cs) + [0]
    requires forall i :: 0 <= i < |cs| ==> cs[i] <= 0x13_FFFF
    ensures DecodeMany(s, pos, |cs|) == (cs, |s| - 1)
    decreases |cs|
  {
    hide EncodeBytes, DecodeAt, EncodedLen, Terminated, HasAt;
    if cs == [] {
    } else {
      var e := EncodeBytes(cs[0]);
      Parts(s, pos, e, EncodeAll(cs[1..]) + [0]);
      DecodeEncoded(s, pos, cs[0]);
      DecodesAll(s, pos + |e|, cs[1..]);
      assert [cs[0]] + cs[1..] == cs;
    }
  }

  /** Number of code points before the first 0. */
  function BeforeNul(cs: seq<bv32>): (n: nat)
    ensures n <= |cs| && (n < |cs| ==> cs[n] == 0) && forall i :: 0 <= i < n ==> cs[i] != 0
  {
    if cs == [] || cs[0] == 0 then 0 else 1 + BeforeNul(cs[1..])
  }

  lemma {:induction false} LengthIsCount(s: seq<Byte>, pos: nat, cs: seq<bv32>)
    requires Terminated(s) && pos < |s| && s[pos..] == EncodeAll(cs) + [0]
    requires forall i :: 0 <= i < |cs| ==> cs[i] <= 0x13_FFFF
    ensures StrLenFrom(s, pos) == BeforeNul(cs)
    decreases |cs|
  {
    hide EncodeBytes, EncodedLen, Terminated, HasAt, StrLenFrom;
    if cs == [] {
      assert s[pos] == s[pos..][0] == 0;
      StrLenEnd(s, pos);
    } else if cs[0] == 0 {
      NulIsItself();
      assert s[pos] == s[pos..][0] == 0;
      StrLenEnd(s, pos);
    } else {
      var e := EncodeBytes(cs[0]);
      Parts(s, pos, e, EncodeAll(cs[1..]) + [0]);
      StrLenStep(s, pos, cs[0]);
      LengthIsCount(s, pos + |e|, cs[1..]);
    }
  }

  lemma NulIsItself()
    ensures EncodeBytes(0) == [0]
  {
  }

  lemma StrLenEnd(s: seq<Byte>, pos: nat)
    requires Terminated(s) && pos < |s| && s[pos] == 0
    ensures StrLenFrom(s, pos) == 0
  {
  }

  /** Code points 0 to 0x13FFFF: the encoded string decodes to them, and its length is their number up to the
      first 0. */
  lemma StringRoundTrip(cs: seq<bv32>)
    requires forall i :: 0 <= i < |cs| ==> cs[i] <= 0x13_FFFF
    ensures var s := EncodeAll(cs) + [0];
            DecodeMany(s, 0, |cs|) == (cs, |s| - 1) && StrLenFrom(s, 0) == BeforeNul(cs)
  {
    hide DecodeMany, StrLenFrom;
    var s := EncodeAll(cs) + [0];
    assert s[0..] == s;
    DecodesAll(s, 0, cs);
    LengthIsCount(s, 0, cs);
  }

  /** The bytes of code points other than 0 contain no NUL. */
  lemma {:induction false} EncodedHasNoNul(cs: seq<bv32>)
    requires forall i :: 0 <= i < |cs| ==> 0 < cs[i] <= 0x13_FFFF
    ensures forall k :: 0 <= k < |EncodeAll(cs)| ==> EncodeAll(cs)[k] != 0
  {
    hide EncodeBytes;
    if cs == [] {
    } else {
      EncodedHasNoNul(cs[1..]);
      NoNul(cs[0]);
    }
  }

  lemma NoNul(c: bv32)
    requires 0 < c <= 0x13_FFFF
    ensures forall i :: 0 <= i < EncodedLen(c) ==> EncodeBytes(c)[i] != 0
  {
    hide Subsequent, Lead, BadLead;
    var n := EncodedLen(c) - 1;
    LeadNotNul(c);
    SubsequentNotZero(c, n);
  }

  lemma LeadNotNul(c: bv32)
    requires 0 < c <= 0x13_FFFF
    ensures Lead(c, EncodedLen(c) - 1) != 0
  {
  }

  lemma {:induction false} SubsequentNotZero(c: bv32, n: nat)
    requires n <= 3
    ensures forall i :: 0 <= i < n ==> SubsequentBytes(c, n)[i] != 0
  {
    hide Subsequent;
    if n > 0 {
      SubsequentNotZero(c, n - 1);
      SubsequentIs(c, n - 1);
      SubsequentNotNul(Subsequent(c, n - 1));
    }
  }
}
