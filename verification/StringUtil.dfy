/** Printing and parsing of unsigned numbers (mcucpp/string_util.h). */
module StringUtil {
  import opened FastDiv10
  import opened MachineInts
  import Modular

  /** `char_trates::DigitToLit`. */
  function DigitToLit(d: nat): char
    requires d < 36
  {
    if d < 10 then (48 + d) as char else (97 - 10 + d) as char
  }

  /** The letters of the digits, lower-case. */
  lemma LettersAre(d: nat)
    requires d < 36
    ensures DigitToLit(d) == "0123456789abcdefghijklmnopqrstuvwxyz"[d]
  {
  }

  /** The digits of `v`, most significant first. */
  function Digits(v: nat, radix: nat): (s: string)
    requires 2 <= radix <= 36
    ensures |s| >= 1
  {
    if v < radix then [DigitToLit(v)]
    else Shrinks(v, radix); Digits(v / radix, radix) + [DigitToLit(v % radix)]
  }

  lemma Shrinks(v: nat, radix: nat)
    requires radix >= 2
    ensures 0 <= v / radix && (v > 0 ==> v / radix < v)
    ensures v == v / radix * radix + v % radix
    ensures v < radix ==> v / radix == 0 && v % radix == v
  {
    QuotientBelow(v, v, radix);
    QuotientBelow(0, v, radix);
    QuotientBelow(1, v, radix);
    if v > 0 {
      MulGrows(v, radix);
    }
  }

  lemma MulGrows(v: nat, radix: nat)
    requires v > 0 && radix >= 2
    ensures v * radix > v
  {
  }

  /** Number of bytes of a type. */
  function Size(w: nat): nat
    requires Supported(w)
  {
    w / 8
  }

  function Pow8(n: nat): nat
  {
    if n == 0 then 1 else 8 * Pow8(n - 1)
  }

  /** A number below a power of eight has no more digits than the exponent says, in any radix from eight on. */
  lemma {:induction false} DigitsLength(v: nat, radix: nat, n: nat)
    requires 8 <= radix <= 36 && n >= 1 && v < Pow8(n)
    ensures |Digits(v, radix)| <= n
    decreases n
  {
    if v < radix || n == 1 {
      assert Pow8(1) == 8;
    } else {
      Shrinks(v, radix);
      QuotientBelow(Pow8(n - 1), v, radix);
      if v / radix >= Pow8(n - 1) {
        Times8(v / radix, Pow8(n - 1), radix);
      }
      DigitsLength(v / radix, radix, n - 1);
    }
  }

  lemma Times8(q: nat, p: nat, radix: nat)
    requires q >= p && radix >= 8
    ensures q * radix >= 8 * p
  {
    assert q * radix >= p * radix >= p * 8;
  }

  lemma ValuesBelowPow8(w: nat)
    requires Supported(w)
    ensures Values(w) <= Pow8(3 * Size(w))
  {
    assert Pow8(3) == 512;
    assert Pow8(6) == 0x4_0000;
    Pow8Add(6, 6);
    Pow8Add(12, 12);
  }

  lemma {:induction false} Pow8Add(m: nat, n: nat)
    ensures Pow8(m + n) == Pow8(m) * Pow8(n)
    decreases m
  {
    if m == 0 {
    } else {
      Pow8Add(m - 1, n);
      assert Pow8(m + n) == 8 * Pow8(m - 1 + n);
      assert 8 * (Pow8(m - 1) * Pow8(n)) == (8 * Pow8(m - 1)) * Pow8(n);
    }
  }

  /** `ConvertBufferSize` leaves room for every value in decimal, octal and hexadecimal, and not more than needed
      for 8- and 16-bit octal numbers. */
  lemma BufferSuffices(w: nat, v: nat, radix: nat)
    requires Supported(w) && v < Values(w) && 8 <= radix <= 36
    ensures |Digits(v, radix)| <= 3 * Size(w)
  {
    ValuesBelowPow8(w);
    DigitsLength(v, radix, 3 * Size(w));
  }

  lemma BufferTight()
    ensures |Digits(0xFF, 8)| == 3 * Size(8) && |Digits(0xFFFF, 8)| == 3 * Size(16)
  {
    assert Digits(0x1F, 8) == Digits(3, 8) + [DigitToLit(7)];
    assert |Digits(0x7F, 8)| == |Digits(0xF, 8)| + 1;
    assert |Digits(0x1FFF, 8)| == |Digits(0x3FF, 8)| + 1;
  }

  /** The digits still to print, as a printing loop sees them. */
  lemma PrintStep(v: nat, quot: nat, radix: nat, tail: string)
    requires 2 <= radix <= 36
    requires Digits(v, radix) == Digits(quot, radix) + tail
    ensures (Shrinks(quot, radix); 0 <= quot / radix && quot % radix < 36)
    ensures var tail' := [DigitToLit(quot % radix)] + tail;
            Digits(v, radix) == if quot / radix == 0 then tail' else Digits(quot / radix, radix) + tail'
    ensures quot / radix != 0 ==> |Digits(quot / radix, radix)| == |Digits(quot, radix)| - 1 && 0 < quot / radix < quot
  {
    Shrinks(quot, radix);
    QuotientBelow(1, quot, radix);
  }

  /** The digits still to be printed, followed by those printed, are the number's; there is room for them. */
  ghost predicate Printing(value: nat, radix: nat, v: nat, more: bool, start: nat, tail: string)
  {
    && 2 <= radix <= 36
    && if more then |Digits(v, radix)| <= start && Digits(value, radix) == Digits(v, radix) + tail
       else Digits(value, radix) == tail
  }

  lemma PrintStart(value: nat, radix: nat, start: nat)
    requires 2 <= radix <= 36 && |Digits(value, radix)| <= start
    ensures Printing(value, radix, value, true, start, [])
  {
  }

  /** Printing one digit, the lowest. */
  lemma PrintNext(value: nat, radix: nat, v: nat, start: nat, tail: string)
    requires Printing(value, radix, v, true, start, tail)
    ensures (Shrinks(v, radix); start >= 1 && 0 <= v / radix && v % radix < 36 && v == v / radix * radix + v % radix)
    ensures v / radix != 0 ==> v / radix < v
    ensures Printing(value, radix, v / radix, v / radix != 0, start - 1, [DigitToLit(v % radix)] + tail)
  {
    hide DigitToLit;
    PrintStep(value, v, radix, tail);
    Shrinks(v, radix);
  }

  lemma PrintDone(value: nat, radix: nat, start: nat, tail: string)
    requires Printing(value, radix, 0, false, start, tail)
    ensures tail == Digits(value, radix)
  {
  }

  /** `UtoaFastDiv`: the decimal digits before `bufferEnd`, and a terminator there. */
  method UtoaFastDiv(w: nat, value: nat, buffer: array<char>, bufferEnd: nat) returns (start: nat)
    requires Supported(w) && value < Values(w) && 3 * Size(w) <= bufferEnd < buffer.Length
    modifies buffer
    ensures start <= bufferEnd <= start + 3 * Size(w)
    ensures buffer[start..bufferEnd] == Digits(value, 10) && buffer[bufferEnd] == '\0'
    ensures buffer[..start] == old(buffer[..start]) && buffer[bufferEnd + 1..] == old(buffer[bufferEnd + 1..])
  {
    hide Printing, Digits, DigitToLit, Values, Size;
    BufferSuffices(w, value, 10);
    buffer[bufferEnd] := '\0';
    start := bufferEnd;
    PrintStart(value, 10, start);
    assert buffer[start..bufferEnd] == [];
    var quot: nat, more := value, true;
    while more
      invariant start <= bufferEnd && buffer[bufferEnd] == '\0' && quot < Values(w) && (more || quot == 0)
      invariant Printing(value, 10, quot, more, start, buffer[start..bufferEnd])
      invariant buffer[..start] == old(buffer[..start]) && buffer[bufferEnd + 1..] == old(buffer[bufferEnd + 1..])
      decreases more, quot
    {
      PrintNext(value, 10, quot, start, buffer[start..bufferEnd]);
      ghost var tail := buffer[start..bufferEnd];
      var rem;
      quot, rem := DivModU10(w, quot);
      start := start - 1;
      buffer[start] := DigitToLit(rem);
      assert buffer[start..bufferEnd] == [DigitToLit(rem)] + tail;
      more := quot != 0;
    }
    PrintDone(value, 10, start, buffer[start..bufferEnd]);
  }

  /** `UtoaBuiltinDiv`: the digits alone, with the built-in division. */
  method UtoaBuiltinDiv(w: nat, value: nat, buffer: array<char>, bufferEnd: nat, radix: nat) returns (start: nat)
    requires Supported(w) && value < Values(w) && 2 <= radix <= 36
    requires |Digits(value, radix)| <= bufferEnd <= buffer.Length
    modifies buffer
    ensures start <= bufferEnd && buffer[start..bufferEnd] == Digits(value, radix)
    ensures buffer[..start] == old(buffer[..start]) && buffer[bufferEnd..] == old(buffer[bufferEnd..])
  {
    hide Printing, Digits, DigitToLit, Values;
    start := bufferEnd;
    PrintStart(value, radix, start);
    assert buffer[start..bufferEnd] == [];
    var v: nat, more := value, true;
    while more
      invariant start <= bufferEnd && (more || v == 0)
      invariant Printing(value, radix, v, more, start, buffer[start..bufferEnd])
      invariant buffer[..start] == old(buffer[..start]) && buffer[bufferEnd..] == old(buffer[bufferEnd..])
      decreases more, v
    {
      PrintNext(value, radix, v, start, buffer[start..bufferEnd]);
      ghost var tail := buffer[start..bufferEnd];
      var q := v / radix;
      var rem := v - q * radix;
      v := q;
      start := start - 1;
      buffer[start] := DigitToLit(rem);
      assert buffer[start..bufferEnd] == [DigitToLit(rem)] + tail;
      more := v != 0;
    }
    PrintDone(value, radix, start, buffer[start..bufferEnd]);
  }

  /** `UtoaOct`. */
  method UtoaOct(w: nat, value: nat, buffer: array<char>, bufferEnd: nat) returns (start: nat)
    requires Supported(w) && value < Values(w) && 3 * Size(w) <= bufferEnd < buffer.Length
    modifies buffer
    ensures start <= bufferEnd <= start + 3 * Size(w)
    ensures buffer[start..bufferEnd] == Digits(value, 8) && buffer[bufferEnd] == '\0'
    ensures buffer[..start] == old(buffer[..start]) && buffer[bufferEnd + 1..] == old(buffer[bufferEnd + 1..])
  {
    hide Printing, Digits, DigitToLit, Values, Size;
    BufferSuffices(w, value, 8);
    buffer[bufferEnd] := '\0';
    start := bufferEnd;
    PrintStart(value, 8, start);
    assert buffer[start..bufferEnd] == [];
    var v: nat, more := value, true;
    while more
      invariant start <= bufferEnd && buffer[bufferEnd] == '\0' && (more || v == 0)
      invariant Printing(value, 8, v, more, start, buffer[start..bufferEnd])
      invariant buffer[..start] == old(buffer[..start]) && buffer[bufferEnd + 1..] == old(buffer[bufferEnd + 1..])
      decreases more, v
    {
      PrintNext(value, 8, v, start, buffer[start..bufferEnd]);
      ghost var tail := buffer[start..bufferEnd];
      var c := v % 8;
      v := v / 8;
      start := start - 1;
      buffer[start] := DigitToLit(c);
      assert buffer[start..bufferEnd] == [DigitToLit(c)] + tail;
      more := v != 0;
    }
    PrintDone(value, 8, start, buffer[start..bufferEnd]);
  }

  /** `UtoaHex`. */
  method UtoaHex(w: nat, value: nat, buffer: array<char>, bufferEnd: nat) returns (start: nat)
    requires Supported(w) && value < Values(w) && 3 * Size(w) <= bufferEnd < buffer.Length
    modifies buffer
    ensures start <= bufferEnd <= start + 3 * Size(w)
    ensures buffer[start..bufferEnd] == Digits(value, 16) && buffer[bufferEnd] == '\0'
    ensures buffer[..start] == old(buffer[..start]) && buffer[bufferEnd + 1..] == old(buffer[bufferEnd + 1..])
  {
    hide Printing, Digits, DigitToLit, Values, Size;
    BufferSuffices(w, value, 16);
    buffer[bufferEnd] := '\0';
    start := bufferEnd;
    PrintStart(value, 16, start);
    assert buffer[start..bufferEnd] == [];
    var v: nat, more := value, true;
    while more
      invariant start <= bufferEnd && buffer[bufferEnd] == '\0' && (more || v == 0)
      invariant Printing(value, 16, v, more, start, buffer[start..bufferEnd])
      invariant buffer[..start] == old(buffer[..start]) && buffer[bufferEnd + 1..] == old(buffer[bufferEnd + 1..])
      decreases more, v
    {
      PrintNext(value, 16, v, start, buffer[start..bufferEnd]);
      ghost var tail := buffer[start..bufferEnd];
      var c := v % 16;
      v := v / 16;
      start := start - 1;
      buffer[start] := DigitToLit(c);
      assert buffer[start..bufferEnd] == [DigitToLit(c)] + tail;
      more := v != 0;
    }
    PrintDone(value, 16, start, buffer[start..bufferEnd]);
  }

  // Parsing.

  predicate IsDigit(c: char) { '0' <= c <= '9' }

  predicate IsOctDigit(c: char) { '0' <= c <= '7' }

  predicate IsHexDigit(c: char) { IsDigit(c) || 'A' <= c <= 'F' || 'a' <= c <= 'f' }

  /** The digits a parser of radix 8, 10 or 16 takes. */
  predicate Accepts(radix: nat, c: char)
  {
    if radix == 8 then IsOctDigit(c) else if radix == 10 then IsDigit(c) else IsHexDigit(c)
  }

  predicate Parseable(radix: nat) { radix == 8 || radix == 10 || radix == 16 }

  function DigitValue(c: char): nat
    requires IsHexDigit(c)
  {
    if IsDigit(c) then c as nat - '0' as nat
    else if 'A' <= c <= 'F' then c as nat - ('A' as nat - 10)
    else c as nat - ('a' as nat - 10)
  }

  /** The characters each parser takes. */
  lemma DigitsTaken(c: char)
    ensures Accepts(8, c) <==> c in "01234567"
    ensures Accepts(10, c) <==> c in "0123456789"
    ensures Accepts(16, c) <==> c in "0123456789abcdef" || c in "0123456789ABCDEF"
  {
    LettersBetween(c);
  }

  /** The value of each, in either case. */
  lemma ValuesAre(d: nat)
    requires d < 16
    ensures Accepts(16, "0123456789abcdef"[d]) && DigitValue("0123456789abcdef"[d]) == d
    ensures Accepts(16, "0123456789ABCDEF"[d]) && DigitValue("0123456789ABCDEF"[d]) == d
  {
  }

  lemma LettersBetween(c: char)
    ensures '0' <= c <= '9' ==> "0123456789"[c as nat - 48] == c && c in "0123456789"
    ensures '0' <= c <= '7' ==> "01234567"[c as nat - 48] == c && c in "01234567"
    ensures 'a' <= c <= 'f' ==> "abcdef"[c as nat - 97] == c && c in "0123456789abcdef"
    ensures 'A' <= c <= 'F' ==> "ABCDEF"[c as nat - 65] == c && c in "0123456789ABCDEF"
  {
  }

  /** Where a run of at most `count` digits from `pos` on ends. */
  function RunEnd(radix: nat, s: string, pos: nat, count: nat): (end: nat)
    requires pos <= |s|
    ensures pos <= end <= |s| && end - pos <= count
    ensures forall i :: pos <= i < end ==> Accepts(radix, s[i])
    decreases count
  {
    if count == 0 || pos == |s| || !Accepts(radix, s[pos]) then pos else RunEnd(radix, s, pos + 1, count - 1)
  }

  /** The number that digits stand for. */
  function ValueOf(radix: nat, digits: string): nat
    requires Parseable(radix) && forall c :: c in digits ==> Accepts(radix, c)
  {
    if digits == [] then 0
    else
      var last := |digits| - 1;
      assert forall c :: c in digits[..last] ==> c in digits;
      assert Accepts(radix, digits[last]);
      ValueOf(radix, digits[..last]) * radix + DigitValue(digits[last])
  }

  /** What a parser returns: the number modulo the type, and how far the cursor moves. */
  function Parse(w: nat, radix: nat, s: string, pos: nat): (nat, nat)
    requires Supported(w) && Parseable(radix) && pos <= |s|
  {
    var end := RunEnd(radix, s, pos, 3 * Size(w));
    (ValueOf(radix, s[pos..end]) % Values(w), end)
  }

  lemma {:induction false} RunExtends(radix: nat, s: string, pos: nat, k: nat, count: nat)
    requires pos + k <= |s| && k <= count && RunEnd(radix, s, pos, k) == pos + k
    ensures pos + k < |s| && Accepts(radix, s[pos + k]) ==> RunEnd(radix, s, pos, k + 1) == pos + k + 1
    ensures k == count || (pos + k < |s| && !Accepts(radix, s[pos + k])) ==> RunEnd(radix, s, pos, count) == pos + k
    decreases k
  {
    if k > 0 {
      RunExtends(radix, s, pos + 1, k - 1, count - 1);
    }
  }

  /** One more digit, accumulated in the type. */
  lemma ValueStep(w: nat, radix: nat, digits: string, c: char, result: nat)
    requires Supported(w) && Parseable(radix) && Accepts(radix, c) && forall d :: d in digits ==> Accepts(radix, d)
    requires result == ValueOf(radix, digits) % Values(w)
    ensures ValueOf(radix, digits + [c]) % Values(w) == Wrap(w, result * radix + DigitValue(c))
  {
    assert (digits + [c])[..|digits|] == digits;
    ModStep(ValueOf(radix, digits), Values(w), radix, DigitValue(c));
  }

  lemma ModStep(x: nat, m: nat, r: nat, d: nat)
    requires m > 0
    ensures ((x % m) * r + d) % m == (x * r + d) % m
  {
    Modular.ModDef(x, m);
    var q, rest := x / m, (x % m) * r + d;
    ScaledSum(q, m, x % m, r);
    Modular.ModDef(rest, m);
    Regroup(q * r, rest / m, m);
    Modular.ModUnique(x * r + d, m, q * r + rest / m, rest % m);
  }

  lemma ScaledSum(q: int, m: int, y: int, r: int)
    ensures (q * m + y) * r == (q * r) * m + y * r
  {
  }

  lemma Regroup(a: int, b: int, m: int)
    ensures a * m + b * m == (a + b) * m
  {
  }

  /** The state of a parsing loop: the digits from `start` to `pos` are taken. */
  ghost predicate Taken(w: nat, radix: nat, s: string, start: nat, pos: nat, result: nat)
  {
    && Supported(w) && Parseable(radix) && start <= pos <= |s| && pos - start <= 3 * Size(w)
    && RunEnd(radix, s, start, pos - start) == pos
    && result == ValueOf(radix, s[start..pos]) % Values(w)
  }

  lemma TakeNone(w: nat, radix: nat, s: string, start: nat)
    requires Supported(w) && Parseable(radix) && start <= |s|
    ensures Taken(w, radix, s, start, start, 0)
  {
  }

  lemma TakeOne(w: nat, radix: nat, s: string, start: nat, pos: nat, result: nat)
    requires Taken(w, radix, s, start, pos, result) && pos < |s| && pos - start < 3 * Size(w) && Accepts(radix, s[pos])
    ensures Taken(w, radix, s, start, pos + 1, Wrap(w, result * radix + DigitValue(s[pos])))
  {
    hide ValueOf, RunEnd, Wrap, DigitValue, Values;
    RunExtends(radix, s, start, pos - start, pos - start);
    assert forall d :: d in s[start..pos] ==> Accepts(radix, d);
    ValueStep(w, radix, s[start..pos], s[pos], result);
    assert s[start..pos + 1] == s[start..pos] + [s[pos]];
  }

  lemma TakeDone(w: nat, radix: nat, s: string, start: nat, pos: nat, result: nat)
    requires Taken(w, radix, s, start, pos, result)
    requires pos - start == 3 * Size(w) || (pos < |s| && !Accepts(radix, s[pos]))
    ensures (result, pos) == Parse(w, radix, s, start)
  {
    RunExtends(radix, s, start, pos - start, 3 * Size(w));
  }

  /** `StringToIntDec`: reads at most as many digits as a value can have. */
  method StringToIntDec(w: nat, s: string, start: nat) returns (result: nat, pos: nat)
    requires Supported(w) && start < |s| && s[|s| - 1] == '\0'
    ensures (result, pos) == Parse(w, 10, s, start)
  {
    hide Taken, Parse, Wrap;
    result, pos := 0, start;
    var count := 3 * Size(w) + 1;
    TakeNone(w, 10, s, start);
    while IsDigit(s[pos])
      invariant start <= pos < |s| && count == 3 * Size(w) + 1 - (pos - start) && count >= 1
      invariant Taken(w, 10, s, start, pos, result)
      decreases |s| - pos
    {
      count := count - 1;
      if count == 0 {
        break;
      }
      TakeOne(w, 10, s, start, pos, result);
      result := Wrap(w, result * 10 + (s[pos] as nat - '0' as nat));
      pos := pos + 1;
    }
    TakeDone(w, 10, s, start, pos, result);
  }

  /** `StringToIntOct`. */
  method StringToIntOct(w: nat, s: string, start: nat) returns (result: nat, pos: nat)
    requires Supported(w) && start < |s| && s[|s| - 1] == '\0'
    ensures (result, pos) == Parse(w, 8, s, start)
  {
    hide Taken, Parse, Wrap;
    result, pos := 0, start;
    var count := 3 * Size(w) + 1;
    TakeNone(w, 8, s, start);
    while IsOctDigit(s[pos])
      invariant start <= pos < |s| && count == 3 * Size(w) + 1 - (pos - start) && count >= 1
      invariant Taken(w, 8, s, start, pos, result)
      decreases |s| - pos
    {
      count := count - 1;
      if count == 0 {
        break;
      }
      TakeOne(w, 8, s, start, pos, result);
      result := Wrap(w, result * 8 + (s[pos] as nat - '0' as nat));
      pos := pos + 1;
    }
    TakeDone(w, 8, s, start, pos, result);
  }

  /** `StringToIntHex`: accepts both cases. */
  method StringToIntHex(w: nat, s: string, start: nat) returns (result: nat, pos: nat)
    requires Supported(w) && start < |s| && s[|s| - 1] == '\0'
    ensures (result, pos) == Parse(w, 16, s, start)
  {
    hide Taken, Parse, Wrap;
    result, pos := 0, start;
    var count := 3 * Size(w) + 1;
    TakeNone(w, 16, s, start);
    while true
      invariant start <= pos < |s| && count == 3 * Size(w) + 1 - (pos - start) && count >= 1
      invariant Taken(w, 16, s, start, pos, result)
      decreases |s| - pos
    {
      count := count - 1;
      if count == 0 {
        break;
      }
      var delta;
      if IsDigit(s[pos]) {
        delta := '0' as nat;
      } else if 'A' <= s[pos] <= 'F' {
        delta := 'A' as nat - 10;
      } else if 'a' <= s[pos] <= 'f' {
        delta := 'a' as nat - 10;
      } else {
        break;
      }
      TakeOne(w, 16, s, start, pos, result);
      result := Wrap(w, result * 16 + (s[pos] as nat - delta));
      pos := pos + 1;
    }
    TakeDone(w, 16, s, start, pos, result);
  }

  // Round trip.

  lemma LitValue(radix: nat, d: nat)
    requires Parseable(radix) && d < radix
    ensures Accepts(radix, DigitToLit(d)) && DigitValue(DigitToLit(d)) == d
  {
  }

  /** The printed digits are digits of the radix, and stand for the number. */
  lemma {:induction false} DigitsValue(v: nat, radix: nat)
    requires Parseable(radix)
    ensures forall c :: c in Digits(v, radix) ==> Accepts(radix, c)
    ensures ValueOf(radix, Digits(v, radix)) == v
  {
    Shrinks(v, radix);
    LitValue(radix, v % radix);
    var d := Digits(v, radix);
    if v < radix {
      assert d[..0] == [];
    } else {
      DigitsValue(v / radix, radix);
      assert d[..|d| - 1] == Digits(v / radix, radix);
    }
  }

  lemma {:induction false} RunOver(radix: nat, s: string, pos: nat, n: nat, count: nat)
    requires pos + n < |s| && n <= count && !Accepts(radix, s[pos + n])
    requires forall i :: pos <= i < pos + n ==> Accepts(radix, s[i])
    ensures RunEnd(radix, s, pos, count) == pos + n
    decreases n
  {
    if n > 0 {
      RunOver(radix, s, pos + 1, n - 1, count - 1);
    }
  }

  /** Parsing what was printed gives the number back, with the cursor on the terminator. */
  lemma RoundTrip(w: nat, radix: nat, v: nat, s: string, pos: nat)
    requires Supported(w) && Parseable(radix) && v < Values(w)
    requires pos + |Digits(v, radix)| < |s| && s[pos..pos + |Digits(v, radix)|] == Digits(v, radix)
    requires s[pos + |Digits(v, radix)|] == '\0'
    ensures Parse(w, radix, s, pos) == (v, pos + |Digits(v, radix)|)
  {
    hide Accepts, RunEnd, ValueOf, Digits, Values, Size;
    var d := Digits(v, radix);
    DigitsValue(v, radix);
    BufferSuffices(w, v, radix);
    assert !Accepts(radix, '\0') by {
      NulIsNoDigit(radix);
    }
    forall i | pos <= i < pos + |d|
      ensures Accepts(radix, s[i])
    {
      assert s[i] == d[i - pos];
    }
    RunOver(radix, s, pos, |d|, 3 * Size(w));
    ModSmall(v, Values(w));
  }

  lemma NulIsNoDigit(radix: nat)
    ensures !Accepts(radix, '\0')
  {
  }

  lemma ModSmall(v: nat, m: nat)
    requires v < m
    ensures v % m == v
  {
  }
}
