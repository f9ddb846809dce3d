/** Division by ten with shifts and additions (mcucpp/fastdiv10.h). */
module FastDiv10 {

  /** The widths, in bits, of the unsigned types the template is instantiated with. */
  predicate Supported(w: nat) { w == 8 || w == 16 || w == 32 || w == 64 }

  /** Number of values of an unsigned type of `w` bits. */
  function Values(w: nat): (m: nat)
    requires Supported(w)
    ensures m > 0
  {
    if w == 8 then 0x100
    else if w == 16 then 0x1_0000
    else if w == 32 then 0x1_0000_0000
    else 0x1_0000_0000_0000_0000
  }

  /** Conversion to the unsigned type of `w` bits. */
  function Wrap(w: nat, x: int): (r: nat)
    requires Supported(w)
    ensures r < Values(w)
    ensures 0 <= x < Values(w) ==> r == x
  {
    if w == 8 then x % 0x100
    else if w == 16 then x % 0x1_0000
    else if w == 32 then x % 0x1_0000_0000
    else x % 0x1_0000_0000_0000_0000
  }

  /** One term of the series, left out when the shift is not smaller than the type. */
  function ShiftAdd(w: nat, shift: nat, q: nat): nat
    requires Supported(w) && (shift == 8 || shift == 16 || shift == 32)
  {
    if w <= shift then q
    else if shift == 8 then Wrap(w, q + q / 0x100)
    else if shift == 16 then Wrap(w, q + q / 0x1_0000)
    else Wrap(w, q + q / 0x1_0000_0000)
  }

  /** The first three terms stay below 51/64 of `n` and lose less than 145/64. */
  lemma FirstTerms(n: nat)
    ensures var q := n / 2 + n / 2 / 2; 51 * n - 145 <= 64 * (q + q / 0x10) <= 51 * n
    ensures n / 2 + n / 2 / 2 <= n
  {
  }

  lemma Term8(n: nat, q: nat)
    requires 51 * n - 145 <= 64 * q <= 51 * n
    ensures 13107 * n - 53585 <= 16384 * (q + q / 0x100) <= 13107 * n
  {
  }

  lemma Term16(n: nat, q: nat)
    requires 13107 * n - 53585 <= 16384 * q <= 13107 * n
    ensures 858993459 * n - 4585525585 <= 1073741824 * (q + q / 0x1_0000) <= 858993459 * n
  {
  }

  lemma Term32(n: nat, q: nat)
    requires 858993459 * n - 4585525585 <= 1073741824 * q <= 858993459 * n
    ensures 3689348814741910323 * n - 24306368444485439825 <= 4611686018427387904 * (q + q / 0x1_0000_0000)
        <= 3689348814741910323 * n
  {
  }

  /** The series approximates `8n/10` from below by less than nine, without wrapping. */
  lemma SeriesBound(w: nat, n: nat, q: nat)
    requires Supported(w) && n < Values(w)
    requires 51 * n - 145 <= 64 * q <= 51 * n
    ensures var s := ShiftAdd(w, 32, ShiftAdd(w, 16, ShiftAdd(w, 8, q))); 8 * n - 90 < 10 * s <= 8 * n
  {
    if w == 8 {
    } else if w == 16 {
      Term8(n, q);
    } else {
      Term8(n, q);
      Term16(n, q + q / 0x100);
      if w == 64 {
        var q8 := q + q / 0x100;
        Term32(n, q8 + q8 / 0x1_0000);
      }
    }
  }

  /** One correction suffices when the approximation is within nine of `8n/10`. */
  lemma OneCorrection(n: nat, q: nat)
    requires 8 * n - 90 < 10 * q <= 8 * n
    ensures var r := (n - (q / 8 * 2 + (q - q % 8))) % 0x100;
            0 <= r < 20 && (if r > 9 then q / 8 + 1 == n / 10 && r - 10 == n % 10 else q / 8 == n / 10 && r == n % 10)
  {
    assert n - (q / 8 * 2 + (q - q % 8)) == n - q / 8 * 10;
  }

  /** The six steps that build the approximation. */
  function Series(w: nat, n: nat): (q: nat)
    requires Supported(w) && n < Values(w)
    ensures 8 * n - 90 < 10 * q <= 8 * n
  {
    var half := n / 2;
    var q1 := Wrap(w, half + half / 2);
    var q2 := Wrap(w, q1 + q1 / 0x10);
    FirstTerms(n);
    SeriesBound(w, n, q2);
    ShiftAdd(w, 32, ShiftAdd(w, 16, ShiftAdd(w, 8, q2)))
  }

  /** `divmodu10`: quotient and remainder by ten for every value of every unsigned type. */
  method DivModU10(w: nat, n: nat) returns (quot: nat, rem: nat)
    requires (w == 8 || w == 16 || w == 32 || w == 64) && n < Values(w)
    ensures quot == n / 10 && rem == n % 10
  {
    quot := Series(w, n);
    var qq := quot;
    OneCorrection(n, qq);
    quot, rem := qq / 8, (n - (qq / 8 * 2 + (qq - qq % 8))) % 0x100;
    if rem > 9 {
      rem := rem - 10;
      quot := quot + 1;
    }
  }
}
