/** The choice of a timer's clock divider for a period (mcucpp/DividerSelector.h). */
module DividerSelector {
  import opened MachineInts
  import Div

  /** The dividers of a timer, finest first, and the largest value of its counter. */
  datatype Timer = Timer(coeffs: seq<u32>, maxValue: u32) {
    predicate Valid()
    {
      && 0 < |coeffs| <= 0x8000_0000
      && (forall i :: 0 <= i < |coeffs| ==> coeffs[i] > 0)
      && forall i, j :: 0 <= i <= j < |coeffs| ==> coeffs[i] <= coeffs[j]
    }

    /** The ticks of the `n`-th divider, given those of the undivided clock. */
    function Ticks(base: u32, n: nat): u32
      requires Valid() && n < |coeffs|
    {
      Quotient(base, coeffs[n])
    }

    /** The finest divider whose ticks fit the counter; the coarsest one, with a full counter, when none does. */
    ghost predicate Selects(base: u32, n: nat, ticks: nat, ok: bool)
      requires Valid()
    {
      && n < |coeffs|
      && (forall k: nat :: k < n ==> Ticks(base, k) > maxValue)
      && (ok <==> Ticks(base, n) <= maxValue)
      && ticks == (if ok then Ticks(base, n) else maxValue)
      && (!ok ==> n == |coeffs| - 1)
    }

    /**
     * The `n`-th divider covers a period, given the cycles of the undivided clock in millionths: the counter makes
     * `ticks` whole ticks, and no finer divider fits. The cycles are at most what 32 bits of whole ones hold.
     */
    ghost predicate Covers(srcFreq: u32, period: u32, n: nat, ticks: nat, ok: bool)
    {
      var cycles := if srcFreq * period < 4_294_967_296_000_000 then srcFreq * period else 4_294_967_295_999_999;
      && n < |coeffs|
      && (forall k: nat :: k < n ==> (maxValue + 1) * coeffs[k] * 1_000_000 <= cycles)
      && (ok <==> cycles < (maxValue + 1) * coeffs[n] * 1_000_000)
      && (ok ==> ticks * coeffs[n] * 1_000_000 <= cycles < (ticks + 1) * coeffs[n] * 1_000_000)
      && (!ok ==> n == |coeffs| - 1 && ticks == maxValue)
    }

    /** The selection is the covering one. */
    lemma SelectsMeans(srcFreq: u32, period: u32, n: nat, ticks: nat, ok: bool)
      requires Valid() && n < |coeffs|
      ensures Selects(TimeBase(srcFreq, period), n, ticks, ok) <==> Covers(srcFreq, period, n, ticks, ok)
    {
      hide Quotient, TimeBase;
      var base := TimeBase(srcFreq, period);
      forall k: nat | k < n
        ensures Ticks(base, k) > maxValue <==> (maxValue + 1) * coeffs[k] * 1_000_000 <= Cycles(srcFreq, period)
      {
        TicksAtLeast(srcFreq, period, coeffs[k], maxValue + 1);
      }
      TicksAtLeast(srcFreq, period, coeffs[n], maxValue + 1);
      TicksAtLeast(srcFreq, period, coeffs[n], ticks);
      TicksAtLeast(srcFreq, period, coeffs[n], ticks + 1);
    }

    lemma SelectedCovers(srcFreq: u32, period: u32, n: nat, ticks: nat, ok: bool)
      requires Valid() && Selects(TimeBase(srcFreq, period), n, ticks, ok)
      ensures Covers(srcFreq, period, n, ticks, ok)
    {
      hide Covers, TimeBase;
      SelectsMeans(srcFreq, period, n, ticks, ok);
    }

    lemma SelectedFits(base: u32, n: nat, ticks: nat, ok: bool)
      requires Valid() && Selects(base, n, ticks, ok)
      ensures ticks <= maxValue
    {
    }

    /** A coarser divider has fewer ticks. */
    lemma TicksFall(base: u32, i: nat, j: nat)
      requires Valid() && i <= j < |coeffs|
      ensures Ticks(base, j) <= Ticks(base, i)
    {
      var c, d := coeffs[i], coeffs[j];
      QuotientBelow(base / c + 1, base, c);
      MulOrder(base / c + 1, c, d);
      QuotientBelow(base / c + 1, base, d);
    }

    /** The choice is determined by the period. */
    lemma SelectsUnique(base: u32, n1: nat, ticks1: nat, ok1: bool, n2: nat, ticks2: nat, ok2: bool)
      requires Valid() && Selects(base, n1, ticks1, ok1) && Selects(base, n2, ticks2, ok2)
      ensures n1 == n2 && ticks1 == ticks2 && ok1 == ok2
    {
    }
  }

  function Quotient(base: u32, c: u32): u32
    requires c > 0
  {
    DivLess(base, c);
    base / c
  }

  lemma DivLess(base: nat, c: nat)
    requires c > 0
    ensures 0 <= base / c <= base
  {
    QuotientBelow(0, base, c);
    QuotientBelow(base + 1, base, c);
    MulOrder(base + 1, 1, c);
  }

  /** The ticks of the undivided clock in a period of microseconds, at most what 32 bits hold. */
  function TimeBase(srcFreq: u32, period: u32): u32
  {
    FreqBound(srcFreq, period);
    var cycles := srcFreq * period;
    if cycles / 0x1_0000_0000 >= 1_000_000 then 0xFFFF_FFFF else cycles / 1_000_000
  }

  lemma TimeBaseIs(srcFreq: u32, period: u32)
    ensures var cycles := srcFreq * period;
            && 0 <= cycles < 0x1_0000_0000_0000_0000
            && TimeBase(srcFreq, period)
               == if cycles / 0x1_0000_0000 >= 1_000_000 then 0xFFFF_FFFF else cycles / 1_000_000
  {
    FreqBound(srcFreq, period);
  }

  lemma FreqBound(f: u32, p: u32)
    ensures 0 <= f * p < 0x1_0000_0000_0000_0000
  {
    MulOrder(f, 0, p);
    MulOrder(f, p, 0xFFFF_FFFF);
  }

  /** The cycles of the undivided clock in a period, in millionths, at most what 32 bits of whole cycles hold. */
  function Cycles(srcFreq: u32, period: u32): nat
  {
    FreqBound(srcFreq, period);
    if srcFreq * period < 4_294_967_296_000_000 then srcFreq * period else 4_294_967_295_999_999
  }

  lemma TicksAtLeast(srcFreq: u32, period: u32, c: u32, q: int)
    requires c > 0
    ensures q * c * 1_000_000 <= Cycles(srcFreq, period) <==> q <= Quotient(TimeBase(srcFreq, period), c)
  {
    var base, cycles := TimeBase(srcFreq, period), Cycles(srcFreq, period);
    FreqBound(srcFreq, period);
    assert base == cycles / 1_000_000;
    QuotientBelow(q, base, c);
    QuotientBelow(q * c, cycles, 1_000_000);
  }

  class Selector {
    const timer: Timer
    var ticks: nat
    var dividerNumber: nat

    constructor (timer: Timer)
      requires timer.Valid()
      ensures this.timer == timer && ticks == 0 && dividerNumber == 0
    {
      this.timer, ticks, dividerNumber := timer, 0, 0;
    }

    /** A binary search over the dividers; 32 rounds are always enough. */
    method ProcessMkSek(srcFreq: u32, targetPeriodMkSec: u32) returns (ok: bool)
      requires timer.Valid()
      modifies this
      ensures timer.Selects(TimeBase(srcFreq, targetPeriodMkSec), dividerNumber, ticks, ok)
      ensures timer.Covers(srcFreq, targetPeriodMkSec, dividerNumber, ticks, ok)
    {
      hide Quotient, TimeBase, Timer.Covers;
      TimeBaseIs(srcFreq, targetPeriodMkSec);
      var timeBase, _ := Div.Div64x32u(srcFreq * targetPeriodMkSec, 1_000_000);
      var minDivN, maxDivN := 0, |timer.coeffs| - 1;
      var t := 0;
      Powers();
      for i := 0 to 32
        invariant 0 <= minDivN <= maxDivN < |timer.coeffs|
        invariant i < 32 && maxDivN - minDivN < Pow2(31 - i)
        invariant forall k: nat :: k < minDivN ==> timer.Ticks(timeBase, k) > timer.maxValue
        invariant maxDivN < |timer.coeffs| - 1 ==> timer.Ticks(timeBase, maxDivN) <= timer.maxValue
      {
        var currentDivN := (minDivN + maxDivN) / 2;
        t := timer.Ticks(timeBase, currentDivN);
        if maxDivN == minDivN {
          dividerNumber := maxDivN;
          break;
        }
        if t > timer.maxValue {
          forall k: nat | k <= currentDivN
            ensures timer.Ticks(timeBase, k) > timer.maxValue
          {
            timer.TicksFall(timeBase, k, currentDivN);
          }
          minDivN := currentDivN + 1;
        } else {
          maxDivN := currentDivN;
        }
      }
      if t > timer.maxValue {
        ticks := timer.maxValue;
        timer.SelectedCovers(srcFreq, targetPeriodMkSec, dividerNumber, ticks, false);
        return false;
      }
      ticks := t;
      timer.SelectedCovers(srcFreq, targetPeriodMkSec, dividerNumber, ticks, true);
      return true;
    }
  }

  lemma Powers()
    ensures Pow2(31) == 0x8000_0000 && Pow2(0) == 1
  {
    Div.Pow32();
  }
}
