/** Quadrature encoders decoded in parallel, one per bit of a port (mcucpp/drivers/Encoder.h). */
module Encoder {
  import opened Bits32
  import opened Modular

  /** The bits of the port word that must count up: those whose second pin repeats what the first was. */
  function Detect(x1: bv32, x2: bv32, y1: bv32, y2: bv32): bv32 { (x2 ^ y1) & !(x1 ^ y2) }

  /** The position in the cycle 00, 10, 11, 01 of the two pins. */
  function Phase(pin1: bool, pin2: bool): (p: nat)
    ensures p < 4
  {
    if pin1 then if pin2 then 2 else 1 else if pin2 then 3 else 0
  }

  function PhaseOf(pin1: bv32, pin2: bv32, channel: nat): (p: nat)
    requires channel < 32
    ensures p < 4
  {
    Phase(Bit(pin1, channel), Bit(pin2, channel))
  }

  /** What a capture counts for a channel that goes from phase `p` to phase `q`. */
  function Count(p: nat, q: nat): (d: int)
    requires p < 4 && q < 4
  {
    if q == Slot(p + 1, 4) then 1 else if p == Slot(q + 1, 4) then -1 else 0
  }

  /** A shaft that moves by `d` phases between two captures is counted right exactly when it moves by at most one. */
  lemma CountExact(position: int, d: int)
    ensures Count(Slot(position, 4), Slot(position + d, 4)) == d <==> -1 <= d <= 1
  {
    ModDef(position, 4);
    var p := Slot(position, 4);
    SlotNext(p, 4);
    SlotSmall(p, 4);
    if d == 1 {
      SlotNext(position, 4);
    } else if d == -1 {
      SlotNext(position - 1, 4);
      SlotSmall(Slot(position - 1, 4), 4);
      SlotNext(Slot(position - 1, 4), 4);
    }
  }

  lemma DetectBit(x1: bv32, x2: bv32, y1: bv32, y2: bv32, c: nat)
    requires c < 32
    ensures Bit(Detect(x1, x2, y1, y2), c) <==> Bit(x2, c) != Bit(y1, c) && Bit(x1, c) == Bit(y2, c)
  {
    hide Bit;
    BitAndNot(x2 ^ y1, x1 ^ y2, c);
    BitXor(x2, y1, c);
    BitXor(x1, y2, c);
  }

  /** Forward and backward detection are the two neighbouring phases. */
  lemma DetectIsCount(x1: bv32, x2: bv32, y1: bv32, y2: bv32, c: nat)
    requires c < 32
    ensures Count(PhaseOf(x1, x2, c), PhaseOf(y1, y2, c)) ==
            (if Bit(Detect(x1, x2, y1, y2), c) then 1 else 0) - (if Bit(Detect(x2, x1, y2, y1), c) then 1 else 0)
  {
    hide Bit, Detect;
    DetectBit(x1, x2, y1, y2, c);
    DetectBit(x2, x1, y2, y1, c);
    SlotSmall(1, 4);
    SlotSmall(2, 4);
    SlotSmall(3, 4);
    SlotNext(3, 4);
  }

  function LowBit(x: bv32): (b: nat) { if x & 1 == 1 then 1 else 0 }

  lemma ShiftedLow(x: bv32, i: nat)
    requires i < 32
    ensures LowBit(Shifted(x, i)) == if Bit(x, i) then 1 else 0
  {
  }

  /** The counters of all channels and the pins as last read. */
  datatype State = State(value: seq<nat>, x1: bv32, x2: bv32)

  /** A counter after a capture of the pins `y1` and `y2`: it moves by the step of its channel. */
  function Moved(range: nat, s: State, y1: bv32, y2: bv32, c: nat): (v: nat)
    requires range > 0 && c < |s.value| <= 32
    ensures v < range
  {
    Slot(s.value[c] + Count(PhaseOf(s.x1, s.x2, c), PhaseOf(y1, y2, c)), range)
  }

  /** One capture, for all channels at once. */
  ghost predicate Captured(range: nat, s: State, y1: bv32, y2: bv32, r: State)
    requires range > 0
  {
    && |r.value| == |s.value| <= 32 && r.x1 == y1 && r.x2 == y2
    && forall c :: 0 <= c < |s.value| ==> r.value[c] == Moved(range, s, y1, y2, c)
  }

  /** The counters of the channels, of a type with `range` values, and the pins as last read. */
  class Encoder {
    const value: array<nat>
    const range: nat
    var x1: bv32
    var x2: bv32

    ghost predicate Valid()
      reads this, value
    {
      value.Length <= 32 && range > 0 && forall c :: 0 <= c < value.Length ==> value[c] < range
    }

    ghost function Current(): State
      reads this, value
    {
      State(value[..], x1, x2)
    }

    constructor (channels: nat, range: nat)
      requires channels <= 32 && range > 0
      ensures Valid() && fresh(value) && value.Length == channels && this.range == range
      ensures x1 == 0 && x2 == 0 && forall c :: 0 <= c < channels ==> value[c] == 0
    {
      value := new nat[channels](_ => 0);
      this.range := range;
      x1, x2 := 0, 0;
    }

    /** Counts what the pins `y1` and `y2` show since the last capture, for all channels at once. */
    method CaptureHandler(y1: bv32, y2: bv32)
      requires Valid()
      modifies this, value
      ensures Valid() && Captured(range, old(Current()), y1, y2, Current())
    {
      hide Bit, Detect, Count, PhaseOf, Slot, LowBit, Half, Shifted;
      ghost var s := Current();
      ghost var fwd0 := Detect(x1, x2, y1, y2);
      ghost var back0 := Detect(x2, x1, y2, y1);
      var fwd := Detect(x1, x2, y1, y2);
      var back := Detect(x2, x1, y2, y1);
      x1 := y1;
      x2 := y2;
      ShiftedZero(fwd);
      ShiftedZero(back);
      var i := value.Length;
      var ptr := 0;
      while i != 0
        invariant 0 <= i && ptr == value.Length - i
        invariant x1 == y1 && x2 == y2
        invariant i > 0 ==> fwd == Shifted(fwd0, ptr) && back == Shifted(back0, ptr)
        invariant forall c :: 0 <= c < value.Length ==> value[c] < range
        invariant forall c :: ptr <= c < value.Length ==> value[c] == s.value[c]
        invariant forall c :: 0 <= c < ptr ==> value[c] == Moved(range, s, y1, y2, c)
        decreases i
      {
        ShiftedLow(fwd0, ptr);
        ShiftedLow(back0, ptr);
        DetectIsCount(s.x1, s.x2, y1, y2, ptr);
        value[ptr] := Slot(value[ptr] + LowBit(fwd) - LowBit(back), range);
        if i > 1 {
          ShiftedNext(fwd0, ptr);
          ShiftedNext(back0, ptr);
        }
        ptr := ptr + 1;
        fwd := Half(fwd);
        back := Half(back);
        i := i - 1;
      }
    }
  }

  // Runs: the pins of one channel at successive captures, as the phases they show.

  /** The counter of a channel after captures of the phases `ps`, the first being the one before any capture. */
  function Counter(start: nat, ps: seq<nat>, range: nat): nat
    requires range > 0 && |ps| > 0 && forall k :: 0 <= k < |ps| ==> ps[k] < 4
  {
    var n := |ps| - 1;
    if n == 0 then start
    else Slot(Counter(start, ps[..n], range) + Count(ps[n - 1], ps[n]), range)
  }

  /** The shaft is at `shaft[k]` when the phase `ps[k]` is captured. */
  ghost predicate Shows(shaft: seq<int>, ps: seq<nat>)
  {
    |shaft| == |ps| > 0 && forall k :: 0 <= k < |ps| ==> ps[k] == Slot(shaft[k], 4)
  }

  /** At most one phase is passed between two captures. */
  ghost predicate Slow(shaft: seq<int>)
  {
    forall k :: 0 < k < |shaft| ==> -1 <= shaft[k] - shaft[k - 1] <= 1
  }

  /**
   * Over every run in which the shaft passes at most one phase per capture, the counter is its start plus the net
   * displacement, modulo its range, and the displacement agrees with the phase.
   */
  lemma {:induction false} CounterTracks(start: nat, shaft: seq<int>, ps: seq<nat>, range: nat)
    requires range > 0 && start < range && Shows(shaft, ps) && Slow(shaft)
    ensures Counter(start, ps, range) == Slot(start + (shaft[|shaft| - 1] - shaft[0]), range)
    ensures ps[|ps| - 1] == Slot(ps[0] + (shaft[|shaft| - 1] - shaft[0]), 4)
  {
    hide Slot, Count;
    var n := |ps| - 1;
    SlotOffset(shaft[0], shaft[n] - shaft[0], 4);
    if n == 0 {
      SlotSmall(start, range);
    } else {
      CounterTracks(start, shaft[..n], ps[..n], range);
      var d := shaft[n] - shaft[n - 1];
      CountExact(shaft[n - 1], d);
      assert shaft[n - 1] + d == shaft[n];
      SlotOffset(start + (shaft[n - 1] - shaft[0]), d, range);
      assert start + (shaft[n - 1] - shaft[0]) + d == start + (shaft[n] - shaft[0]);
    }
  }

  /** A run of captures: the states before and after each. */
  ghost predicate Run(range: nat, ss: seq<State>)
    requires range > 0
  {
    && |ss| > 0 && |ss[0].value| <= 32
    && (forall c :: 0 <= c < |ss[0].value| ==> ss[0].value[c] < range)
    && forall k :: 1 <= k < |ss| ==> CapturedAt(range, ss, k)
  }

  ghost predicate CapturedAt(range: nat, ss: seq<State>, k: int)
    requires range > 0
  {
    1 <= k < |ss| && Captured(range, ss[k - 1], ss[k].x1, ss[k].x2, ss[k])
  }

  lemma RunPrefix(range: nat, ss: seq<State>, n: nat)
    requires range > 0 && Run(range, ss) && 0 < n < |ss|
    ensures Run(range, ss[..n]) && CapturedAt(range, ss, n)
  {
    hide Captured;
    forall k | 1 <= k < n
      ensures CapturedAt(range, ss[..n], k)
    {
      assert CapturedAt(range, ss, k);
    }
  }

  /** The phases that the pins of a channel show in the states of a run. */
  function Phases(ss: seq<State>, c: nat): (ps: seq<nat>)
    requires c < 32
    ensures |ps| == |ss| && forall k :: 0 <= k < |ps| ==> ps[k] == PhaseOf(ss[k].x1, ss[k].x2, c) < 4
  {
    seq(|ss|, k requires 0 <= k < |ss| => PhaseOf(ss[k].x1, ss[k].x2, c))
  }

  lemma {:induction false} RunCounts(range: nat, ss: seq<State>, c: nat)
    requires range > 0 && Run(range, ss) && c < |ss[0].value|
    ensures |ss[|ss| - 1].value| == |ss[0].value|
    ensures ss[|ss| - 1].value[c] == Counter(ss[0].value[c], Phases(ss, c), range)
    decreases |ss|
  {
    hide Slot, Count, PhaseOf, Run, Captured, Counter;
    RunStart(range, ss);
    var n := |ss| - 1;
    CounterStep(ss[0].value[c], Phases(ss, c), range);
    if n > 0 {
      RunPrefix(range, ss, n);
      RunCounts(range, ss[..n], c);
      assert Phases(ss, c)[..n] == Phases(ss[..n], c);
      CapturedCounter(range, ss[n - 1], ss[n].x1, ss[n].x2, ss[n], c);
    }
  }

  lemma CounterStep(start: nat, ps: seq<nat>, range: nat)
    requires range > 0 && |ps| > 0 && forall k :: 0 <= k < |ps| ==> ps[k] < 4
    ensures var n := |ps| - 1;
            Counter(start, ps, range) ==
            if n == 0 then start else Slot(Counter(start, ps[..n], range) + Count(ps[n - 1], ps[n]), range)
  {
  }

  lemma CapturedCounter(range: nat, s: State, y1: bv32, y2: bv32, r: State, c: nat)
    requires range > 0 && Captured(range, s, y1, y2, r) && c < |s.value|
    ensures |r.value| == |s.value| <= 32
    ensures r.value[c] == Slot(s.value[c] + Count(PhaseOf(s.x1, s.x2, c), PhaseOf(y1, y2, c)), range)
  {
  }

  lemma RunStart(range: nat, ss: seq<State>)
    requires range > 0 && Run(range, ss)
    ensures |ss| > 0 && |ss[0].value| <= 32 && forall c :: 0 <= c < |ss[0].value| ==> ss[0].value[c] < range
  {
  }

  /**
   * Over every run of captures, with a shaft for each channel that passes at most one phase per capture, every counter
   * is its start plus the net displacement of its shaft, modulo the range.
   */
  lemma AllChannelsTrack(range: nat, ss: seq<State>, shafts: seq<seq<int>>)
    requires range > 0 && Run(range, ss) && |shafts| == |ss[0].value|
    requires forall c :: 0 <= c < |shafts| ==>
               |shafts[c]| == |ss| && Shows(shafts[c], Phases(ss, c)) && Slow(shafts[c])
    ensures |ss[|ss| - 1].value| == |shafts|
    ensures forall c :: 0 <= c < |shafts| ==>
              ss[|ss| - 1].value[c] == Slot(ss[0].value[c] + (shafts[c][|ss| - 1] - shafts[c][0]), range)
  {
    hide Slot, Counter, Run;
    RunStart(range, ss);
    RunLength(range, ss);
    forall c | 0 <= c < |shafts|
      ensures ss[|ss| - 1].value[c] == Slot(ss[0].value[c] + (shafts[c][|ss| - 1] - shafts[c][0]), range)
    {
      RunCounts(range, ss, c);
      CounterTracks(ss[0].value[c], shafts[c], Phases(ss, c), range);
    }
  }

  lemma {:induction false} RunLength(range: nat, ss: seq<State>)
    requires range > 0 && Run(range, ss)
    ensures |ss[|ss| - 1].value| == |ss[0].value|
    decreases |ss|
  {
    hide Run;
    RunStart(range, ss);
    var n := |ss| - 1;
    if n > 0 {
      RunPrefix(range, ss, n);
      RunLength(range, ss[..n]);
    }
  }

  lemma SlotOffset(k: int, d: int, n: int)
    requires n > 0
    ensures Slot(Slot(k, n) + d, n) == Slot(k + d, n)
  {
    ModDef(k, n);
    var s := Slot(k, n) + d;
    ModDef(s, n);
    var q := s / n + k / n;
    Sum(s / n, k / n, n);
    ModUnique(k + d, n, q, s % n);
  }

  lemma Sum(a: int, b: int, n: int)
    ensures (a + b) * n == a * n + b * n
  {
  }

  /** A shaft that passes two phases between captures is not counted at all. */
  lemma DoubleStepLost(start: nat, position: int, range: nat)
    requires range > 0 && start < range
    ensures Counter(start, [Slot(position, 4), Slot(position + 2, 4)], range) == start
  {
    var ps := [Slot(position, 4), Slot(position + 2, 4)];
    assert ps[..1] == [ps[0]];
    ModDef(position, 4);
    SlotNext(position, 4);
    SlotNext(position + 1, 4);
    SlotNext(ps[0], 4);
    SlotNext(ps[1], 4);
    SlotSmall(ps[0], 4);
    SlotSmall(ps[1], 4);
    SlotSmall(start, range);
    assert Count(ps[0], ps[1]) == 0;
  }
}
