/** The servo driver: one timer multiplexes the pulses of all channels (mcucpp/drivers/servo.h). */
module Servo {
  import opened Bits32
  import opened MachineInts
  import D = DividerSelector
  import M = Modular

  /** What one call of the handler drives high, and for a pulse how long; the pause takes its length when it begins. */
  datatype Slice = Pulse(high: seq<bool>, ticks: nat) | Pause(high: seq<bool>) {
    function Length(): nat { if Pulse? then ticks else 0 }
  }

  function High(position: seq<nat>, phase: nat): (h: seq<bool>)
    ensures |h| == |position|
    ensures forall i :: 0 <= i < |h| ==> h[i] == (position[i] > phase)
  {
    seq(|position|, i requires 0 <= i < |position| => position[i] > phase)
  }

  predicate Active(position: seq<nat>, phase: nat)
  {
    exists i :: 0 <= i < |position| && position[i] > phase
  }

  /** The first position after `phase`. */
  ghost predicate IsNext(position: seq<nat>, phase: nat, next: nat)
  {
    next > phase && next in position && forall i :: 0 <= i < |position| && position[i] > phase ==> next <= position[i]
  }

  /** The positions still to come in a frame. */
  function Ahead(position: seq<nat>, phase: nat): set<nat>
  {
    set p | p in position && p > phase
  }

  ghost function Next(position: seq<nat>, phase: nat): (next: nat)
    requires Active(position, phase)
    ensures IsNext(position, phase, next)
  {
    NextExists(position, phase);
    var next: nat :| IsNext(position, phase, next);
    next
  }

  lemma {:induction false} NextExists(position: seq<nat>, phase: nat)
    requires Active(position, phase)
    ensures exists next: nat :: IsNext(position, phase, next)
    decreases |position|
  {
    var last := |position| - 1;
    var rest := position[..last];
    if Active(rest, phase) {
      NextExists(rest, phase);
      var m: nat :| IsNext(rest, phase, m);
      var next := if phase < position[last] < m then position[last] else m;
      assert next in position;
      forall i | 0 <= i < |position| && position[i] > phase
        ensures next <= position[i]
      {
        assert i < last ==> rest[i] == position[i];
      }
      assert IsNext(position, phase, next);
    } else {
      assert forall i :: 0 <= i < last ==> rest[i] == position[i];
      assert IsNext(position, phase, position[last]);
    }
  }

  lemma NextUnique(position: seq<nat>, phase: nat, a: nat, b: nat)
    requires IsNext(position, phase, a) && IsNext(position, phase, b)
    ensures a == b
  {
  }

  lemma AheadShrinks(position: seq<nat>, phase: nat, next: nat)
    requires IsNext(position, phase, next)
    ensures Ahead(position, phase) == Ahead(position, next) + {next} && next !in Ahead(position, next)
    ensures |Ahead(position, phase)| == |Ahead(position, next)| + 1
  {
  }

  /** The rest of a frame from `phase` on, ending with the pause. */
  ghost function Frame(position: seq<nat>, phase: nat): (f: seq<Slice>)
    ensures |f| > 0
    decreases Ahead(position, phase)
  {
    if Active(position, phase) then
      var next := Next(position, phase);
      AheadShrinks(position, phase, next);
      [Pulse(High(position, phase), next - phase)] + Frame(position, next)
    else
      [Pause(High(position, phase))]
  }

  /** A frame takes one call for each distinct position ahead, and one for the pause. */
  lemma {:induction false} FrameLength(position: seq<nat>, phase: nat)
    ensures |Frame(position, phase)| == |Ahead(position, phase)| + 1
    decreases Ahead(position, phase)
  {
    if Active(position, phase) {
      var next := Next(position, phase);
      AheadShrinks(position, phase, next);
      FrameLength(position, next);
    } else {
      assert Ahead(position, phase) == {};
    }
  }

  /** Ticks during which channel `i` is high. */
  function HighTicks(slices: seq<Slice>, i: nat): nat
    requires forall s :: s in slices ==> i < |s.high|
  {
    if slices == [] then 0
    else (if slices[0].high[i] then slices[0].Length() else 0) + HighTicks(slices[1..], i)
  }

  /** Channel `i` is high in the first `n` slices and low in all the others. */
  ghost predicate HighFirst(slices: seq<Slice>, i: nat, n: nat)
  {
    n <= |slices| && forall k :: 0 <= k < |slices| ==> i < |slices[k].high| && slices[k].high[i] == (k < n)
  }

  /** From `phase` on, a channel is high without a break for exactly the ticks up to its position, then low. */
  lemma {:induction false} FramePulse(position: seq<nat>, phase: nat, i: nat)
    requires i < |position|
    ensures var f := Frame(position, phase);
            && (forall s :: s in f ==> |s.high| == |position|)
            && HighTicks(f, i) == (if position[i] > phase then position[i] - phase else 0)
            && exists n: nat :: HighFirst(f, i, n)
    decreases Ahead(position, phase)
  {
    var f := Frame(position, phase);
    if Active(position, phase) {
      var next := Next(position, phase);
      AheadShrinks(position, phase, next);
      FramePulse(position, next, i);
      var rest := Frame(position, next);
      assert f[1..] == rest;
      var n: nat :| HighFirst(rest, i, n);
      PulseStarts(f, i, if position[i] > phase then n + 1 else 0);
    } else {
      assert f[1..] == [];
      PulseStarts(f, i, 0);
    }
  }

  lemma PulseStarts(slices: seq<Slice>, i: nat, n: nat)
    requires |slices| > 0 && i < |slices[0].high| && slices[0].high[i] == (n > 0)
    requires HighFirst(slices[1..], i, if n > 0 then n - 1 else 0)
    ensures HighFirst(slices, i, n)
  {
    forall k | 0 <= k < |slices|
      ensures i < |slices[k].high| && slices[k].high[i] == (k < n)
    {
      assert k > 0 ==> slices[k] == slices[1..][k - 1];
    }
  }

  /** The clock dividers of the pulses and of the pause, and the length of the pause. */
  datatype Timing = Timing(pulseDivider: nat, pauseDivider: nat, pauseTicks: nat)

  /** What the handler leaves in the port and the timer. */
  datatype Setting = Setting(high: seq<bool>, ticks: nat, divider: nat)

  function Timed(slice: Slice, t: Timing): Setting
  {
    match slice
    case Pulse(high, ticks) => Setting(high, ticks, t.pulseDivider)
    case Pause(high) => Setting(high, t.pauseTicks, t.pauseDivider)
  }

  /** The scheduler's state, and what can happen to it: a timer interrupt, a channel's cached position set (`Stop` sets
      it to zero), all of them stopped, or new timings. */
  datatype Schedule = Schedule(position: seq<nat>, cache: seq<nat>, phase: nat, timing: Timing)

  datatype Event = Timer | Set(channel: nat, ticks: nat) | StopAll | Retime(timing: Timing)

  /** What one call of the handler does. */
  ghost function Handle(s: Schedule): (r: (Schedule, Slice))
    requires |s.cache| == |s.position|
    ensures |r.0.cache| == |r.0.position| == |s.position| && r.0.timing == s.timing
  {
    var high := High(s.position, s.phase);
    if Active(s.position, s.phase) then
      var next := Next(s.position, s.phase);
      (s.(phase := next), Pulse(high, next - s.phase))
    else
      (s.(position := s.cache, phase := 0), Pause(high))
  }

  function SetCache(cache: seq<nat>, channel: nat, ticks: nat): (c: seq<nat>)
    ensures |c| == |cache|
  {
    if channel < |cache| then cache[channel := ticks] else cache
  }

  /** The cached positions and the timings after an event between handler calls. New timings stop all channels. */
  function CacheAfter(cache: seq<nat>, e: Event): (c: seq<nat>)
    ensures |c| == |cache|
  {
    match e
    case Timer => cache
    case Set(channel, ticks) => SetCache(cache, channel, ticks)
    case StopAll => seq(|cache|, _ => 0)
    case Retime(_) => seq(|cache|, _ => 0)
  }

  function TimingAfter(t: Timing, e: Event): Timing { if e.Retime? then e.timing else t }

  function After(s: Schedule, e: Event): Schedule
  {
    s.(cache := CacheAfter(s.cache, e), timing := TimingAfter(s.timing, e))
  }

  /** The settings that a sequence of events produces. */
  ghost function Output(s: Schedule, events: seq<Event>): seq<Setting>
    requires |s.cache| == |s.position|
    decreases |events|
  {
    if events == [] then []
    else if events[0].Timer? then
      var (s', slice) := Handle(s);
      [Timed(slice, s.timing)] + Output(s', events[1..])
    else Output(After(s, events[0]), events[1..])
  }

  /** The ideal scheduler: play the rest of the current frame slice by slice; when it is over, compute the next
      frame from the positions set by then. */
  ghost function Ideal(rest: seq<Slice>, cache: seq<nat>, t: Timing, events: seq<Event>): seq<Setting>
    requires rest != []
    decreases |events|
  {
    if events == [] then []
    else if events[0].Timer? then
      [Timed(rest[0], t)] + Ideal(if |rest| == 1 then Frame(cache, 0) else rest[1..], cache, t, events[1..])
    else Ideal(rest, CacheAfter(cache, events[0]), TimingAfter(t, events[0]), events[1..])
  }

  /** Whatever happens during frames, the driver plays whole frames, each fixed by the positions at its start. */
  lemma {:induction false} OutputIsFrames(s: Schedule, events: seq<Event>)
    requires |s.cache| == |s.position|
    ensures Output(s, events) == Ideal(Frame(s.position, s.phase), s.cache, s.timing, events)
    decreases |events|
  {
    if events == [] {
    } else if events[0].Timer? {
      HandleFrame(s);
      OutputIsFrames(Handle(s).0, events[1..]);
    } else {
      OutputIsFrames(After(s, events[0]), events[1..]);
    }
  }

  /** A handler call plays the first slice of the frame and leaves the others, or the next frame. */
  lemma HandleFrame(s: Schedule)
    requires |s.cache| == |s.position|
    ensures var (s', slice) := Handle(s);
            var f := Frame(s.position, s.phase);
            && slice == f[0] && s'.cache == s.cache
            && Frame(s'.position, s'.phase) == if |f| == 1 then Frame(s.cache, 0) else f[1..]
  {
    var s' := Handle(s).0;
    if Active(s.position, s.phase) {
      AheadShrinks(s.position, s.phase, s'.phase);
      assert Frame(s.position, s.phase)[1..] == Frame(s.position, s'.phase);
    }
  }

  function Timers(events: seq<Event>): nat
  {
    if events == [] then 0 else (if events[0].Timer? then 1 else 0) + Timers(events[1..])
  }

  /** The timings in force at the `k`-th handler call. */
  function TimingAt(t: Timing, events: seq<Event>, k: nat): Timing
    decreases |events|
  {
    if events == [] then t
    else if events[0].Timer? then if k == 0 then t else TimingAt(t, events[1..], k - 1)
    else TimingAt(TimingAfter(t, events[0]), events[1..], k)
  }

  /** The first `n` slices of `f`, each with the timings in force when it began. */
  ghost predicate Plays(out: seq<Setting>, f: seq<Slice>, t: Timing, events: seq<Event>, n: nat)
  {
    |out| == n <= |f| && forall k :: 0 <= k < n ==> out[k] == Timed(f[k], TimingAt(t, events, k))
  }

  /** Nothing that happens during a frame changes what is left of it, but for the timings. */
  lemma {:induction false} IdealUndisturbed(rest: seq<Slice>, cache: seq<nat>, t: Timing, events: seq<Event>)
    requires rest != [] && Timers(events) <= |rest|
    ensures Plays(Ideal(rest, cache, t, events), rest, t, events, Timers(events))
    decreases |events|
  {
    hide Frame, Timed;
    if events == [] {
    } else if events[0].Timer? {
      var tail := if |rest| == 1 then Frame(cache, 0) else rest[1..];
      IdealUndisturbed(tail, cache, t, events[1..]);
      PlayOne(Ideal(tail, cache, t, events[1..]), rest, tail, t, events);
    } else {
      IdealUndisturbed(rest, CacheAfter(cache, events[0]), TimingAfter(t, events[0]), events[1..]);
    }
  }

  lemma PlayOne(out: seq<Setting>, f: seq<Slice>, tail: seq<Slice>, t: Timing, events: seq<Event>)
    requires events != [] && events[0].Timer? && f != [] && Timers(events) <= |f|
    requires |f| > 1 ==> tail == f[1..]
    requires Plays(out, tail, t, events[1..], Timers(events[1..]))
    ensures Plays([Timed(f[0], t)] + out, f, t, events, Timers(events))
  {
    hide Timed;
    var all := [Timed(f[0], t)] + out;
    forall k | 0 <= k < |all|
      ensures all[k] == Timed(f[k], TimingAt(t, events, k))
    {
      if k > 0 {
        assert all[k] == out[k - 1];
      }
    }
  }

  /** Within a frame the driver plays the frame, with the timings in force at each call. */
  lemma FrameUndisturbed(s: Schedule, events: seq<Event>)
    requires |s.cache| == |s.position| && Timers(events) <= |Frame(s.position, s.phase)|
    ensures Plays(Output(s, events), Frame(s.position, s.phase), s.timing, events, Timers(events))
  {
    hide Output, Ideal, Frame, Timers, Plays;
    OutputIsFrames(s, events);
    IdealUndisturbed(Frame(s.position, s.phase), s.cache, s.timing, events);
  }

  /** Bits of a port word, one for each channel. */
  ghost predicate Drives(port: bv32, position: seq<nat>, phase: nat)
  {
    |position| <= 32 && forall i: nat :: i < |position| ==> Bit(port, i) == (position[i] > phase)
  }

  class Driver {
    const positionMin: int
    const positionMax: int
    const timer: D.Timer
    var pulseDivider: nat
    var pulseMinTicks: nat
    var pulseMaxTicks: nat
    var pauseDivider: nat
    var pauseTicks: nat
    const position: array<nat>
    const positionCache: array<nat>
    var phase: nat

    ghost predicate Valid()
      reads this, position, positionCache
    {
      && position != positionCache && position.Length == positionCache.Length <= 32
      && positionMin < positionMax && timer.Valid()
      && pulseMinTicks <= timer.maxValue && pulseMaxTicks <= timer.maxValue && pauseTicks <= timer.maxValue
      && phase <= timer.maxValue
      && (forall i :: 0 <= i < position.Length ==> position[i] <= timer.maxValue)
      && (forall i :: 0 <= i < position.Length ==> positionCache[i] <= timer.maxValue)
    }

    ghost function Current(): Schedule
      reads this, position, positionCache
    {
      Schedule(position[..], positionCache[..], phase, Timing(pulseDivider, pauseDivider, pauseTicks))
    }

    constructor (channels: nat, positionMin: int, positionMax: int, timer: D.Timer)
      requires channels <= 32 && positionMin < positionMax && timer.Valid()
      ensures Valid() && fresh(position) && fresh(positionCache)
      ensures Current() == Schedule(seq(channels, _ => 0), seq(channels, _ => 0), 0, Timing(0, 0, timer.maxValue))
    {
      this.positionMin, this.positionMax, this.timer := positionMin, positionMax, timer;
      pulseDivider, pauseDivider := 0, 0;
      pulseMinTicks, pulseMaxTicks, pauseTicks := 0, 0, timer.maxValue;
      position := new nat[channels](_ => 0);
      positionCache := new nat[channels](_ => 0);
      phase := 0;
    }

    /** Conversion to the timer's data type, which holds `0 .. maxValue`. */
    function Truncated(x: nat): (ticks: nat)
      ensures ticks <= timer.maxValue && (x <= timer.maxValue ==> ticks == x)
      ensures (x - ticks) % (timer.maxValue + 1) == 0
    {
      Small(x, timer.maxValue + 1);
      Congruent(x, timer.maxValue + 1);
      M.Slot(x, timer.maxValue + 1)
    }

    /** The dividers and tick counts of the pulse and the pause are selected; every cached position is switched off. */
    method UpdateTimings(fCpu: u32, minPulseMkSec: u32, maxPulseMkSec: u32, pauseMkSec: u32)
      requires Valid() && 0 < maxPulseMkSec
      modifies this`pulseDivider, this`pulseMinTicks, this`pulseMaxTicks, this`pauseDivider, this`pauseTicks
      modifies positionCache
      ensures Valid()
      ensures exists ok :: timer.Selects(D.TimeBase(fCpu, maxPulseMkSec), pulseDivider, pulseMaxTicks, ok)
      ensures exists ok :: timer.Selects(D.TimeBase(fCpu, pauseMkSec), pauseDivider, pauseTicks, ok)
      ensures minPulseMkSec <= maxPulseMkSec ==> pulseMinTicks <= pulseMaxTicks
      ensures minPulseMkSec <= maxPulseMkSec && pulseMaxTicks * minPulseMkSec < 0x1_0000_0000 ==>
                pulseMinTicks == pulseMaxTicks * minPulseMkSec / maxPulseMkSec
      ensures forall i :: 0 <= i < positionCache.Length ==> positionCache[i] == 0
      ensures Current() == After(old(Current()), Retime(Timing(pulseDivider, pauseDivider, pauseTicks)))
    {
      hide U32, D.TimeBase, D.Timer.Selects, D.Timer.Valid;
      var pulseSelector := new D.Selector(timer);
      var ok := pulseSelector.ProcessMkSek(fCpu, maxPulseMkSec);
      timer.SelectedFits(D.TimeBase(fCpu, maxPulseMkSec), pulseSelector.dividerNumber, pulseSelector.ticks, ok);
      pulseDivider := pulseSelector.dividerNumber;
      pulseMaxTicks := pulseSelector.ticks;
      pulseMinTicks := MinTicks(minPulseMkSec, maxPulseMkSec);
      var pauseSelector := new D.Selector(timer);
      var pauseOk := pauseSelector.ProcessMkSek(fCpu, pauseMkSec);
      timer.SelectedFits(D.TimeBase(fCpu, pauseMkSec), pauseSelector.dividerNumber, pauseSelector.ticks, pauseOk);
      pauseDivider := pauseSelector.dividerNumber;
      pauseTicks := pauseSelector.ticks;
      StopAll();
      assert timer.Selects(D.TimeBase(fCpu, maxPulseMkSec), pulseDivider, pulseMaxTicks, ok);
      assert timer.Selects(D.TimeBase(fCpu, pauseMkSec), pauseDivider, pauseTicks, pauseOk);
    }

    /** The share of the longest pulse, in 32-bit arithmetic. */
    function MinTicks(minPulseMkSec: u32, maxPulseMkSec: u32): (ticks: nat)
      requires 0 < maxPulseMkSec && pulseMaxTicks <= timer.maxValue
      reads this
      ensures ticks <= timer.maxValue
      ensures minPulseMkSec <= maxPulseMkSec ==> ticks <= pulseMaxTicks
      ensures minPulseMkSec <= maxPulseMkSec && pulseMaxTicks * minPulseMkSec < 0x1_0000_0000 ==>
                ticks == pulseMaxTicks * minPulseMkSec / maxPulseMkSec
    {
      hide U32;
      ScaleBounds(pulseMaxTicks, minPulseMkSec, maxPulseMkSec);
      Truncated(U32(pulseMaxTicks * minPulseMkSec) / maxPulseMkSec)
    }

    method StopAll()
      requires Valid()
      modifies positionCache
      ensures Valid() && forall i :: 0 <= i < positionCache.Length ==> positionCache[i] == 0
      ensures Current() == After(old(Current()), Event.StopAll)
    {
      for i := 0 to position.Length
        invariant forall k :: 0 <= k < i ==> positionCache[k] == 0
        invariant forall k :: 0 <= k < position.Length ==> positionCache[k] <= timer.maxValue
      {
        positionCache[i] := 0;
      }
      assert positionCache[..] == seq(positionCache.Length, _ => 0);
    }

    /**
     * Scale a position to ticks, in 32-bit arithmetic. When the shortest pulse is not above the longest, the result is
     * in the pulse range, and the upper end is met exactly when its product fits 32 bits.
     */
    function PositionToTimer(pos: int): (ticks: u32)
      requires Valid() && positionMin <= pos <= positionMax
      reads this, position, positionCache
      ensures pulseMinTicks <= pulseMaxTicks ==> pulseMinTicks <= ticks <= pulseMaxTicks
      ensures pos == positionMin ==> ticks == pulseMinTicks
      ensures pos == positionMax && pulseMinTicks <= pulseMaxTicks ==>
                (ticks == pulseMaxTicks <==>
                 (pulseMaxTicks - pulseMinTicks) * (positionMax - positionMin) < 0x1_0000_0000)
    {
      hide U32;
      ScaleBounds(pulseMaxTicks - pulseMinTicks, pos - positionMin, positionMax - positionMin);
      U32(pulseMinTicks + U32((pulseMaxTicks - pulseMinTicks) * (pos - positionMin)) / (positionMax - positionMin))
    }

    /**
     * When the shortest pulse is not above the longest, a position's pulse is longer than the shortest by its exact
     * share of the range, rounded down, as far as the product fits 32 bits. In all other cases excess and product are
     * taken modulo 2^32.
     */
    lemma PositionShare(pos: int)
      requires Valid() && positionMin <= pos <= positionMax
      ensures var ticks := PositionToTimer(pos);
              pulseMinTicks <= pulseMaxTicks &&
              (pulseMaxTicks - pulseMinTicks) * (pos - positionMin) < 0x1_0000_0000 ==>
                (ticks - pulseMinTicks) * (positionMax - positionMin)
                <= (pulseMaxTicks - pulseMinTicks) * (pos - positionMin)
                < (ticks - pulseMinTicks + 1) * (positionMax - positionMin)
      ensures var share := U32(PositionToTimer(pos) - pulseMinTicks);
              share * (positionMax - positionMin)
              <= U32((pulseMaxTicks - pulseMinTicks) * (pos - positionMin))
              < (share + 1) * (positionMax - positionMin)
    {
      hide U32;
      ScaleBounds(pulseMaxTicks - pulseMinTicks, pos - positionMin, positionMax - positionMin);
      ScaleExact(pulseMaxTicks - pulseMinTicks, pos - positionMin, positionMax - positionMin);
      WrapBack(pulseMinTicks, U32((pulseMaxTicks - pulseMinTicks) * (pos - positionMin)), positionMax - positionMin);
    }

    /** Positions further along give pulses at least as long, as far as the product fits 32 bits. */
    lemma PositionsOrdered(a: int, b: int)
      requires Valid() && positionMin <= a <= b <= positionMax && pulseMinTicks <= pulseMaxTicks
      requires (pulseMaxTicks - pulseMinTicks) * (b - positionMin) < 0x1_0000_0000
      ensures PositionToTimer(a) <= PositionToTimer(b)
    {
      PositionShare(a);
      PositionShare(b);
      ShareOrdered(pulseMaxTicks - pulseMinTicks, positionMax - positionMin, a - positionMin, b - positionMin,
        PositionToTimer(a) - pulseMinTicks, PositionToTimer(b) - pulseMinTicks);
    }

    /** Sets a channel's position for the next frame. A negative channel makes the code write before the array. */
    method SetPosition(n: int, value: int) returns (defined: bool)
      requires Valid()
      modifies positionCache
      ensures defined <==> n >= 0
      ensures defined ==> Valid()
      ensures forall i :: 0 <= i < positionCache.Length && i != n ==> positionCache[i] == old(positionCache[i])
      ensures defined ==>
                var clamped :=
                  if value < positionMin then positionMin else if value > positionMax then positionMax else value;
                var ticks := PositionToTimer(clamped);
                && (pulseMinTicks <= pulseMaxTicks ==> Truncated(ticks) == ticks)
                && (n < positionCache.Length ==> positionCache[n] == Truncated(ticks))
                && Current() == After(old(Current()), Set(n, Truncated(ticks)))
    {
      defined := n >= 0;
      if !defined {
        return;
      }
      if n < position.Length {
        var v := value;
        if v < positionMin {
          v := positionMin;
        }
        if v > positionMax {
          v := positionMax;
        }
        positionCache[n] := Truncated(PositionToTimer(v));
      }
    }

    method Stop(n: int) returns (defined: bool)
      requires Valid()
      modifies positionCache
      ensures defined <==> n >= 0
      ensures defined ==> Valid() && Current() == After(old(Current()), Set(n, 0))
      ensures forall i :: 0 <= i < positionCache.Length ==>
                positionCache[i] == if i == n then 0 else old(positionCache[i])
    {
      defined := n >= 0;
      if !defined {
        return;
      }
      if n < position.Length {
        positionCache[n] := 0;
      }
    }

    method SyncCache()
      requires Valid()
      modifies position
      ensures Valid()
      ensures position[..] == positionCache[..] && positionCache[..] == old(positionCache[..])
    {
      for i := 0 to position.Length
        invariant forall k :: 0 <= k < i ==> position[k] == positionCache[k]
        invariant forall k :: 0 <= k < position.Length ==> position[k] <= timer.maxValue
      {
        position[i] := positionCache[i];
      }
    }

    /** The scan of the handler: the channels still ahead, as a port word, and the nearest position. */
    method Scan() returns (portValue: bv32, next: nat)
      requires Valid()
      ensures Drives(portValue, position[..], phase)
      ensures portValue != 0 <==> Active(position[..], phase)
      ensures portValue != 0 ==> IsNext(position[..], phase, next) && next <= timer.maxValue
    {
      hide Bit, One, With, Twice, PortSoFar, Drives;
      portValue := 0;
      next := timer.maxValue;
      var mask := One(0);
      NoPort(position[..], phase);
      for i := 0 to position.Length
        invariant i < 32 ==> mask == One(i)
        invariant PortSoFar(portValue, position[..], phase, i)
        invariant Nearest(position[..i], phase, timer.maxValue, next, portValue != 0)
      {
        var pos := position[i];
        ExtendPort(portValue, position[..], phase, i);
        ExtendNearest(position[..i], phase, timer.maxValue, next, portValue != 0, pos);
        assert position[..i + 1] == position[..i] + [pos];
        if pos > phase {
          if pos < next {
            next := pos;
          }
          portValue := With(portValue, mask);
        }
        mask := Twice(mask);
        if i < 31 {
          OneTwice(i);
        }
      }
      PortDone(portValue, position[..], phase);
      assert position[..position.Length] == position[..];
    }

    /** `TimerHandler`: the port word and the timer setting; the pause selects its own clock divider. */
    method TimerHandler() returns (portValue: bv32, ticks: nat, divider: nat)
      requires Valid()
      modifies this`phase, position
      ensures Valid()
      ensures var (s, slice) := Handle(old(Current()));
              var setting := Timed(slice, old(Current()).timing);
              Current() == s && ticks == setting.ticks && divider == setting.divider &&
              |slice.high| <= 32 && forall i: nat :: i < |slice.high| ==> Bit(portValue, i) == slice.high[i]
      ensures position.Length <= 32
      ensures forall i :: 0 <= i < position.Length ==> Bit(portValue, i) == old(position[i] > phase)
      ensures portValue != 0 <==> exists i :: 0 <= i < position.Length && old(position[i] > phase)
      ensures portValue != 0 ==>
                && divider == pulseDivider && ticks == phase - old(phase) && position[..] == old(position[..])
                && phase > old(phase) && phase in old(position[..])
                && forall i :: 0 <= i < position.Length && position[i] > old(phase) ==> phase <= position[i]
      ensures portValue == 0 ==>
                && divider == pauseDivider && ticks == pauseTicks && position[..] == positionCache[..] && phase == 0
    {
      hide Bit;
      var next;
      portValue, next := Scan();
      if portValue != 0 {
        NextUnique(position[..], phase, next, Next(position[..], phase));
        ticks := next - phase;
        divider := pulseDivider;
      } else {
        next := 0;
        ticks := pauseTicks;
        divider := pauseDivider;
        SyncCache();
      }
      phase := next;
    }
  }

  /** The port word after the first `n` channels. */
  ghost predicate PortSoFar(port: bv32, position: seq<nat>, phase: nat, n: nat)
  {
    n <= |position| <= 32 && forall k: nat :: k < 32 ==> Bit(port, k) == (k < n && position[k] > phase)
  }

  /** The scan's candidate: the smallest position above `phase`, or the timer's limit when there is none. */
  ghost predicate Nearest(position: seq<nat>, phase: nat, limit: nat, next: nat, found: bool)
  {
    && found == Active(position, phase) && next <= limit
    && if found then IsNext(position, phase, next) else next == limit
  }

  lemma ExtendNearest(position: seq<nat>, phase: nat, limit: nat, next: nat, found: bool, pos: nat)
    requires Nearest(position, phase, limit, next, found) && pos <= limit
    ensures Nearest(position + [pos], phase, limit, if phase < pos < next then pos else next, found || pos > phase)
  {
    var all := position + [pos];
    assert all[|position|] == pos;
    assert forall i :: 0 <= i < |position| ==> all[i] == position[i];
  }

  lemma NoPort(position: seq<nat>, phase: nat)
    requires |position| <= 32
    ensures PortSoFar(0, position, phase, 0)
  {
    forall k: nat | k < 32
      ensures !Bit(0, k)
    {
      ZeroBits(k);
    }
  }

  lemma ExtendPort(port: bv32, position: seq<nat>, phase: nat, i: nat)
    requires PortSoFar(port, position, phase, i) && i < |position|
    ensures position[i] > phase ==> PortSoFar(With(port, One(i)), position, phase, i + 1) && With(port, One(i)) != 0
    ensures position[i] <= phase ==> PortSoFar(port, position, phase, i + 1)
  {
    hide Bit, One, With;
    if position[i] > phase {
      var port' := With(port, One(i));
      forall k: nat | k < 32
        ensures Bit(port', k) == (k < i + 1 && position[k] > phase)
      {
        SetBit(port, i, k);
      }
      NonZero(port', i);
    }
  }

  lemma PortDone(port: bv32, position: seq<nat>, phase: nat)
    requires PortSoFar(port, position, phase, |position|)
    ensures Drives(port, position, phase)
  {
  }

  /** A product in 32 bits, divided again: never too large, and exact at the end when the product fits. */
  lemma ScaleBounds(range: int, x: nat, n: nat)
    requires 0 < n
    ensures 0 <= U32(range * x) / n
    ensures x == 0 ==> U32(range * x) / n == 0
    ensures 0 <= range && x <= n ==> U32(range * x) / n <= range
    ensures 0 <= range && x == n ==> (U32(range * x) / n == range <==> range * n < 0x1_0000_0000)
    ensures 0 <= range && range * x < 0x1_0000_0000 ==> U32(range * x) == range * x
  {
    hide U32;
    var r := U32(range * x);
    QuotientBelow(0, r, n);
    if x == 0 {
      QuotientBelow(1, r, n);
    }
    if 0 <= range {
      MulOrder(range, 0, x);
      WrapBelow(range * x);
      if x <= n {
        MulOrder(range, x, n);
        QuotientBelow(range, r, n);
        QuotientBelow(range + 1, r, n);
        assert (range + 1) * n == range * n + n;
      }
    }
  }

  lemma ScaleExact(range: int, x: nat, n: nat)
    requires 0 < n
    ensures var q := U32(range * x) / n;
            q * n <= U32(range * x) < (q + 1) * n
    ensures 0 <= range && range * x < 0x1_0000_0000 ==> U32(range * x) == range * x
  {
    hide U32;
    var r := U32(range * x);
    QuotientBelow(r / n, r, n);
    QuotientBelow(r / n + 1, r, n);
    if 0 <= range {
      MulOrder(range, 0, x);
    }
  }

  lemma WrapBack(x: u32, r: u32, n: nat)
    requires 0 < n
    ensures 0 <= r / n <= r && U32(U32(x + r / n) - x) == r / n
  {
    QuotientBelow(0, r, n);
    QuotientBelow(r + 1, r, n);
    MulOrder(r + 1, 1, n);
    WrapSum(x, r / n);
  }

  lemma WrapSum(x: u32, q: u32)
    ensures U32(U32(x + q) - x) == q
  {
  }

  lemma ShareOrdered(range: nat, n: nat, a: nat, b: nat, x: nat, y: nat)
    requires a <= b && 0 < n && range * b < 0x1_0000_0000
    requires range * a < 0x1_0000_0000 ==> x * n <= range * a
    requires range * b < (y + 1) * n
    ensures x <= y
  {
    MulOrder(range, a, b);
    if x >= y + 1 {
      MulOrder(n, y + 1, x);
    }
  }

  lemma Congruent(x: nat, n: nat)
    requires n > 0
    ensures (x - M.Slot(x, n)) % n == 0
  {
    M.ModDef(x, n);
    M.ModUnique(x - M.Slot(x, n), n, x / n, 0);
  }

  lemma Small(x: nat, n: nat)
    requires n > 0
    ensures x < n ==> M.Slot(x, n) == x
  {
    if x < n {
      M.SlotSmall(x, n);
    }
  }

  lemma WrapBelow(z: nat)
    ensures U32(z) <= z && (U32(z) == z <==> z < 0x1_0000_0000)
  {
  }
}
