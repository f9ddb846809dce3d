/** `BufferedOutput`: a writer and the transmit interrupt that share a ring buffer (mcucpp/buffered_output.h). */
module BufferedOutput {
  import opened Modular
  import opened RingMachine

  type byte = bv8

  /** Where `Write(c)` stands: not running, about to enable the interrupt, about to test `WriteReady`, about to
      write to the device, or in the push loop (whose own position is the ring's producer). */
  datatype Writer = Done | Enable(c: byte) | TestReady(c: byte) | Direct(c: byte) | Buffer(c: byte)

  /** The writer, the ring, and the device: interrupt enable, a one-byte register and the wire behind it.
      `calls` lists the arguments of all calls of `Write`. */
  datatype System = System(writer: Writer, ring: RingMachine.State<byte>, enabled: bool, ready: bool, register: byte,
                         wire: seq<byte>, calls: seq<byte>)

  datatype Event = Start(c: byte) | WriterStep | Interrupt | Transmit

  function Init(data: seq<byte>, register: byte): System
  {
    System(Done, RingMachine.Init(data), false, true, register, [], [])
  }

  /** The interrupt is taken as soon as it is enabled and the register is empty: then nothing else of the program
      runs. While it is enabled the handler may also be called for nothing. The device transmits whenever its register
      is full. */
  predicate Possible(s: System, e: Event)
  {
    match e
    case Start(_) => s.writer == Done && !(s.enabled && s.ready)
    case WriterStep => s.writer != Done && !(s.enabled && s.ready)
    case Interrupt => s.enabled
    case Transmit => !s.ready
  }

  /** The consumer's six accesses in a row: the handler is not interrupted by the writer. */
  function Pop(size: nat, ring: RingMachine.State<byte>): (r: RingMachine.State<byte>)
    requires |ring.data| == size
    ensures |r.data| == size
  {
    Consume(size, Consume(size, Consume(size, Consume(size, Consume(size, Consume(size, ring))))))
  }

  /** `TxInterruptHandler`. */
  function Handler(size: nat, s: System): (s': System)
    requires |s.ring.data| == size
    ensures |s'.ring.data| == size
  {
    if !s.ready then s
    else if s.ring.count == 0 then s.(enabled := false)
    else
      var ring := Pop(size, s.ring);
      if ring.consumed == [] then s
      else s.(ring := ring, register := ring.consumed[|ring.consumed| - 1], ready := false)
  }

  /** One access of `Write`. */
  function Advance(size: nat, s: System): (s': System)
    requires |s.ring.data| == size
    ensures |s'.ring.data| == size
  {
    match s.writer
    case Done => s
    case Enable(c) => s.(enabled := true, writer := TestReady(c))
    case TestReady(c) => s.(writer := if s.ready then Direct(c) else Buffer(c))
    case Direct(c) => s.(register := c, ready := false, writer := Done)
    case Buffer(c) =>
      var ring := Produce(size, s.ring, c);
      s.(ring := ring, writer := if s.ring.producer.Raise? then Done else Buffer(c))
  }

  function Next(size: nat, s: System, e: Event): (s': System)
    requires |s.ring.data| == size
    ensures |s'.ring.data| == size
  {
    match e
    case Start(c) => s.(writer := Enable(c), calls := s.calls + [c])
    case WriterStep => Advance(size, s)
    case Interrupt => Handler(size, s)
    case Transmit => s.(wire := s.wire + [s.register], ready := true)
  }

  /** Bytes on their way: in the register, then in the buffer, then with the writer. */
  function InFlight(s: System): seq<byte>
    requires |s.ring.consumed| <= |s.ring.pushed|
  {
    (if s.ready then [] else [s.register]) + s.ring.pushed[|s.ring.consumed|..] +
    (if s.writer == Done then [] else [s.writer.c])
  }

  ghost predicate Inv(size: nat, s: System)
  {
    && RingMachine.Inv(size, s.ring) && s.ring.consumer == Waiting
    && s.wire + InFlight(s) == s.calls
    && (!s.writer.Buffer? ==> s.ring.producer == Idle)
    && (s.ring.producer != Idle ==> s.ring.producer.item == s.writer.c)
    && (s.writer.TestReady? && !s.enabled ==> s.ring.count == 0)
    && (s.writer.Direct? ==> s.ready && !s.enabled && s.ring.count == 0)
    && (s.writer.Buffer? && s.ring.producer == Idle && !s.enabled ==> s.ring.count == 0)
  }

  /** An uninterrupted pop delivers the oldest unread byte and leaves the producer alone. */
  lemma PopDelivers(size: nat, ring: RingMachine.State<byte>)
    requires RingMachine.Inv(size, ring) && ring.consumer == Waiting && ring.count > 0
    ensures var r := Pop(size, ring);
            && RingMachine.Inv(size, r) && r.consumer == Waiting && r.producer == ring.producer
            && r.pushed == ring.pushed && r.accepted == ring.accepted && |ring.consumed| < |ring.pushed|
            && r.consumed == ring.consumed + [ring.pushed[|ring.consumed|]]
            && r.count == ring.count - 1
  {
    hide Slot, Wrap;
    var r1 := Consume(size, ring);
    ConsumeKeepsInv(size, ring);
    var r2 := Consume(size, r1);
    ConsumeKeepsInv(size, r1);
    var r3 := Consume(size, r2);
    ConsumeKeepsInv(size, r2);
    var r4 := Consume(size, r3);
    ConsumeKeepsInv(size, r3);
    var r5 := Consume(size, r4);
    ConsumeKeepsInv(size, r4);
    ConsumeKeepsInv(size, r5);
    assert r1.first == Slot(|ring.consumed|, size);
  }

  /** What one access of the producer changes. */
  lemma ProduceEffect(size: nat, ring: RingMachine.State<byte>, c: byte)
    requires RingMachine.Inv(size, ring) && ring.consumer == Waiting
    requires ring.producer != Idle ==> ring.producer.item == c
    ensures var r := Produce(size, ring, c);
            && RingMachine.Inv(size, r) && r.consumer == Waiting && r.consumed == ring.consumed
            && (r.producer != Idle ==> r.producer.item == c)
            && (ring.producer.Raise? ==> r.producer == Idle && r.pushed == ring.pushed + [c])
            && (!ring.producer.Raise? ==> r.pushed == ring.pushed && r.count == ring.count)
            && (r.producer == Idle ==> ring.producer.Raise? || r == ring)
  {
    ProduceKeepsInv(size, ring, c);
  }

  /** The count of a ring between consumer operations. */
  lemma CountIsUnread(size: nat, ring: RingMachine.State<byte>)
    requires RingMachine.Inv(size, ring) && ring.consumer == Waiting
    ensures |ring.data| == size && ring.consumed <= ring.pushed && ring.count == |ring.pushed| - |ring.consumed|
  {
  }

  lemma Behind(pushed: seq<byte>, c: byte, n: nat)
    requires n <= |pushed|
    ensures (pushed + [c])[n..] == pushed[n..] + [c]
  {
  }

  /** An access of `push_back` moves the byte from the writer into the buffer, or moves nothing. */
  lemma BufferInFlight(size: nat, s: System)
    requires Inv(size, s) && s.writer.Buffer?
    ensures var s' := Advance(size, s);
            |s'.ring.consumed| <= |s'.ring.pushed| && InFlight(s') == InFlight(s)
  {
    hide RingMachine.Inv, Produce;
    CountIsUnread(size, s.ring);
    ProduceEffect(size, s.ring, s.writer.c);
    if s.ring.producer.Raise? {
      Moved(if s.ready then [] else [s.register], s.ring.pushed, s.writer.c, |s.ring.consumed|);
    }
  }

  lemma Moved(register: seq<byte>, pushed: seq<byte>, c: byte, n: nat)
    requires n <= |pushed|
    ensures register + (pushed + [c])[n..] + [] == register + pushed[n..] + [c]
  {
    Behind(pushed, c, n);
    assert register + (pushed[n..] + [c]) + [] == register + pushed[n..] + [c];
  }

  lemma BufferKeepsInv(size: nat, s: System)
    requires Inv(size, s) && s.writer.Buffer?
    ensures Inv(size, Advance(size, s))
  {
    hide RingMachine.Inv, Produce, InFlight;
    CountIsUnread(size, s.ring);
    ProduceEffect(size, s.ring, s.writer.c);
    BufferInFlight(size, s);
  }

  lemma WriterKeepsInv(size: nat, s: System)
    requires Inv(size, s) && Possible(s, WriterStep)
    ensures Inv(size, Advance(size, s))
  {
    if s.writer.Buffer? {
      BufferKeepsInv(size, s);
    } else {
      hide RingMachine.Inv, Produce;
      CountIsUnread(size, s.ring);
      if s.writer.Direct? {
        assert s.ring.pushed[|s.ring.consumed|..] == [];
      }
      assert InFlight(Advance(size, s)) == InFlight(s);
    }
  }

  lemma HandlerKeepsInv(size: nat, s: System)
    requires Inv(size, s) && Possible(s, Interrupt)
    ensures Inv(size, Handler(size, s))
  {
    hide RingMachine.Inv, Pop;
    CountIsUnread(size, s.ring);
    if s.ring.count > 0 {
      PopDelivers(size, s.ring);
      var ring := Pop(size, s.ring);
      CountIsUnread(size, ring);
      assert s.ring.pushed[|s.ring.consumed|..] == [s.ring.pushed[|s.ring.consumed|]] + ring.pushed[|ring.consumed|..];
    }
    assert InFlight(Handler(size, s)) == InFlight(s);
  }

  lemma NextKeepsInv(size: nat, s: System, e: Event)
    requires Inv(size, s) && Possible(s, e)
    ensures Inv(size, Next(size, s, e))
  {
    hide RingMachine.Inv, Advance, Handler;
    CountIsUnread(size, s.ring);
    var s' := Next(size, s, e);
    match e
    case Start(c) =>
      assert InFlight(s') == InFlight(s) + [c];
    case WriterStep =>
      WriterKeepsInv(size, s);
    case Interrupt =>
      HandlerKeepsInv(size, s);
    case Transmit =>
      assert InFlight(s) == [s.register] + InFlight(s');
  }

  /** A run: the events happen in the given order, those that are impossible when their turn comes do not. */
  function Run(size: nat, s: System, events: seq<Event>): (s': System)
    requires |s.ring.data| == size
    ensures |s'.ring.data| == size
    decreases |events|
  {
    if events == [] then s
    else Run(size, if Possible(s, events[0]) then Next(size, s, events[0]) else s, events[1..])
  }

  lemma {:induction false} RunKeepsInv(size: nat, s: System, events: seq<Event>)
    requires Inv(size, s)
    ensures Inv(size, Run(size, s, events))
    decreases |events|
  {
    if events == [] {
    } else if Possible(s, events[0]) {
      NextKeepsInv(size, s, events[0]);
      RunKeepsInv(size, Next(size, s, events[0]), events[1..]);
    } else {
      RunKeepsInv(size, s, events[1..]);
    }
  }

  /** Bytes reach the wire in the order of the calls, none lost, doubled or overtaken, whatever the timing; no
      write finds the register full; and a writer that waits for room has the interrupt enabled. */
  lemma WireInCallOrder(size: nat, data: seq<byte>, register: byte, events: seq<Event>)
    requires 0 < size < 0x1_0000_0000 && |data| == size
    ensures var s := Run(size, Init(data, register), events);
            && |s.ring.consumed| <= |s.ring.pushed|
            && s.wire + InFlight(s) == s.calls
            && (s.writer.Direct? ==> s.ready)
            && (Waits(size, s) ==> s.enabled)
  {
    InitInv(size, data);
    assert InFlight(Init(data, register)) == [];
    RunKeepsInv(size, Init(data, register), events);
  }

  /** The writer is at the test of the push loop and finds the buffer full. */
  predicate Waits(size: nat, s: System)
  {
    s.writer.Buffer? && s.ring.producer == Idle && s.ring.count == size
  }

  /** A waiting writer is never stuck: the device and the handler alone make room. */
  lemma NoDeadlock(size: nat, s: System)
    requires Inv(size, s) && Waits(size, s)
    ensures var events := if s.ready then [Interrupt] else [Transmit, Interrupt];
            var s' := Run(size, s, events);
            && Possible(s, events[0]) && (|events| == 2 ==> Possible(Next(size, s, Transmit), Interrupt))
            && s'.writer == s.writer && s'.ring.producer == Idle && s'.ring.count == size - 1
            && Advance(size, s').ring.producer == RingMachine.Store(s.writer.c)
  {
    var s1 := if s.ready then s else Next(size, s, Transmit);
    assert s1.enabled && s1.ready && s1.ring == s.ring;
    PopDelivers(size, s1.ring);
    var s2 := Handler(size, s1);
    assert Run(size, s2, []) == s2;
    assert [Transmit, Interrupt][1..] == [Interrupt];
    assert [Interrupt][1..] == [];
    assert Run(size, s1, [Interrupt]) == s2;
  }

  /** Every event is possible when its turn comes. */
  predicate Feasible(size: nat, s: System, events: seq<Event>)
    requires |s.ring.data| == size
    decreases |events|
  {
    events != [] ==> Possible(s, events[0]) && Feasible(size, Next(size, s, events[0]), events[1..])
  }

  /** The event that brings an unfinished `Write` on: a pending interrupt is taken, a writer that waits for room lets
      the device transmit, any other writer steps. */
  function Onward(size: nat, s: System): Event
  {
    if s.enabled && s.ready then Interrupt else if Waits(size, s) then Transmit else WriterStep
  }

  /** How far `Write` is from its end, and then how far the handler is from letting it step. */
  function Distance(size: nat, s: System): nat
  {
    var stage :=
      match s.writer
      case Done => 0
      case Direct(_) => 1
      case TestReady(_) => 7
      case Enable(_) => 8
      case Buffer(_) =>
        match s.ring.producer
        case Raise(_) => 2
        case WrapLast(_) => 3
        case StepLast(_) => 4
        case Store(_) => 5
        case Idle => 6;
    4 * stage + if Waits(size, s) then (if s.ready then 2 else 3) else if s.enabled && s.ready then 1 else 0
  }

  lemma OnwardIsNearer(size: nat, s: System)
    requires Inv(size, s) && s.writer != Done
    ensures |s.ring.data| == size
    ensures var e := Onward(size, s);
            && Possible(s, e) && Next(size, s, e).calls == s.calls
            && Distance(size, Next(size, s, e)) < Distance(size, s)
  {
    hide Pop;
    if s.enabled && s.ready && s.ring.count > 0 {
      hide RingMachine.Inv;
      CountIsUnread(size, s.ring);
      PopDelivers(size, s.ring);
    }
  }

  lemma Prepend(size: nat, s: System, e: Event, rest: seq<Event>)
    requires |s.ring.data| == size && Possible(s, e)
    ensures Run(size, s, [e] + rest) == Run(size, Next(size, s, e), rest)
    ensures Feasible(size, s, [e] + rest) <==> Feasible(size, Next(size, s, e), rest)
  {
    hide Possible, Next;
    assert ([e] + rest)[1..] == rest;
  }

  /** From every state of every `Write` there are events, each possible in its turn and none of them another call,
      after which it is done. */
  lemma {:induction false} WriteCompletes(size: nat, s: System)
    requires Inv(size, s) && s.writer != Done
    ensures |s.ring.data| == size
    ensures exists events: seq<Event> ::
              && Feasible(size, s, events) && (forall e <- events :: !e.Start?)
              && Run(size, s, events).writer == Done && Run(size, s, events).calls == s.calls
    decreases Distance(size, s)
  {
    hide Inv, Distance, Possible, Next;
    OnwardIsNearer(size, s);
    var e := Onward(size, s);
    var s' := Next(size, s, e);
    NextKeepsInv(size, s, e);
    var rest: seq<Event> := [];
    if s'.writer != Done {
      WriteCompletes(size, s');
      rest :|
        && Feasible(size, s', rest) && (forall e <- rest :: !e.Start?)
        && Run(size, s', rest).writer == Done && Run(size, s', rest).calls == s'.calls;
    }
    Prepend(size, s, e, rest);
    assert forall x <- [e] + rest :: x == e || x in rest;
  }

  /** The first `Write` on an idle device: the handler finds the buffer empty and turns itself off, and the byte goes
      through the register to the wire. */
  lemma FirstByte(size: nat, data: seq<byte>, register: byte, c: byte)
    requires 0 < size < 0x1_0000_0000 && |data| == size
    ensures var events := [Start(c), WriterStep, Interrupt, WriterStep, WriterStep, Transmit];
            var s := Run(size, Init(data, register), events);
            && Feasible(size, Init(data, register), events)
            && s.wire == [c] && s.writer == Done && s.ready && !s.enabled
  {
    hide Possible, Next;
    var s := Init(data, register);
    DirectWrite(size, s, c);
    assert s.calls + [c] == [c];
    var s' := s.(register := c, ready := false, calls := [c]);
    Transmitted(size, s');
    Append(size, s, [Start(c), WriterStep, Interrupt, WriterStep, WriterStep], [Transmit]);
    assert [Start(c), WriterStep, Interrupt, WriterStep, WriterStep] + [Transmit]
        == [Start(c), WriterStep, Interrupt, WriterStep, WriterStep, Transmit];
    assert s'.wire + [c] == [c];
    Prepend(size, s', Transmit, []);
    assert [Transmit] + [] == [Transmit];
  }

  lemma Transmitted(size: nat, s: System)
    requires |s.ring.data| == size && !s.ready
    ensures Possible(s, Transmit) && Next(size, s, Transmit) == s.(wire := s.wire + [s.register], ready := true)
  {
  }

  /** Following a run state by state. */
  lemma {:induction false} Along(size: nat, states: seq<System>, events: seq<Event>)
    requires |states| == |events| + 1
    requires forall i :: 0 <= i < |states| ==> |states[i].ring.data| == size
    requires forall i :: 0 <= i < |events| ==>
               Possible(states[i], events[i]) && states[i + 1] == Next(size, states[i], events[i])
    ensures Feasible(size, states[0], events) && Run(size, states[0], events) == states[|events|]
    decreases |events|
  {
    hide Possible, Next;
    if events != [] {
      assert Possible(states[0], events[0]) && states[1] == Next(size, states[0], events[0]);
      Along(size, states[1..], events[1..]);
    }
  }

  /** Only the device and the handler act. */
  predicate Unattended(events: seq<Event>)
  {
    forall e <- events :: e == Interrupt || e == Transmit
  }

  /** After a `Write`, the device and the handler bring everything written to the wire if and only if the interrupt is
      enabled or the buffer is empty. */
  lemma DeliveredExactly(size: nat, s: System)
    requires Inv(size, s) && s.writer == Done
    ensures |s.ring.data| == size
    ensures (exists events :: Unattended(events) && Run(size, s, events).wire == s.calls) <==>
            s.enabled || s.ring.count == 0
  {
    hide Inv;
    InvSize(size, s);
    if s.enabled || s.ring.count == 0 {
      Drains(size, s);
    } else {
      forall events | Unattended(events)
        ensures Run(size, s, events).wire != s.calls
      {
        Stranded(size, s, events);
      }
    }
  }

  lemma InvSize(size: nat, s: System)
    requires Inv(size, s)
    ensures |s.ring.data| == size && s.ring.consumed <= s.ring.pushed && s.wire + InFlight(s) == s.calls
    ensures s.ring.count == |s.ring.pushed| - |s.ring.consumed|
  {
    CountIsUnread(size, s.ring);
  }

  lemma {:induction false} Drains(size: nat, s: System)
    requires Inv(size, s) && s.writer == Done && (s.enabled || s.ring.count == 0)
    ensures |s.ring.data| == size
    ensures exists events :: Unattended(events) && Run(size, s, events).wire == s.calls
    decreases s.ring.count, !s.ready
  {
    hide Inv, Pop;
    InvSize(size, s);
    if s.ready && s.ring.count == 0 {
      assert Unattended([]) && Run(size, s, []) == s;
    } else {
      var e := if s.ready then Interrupt else Transmit;
      NextKeepsInv(size, s, e);
      var s' := Next(size, s, e);
      if s.ready {
        PopStep(size, s);
      }
      Drains(size, s');
      var rest :| Unattended(rest) && Run(size, s', rest).wire == s'.calls;
      Prepend(size, s, e, rest);
      assert Unattended([e] + rest);
    }
  }

  /** The handler with a byte to send. */
  lemma PopStep(size: nat, s: System)
    requires Inv(size, s) && s.ready && s.ring.count > 0
    ensures |s.ring.data| == size
    ensures var s' := Handler(size, s);
            && s'.ring.count == s.ring.count - 1 && !s'.ready && s'.enabled == s.enabled
            && s'.writer == s.writer && s'.calls == s.calls
  {
    PopDelivers(size, s.ring);
  }

  lemma {:induction false} Stranded(size: nat, s: System, events: seq<Event>)
    requires Inv(size, s) && s.writer == Done && !s.enabled && s.ring.count > 0 && Unattended(events)
    ensures |s.ring.data| == size
    ensures Run(size, s, events).wire != s.calls
    decreases |events|
  {
    hide Inv, Pop;
    InvSize(size, s);
    if events == [] {
      assert |InFlight(s)| > 0;
    } else {
      var e, rest := events[0], events[1..];
      assert forall x <- rest :: x in events;
      assert e in events && Unattended(rest);
      if Possible(s, e) {
        NextKeepsInv(size, s, e);
        Stranded(size, Next(size, s, e), rest);
      } else {
        Stranded(size, s, rest);
      }
    }
  }

  lemma {:induction false} Append(size: nat, s: System, events: seq<Event>, more: seq<Event>)
    requires |s.ring.data| == size
    ensures Run(size, s, events + more) == Run(size, Run(size, s, events), more)
    ensures Feasible(size, s, events) && Feasible(size, Run(size, s, events), more) ==>
              Feasible(size, s, events + more)
    decreases |events|
  {
    hide Possible, Next;
    if events == [] {
      assert events + more == more;
    } else {
      assert (events + more)[1..] == events[1..] + more;
      Append(size, if Possible(s, events[0]) then Next(size, s, events[0]) else s, events[1..], more);
    }
  }

  /** A byte can stay behind: when the device falls idle between the test of `Write` and its push, the handler
      turns itself off before the byte is in the buffer. */
  lemma ByteLeftBehind(size: nat, data: seq<byte>, register: byte, b: byte, c: byte)
    requires 0 < size < 0x1_0000_0000 && |data| == size
    ensures var events := [Start(b), WriterStep, Interrupt, WriterStep, WriterStep]
                          + [Start(c), WriterStep, WriterStep, Transmit, Interrupt]
                          + [WriterStep, WriterStep, WriterStep, WriterStep, WriterStep];
            var s := Run(size, Init(data, register), events);
            && Feasible(size, Init(data, register), events)
            && s.writer == Done && s.calls == [b, c] && s.wire == [b] && !s.enabled
            && s.ring.pushed == [c] && s.ring.consumed == []
  {
    hide Possible, Next;
    var s := Init(data, register);
    var first := [Start(b), WriterStep, Interrupt, WriterStep, WriterStep];
    var second := [Start(c), WriterStep, WriterStep, Transmit, Interrupt];
    var third := [WriterStep, WriterStep, WriterStep, WriterStep, WriterStep];
    DirectWrite(size, s, b);
    assert s.calls + [b] == [b];
    var s1 := s.(register := b, ready := false, calls := [b]);
    TurnedOff(size, s1, c);
    assert s1.calls + [c] == [b, c] && s1.wire + [b] == [b];
    var s2 := s1.(writer := Buffer(c), calls := [b, c], wire := [b], ready := true);
    InitInv(size, data);
    Pushed(size, s2);
    PushAppends(size, s2.ring, c);
    Append(size, s, first, second);
    Append(size, s, first + second, third);
  }

  lemma DirectWrite(size: nat, s: System, c: byte)
    requires |s.ring.data| == size && s.writer == Done && !s.enabled && s.ready && s.ring.count == 0
    ensures var events := [Start(c), WriterStep, Interrupt, WriterStep, WriterStep];
            && Feasible(size, s, events)
            && Run(size, s, events) == s.(register := c, ready := false, calls := s.calls + [c])
  {
    var s1 := s.(writer := Enable(c), calls := s.calls + [c]);
    var s2 := s1.(enabled := true, writer := TestReady(c));
    var s3 := s2.(enabled := false);
    var s4 := s3.(writer := Direct(c));
    var s5 := s4.(register := c, ready := false, writer := Done);
    Along(size, [s, s1, s2, s3, s4, s5], [Start(c), WriterStep, Interrupt, WriterStep, WriterStep]);
  }

  lemma TurnedOff(size: nat, s: System, c: byte)
    requires |s.ring.data| == size && s.writer == Done && !s.enabled && !s.ready && s.ring.count == 0
    ensures var events := [Start(c), WriterStep, WriterStep, Transmit, Interrupt];
            && Feasible(size, s, events)
            && Run(size, s, events)
               == s.(writer := Buffer(c), calls := s.calls + [c], wire := s.wire + [s.register], ready := true)
  {
    var s1 := s.(writer := Enable(c), calls := s.calls + [c]);
    var s2 := s1.(enabled := true, writer := TestReady(c));
    var s3 := s2.(writer := Buffer(c));
    var s4 := s3.(wire := s.wire + [s.register], ready := true);
    var s5 := s4.(enabled := false);
    Along(size, [s, s1, s2, s3, s4, s5], [Start(c), WriterStep, WriterStep, Transmit, Interrupt]);
  }

  /** The first `n` accesses of `push_back`, one after another. */
  function Push(size: nat, ring: RingMachine.State<byte>, c: byte, n: nat): (r: RingMachine.State<byte>)
    requires |ring.data| == size
    ensures |r.data| == size
  {
    if n == 0 then ring else Produce(size, Push(size, ring, c, n - 1), c)
  }

  lemma PushAppends(size: nat, ring: RingMachine.State<byte>, c: byte)
    requires RingMachine.Inv(size, ring) && ring.consumer == Waiting && ring.producer == Idle && ring.count < size
    ensures Push(size, ring, c, 1).producer == RingMachine.Store(c)
    ensures Push(size, ring, c, 2).producer == StepLast(c)
    ensures Push(size, ring, c, 3).producer == WrapLast(c)
    ensures Push(size, ring, c, 4).producer == Raise(c)
    ensures var r := Push(size, ring, c, 5);
            && RingMachine.Inv(size, r) && r.consumer == Waiting && r.producer == Idle
            && r.pushed == ring.pushed + [c] && r.consumed == ring.consumed
  {
    hide RingMachine.Inv, Produce;
    CountIsUnread(size, ring);
    assert Push(size, ring, c, 0) == ring;
    ProduceStep(size, ring, c);
    ProduceStep(size, Push(size, ring, c, 1), c);
    ProduceStep(size, Push(size, ring, c, 2), c);
    ProduceStep(size, Push(size, ring, c, 3), c);
    ProduceStep(size, Push(size, ring, c, 4), c);
  }

  lemma ProduceStep(size: nat, ring: RingMachine.State<byte>, c: byte)
    requires RingMachine.Inv(size, ring) && ring.consumer == Waiting
    requires ring.producer != Idle ==> ring.producer.item == c
    ensures var r := Produce(size, ring, c);
            && RingMachine.Inv(size, r) && r.consumer == Waiting && r.consumed == ring.consumed
            && r.pushed == (if ring.producer.Raise? then ring.pushed + [c] else ring.pushed)
            && match ring.producer
               case Idle => ring.count < size ==> r.producer == RingMachine.Store(c)
               case Store(_) => r.producer == StepLast(c)
               case StepLast(_) => r.producer == WrapLast(c)
               case WrapLast(_) => r.producer == Raise(c)
               case Raise(_) => r.producer == Idle
  {
    ProduceKeepsInv(size, ring, c);
  }

  /** The loop of `Write` with room in the buffer and no interrupt pending. */
  lemma Pushed(size: nat, s: System)
    requires RingMachine.Inv(size, s.ring) && s.ring.consumer == Waiting
    requires s.writer.Buffer? && !(s.enabled && s.ready) && s.ring.producer == Idle && s.ring.count < size
    ensures |s.ring.data| == size
    ensures var events := [WriterStep, WriterStep, WriterStep, WriterStep, WriterStep];
            && Feasible(size, s, events)
            && Run(size, s, events) == s.(ring := Push(size, s.ring, s.writer.c, 5), writer := Done)
  {
    hide Possible, Next, RingMachine.Inv, Produce;
    var c := s.writer.c;
    CountIsUnread(size, s.ring);
    PushAppends(size, s.ring, c);
    assert Push(size, s.ring, c, 0) == s.ring;
    var s1 := s.(ring := Push(size, s.ring, c, 1));
    var s2 := s.(ring := Push(size, s.ring, c, 2));
    var s3 := s.(ring := Push(size, s.ring, c, 3));
    var s4 := s.(ring := Push(size, s.ring, c, 4));
    var s5 := s.(ring := Push(size, s.ring, c, 5), writer := Done);
    Accessed(size, s, s1);
    Accessed(size, s1, s2);
    Accessed(size, s2, s3);
    Accessed(size, s3, s4);
    Accessed(size, s4, s5);
    Along(size, [s, s1, s2, s3, s4, s5], [WriterStep, WriterStep, WriterStep, WriterStep, WriterStep]);
  }

  /** `Write` while the device is busy and the buffer has room: undisturbed it ends with the byte in the buffer and the
      interrupt enabled, so that everything written reaches the wire. */
  lemma BufferedWrite(size: nat, s: System, c: byte)
    requires Inv(size, s) && s.writer == Done && !s.ready && s.ring.count < size
    ensures |s.ring.data| == size
    ensures var events := [Start(c), WriterStep, WriterStep]
                          + [WriterStep, WriterStep, WriterStep, WriterStep, WriterStep];
            var s' := Run(size, s, events);
            && Feasible(size, s, events) && s'.writer == Done && s'.enabled
            && s'.ring.pushed == s.ring.pushed + [c] && s'.calls == s.calls + [c]
            && exists more :: Unattended(more) && Run(size, s', more).wire == s.calls + [c]
  {
    hide Inv, Possible, Next, RingMachine.Inv;
    var more := [WriterStep, WriterStep, WriterStep, WriterStep, WriterStep];
    BusyStart(size, s, c);
    var s3 := s.(enabled := true, writer := Buffer(c), calls := s.calls + [c]);
    Pushed(size, s3);
    PushAppends(size, s.ring, c);
    Append(size, s, [Start(c), WriterStep, WriterStep], more);
    RunKeepsInv(size, s, [Start(c), WriterStep, WriterStep] + more);
    DeliveredExactly(size, Run(size, s, [Start(c), WriterStep, WriterStep] + more));
  }

  lemma BusyStart(size: nat, s: System, c: byte)
    requires Inv(size, s) && s.writer == Done && !s.ready
    ensures RingMachine.Inv(size, s.ring) && |s.ring.data| == size
    ensures s.ring.consumer == Waiting && s.ring.producer == Idle
    ensures Feasible(size, s, [Start(c), WriterStep, WriterStep])
    ensures Run(size, s, [Start(c), WriterStep, WriterStep])
         == s.(enabled := true, writer := Buffer(c), calls := s.calls + [c])
  {
    hide RingMachine.Inv;
    CountIsUnread(size, s.ring);
    var s1 := s.(writer := Enable(c), calls := s.calls + [c]);
    var s2 := s1.(enabled := true, writer := TestReady(c));
    var s3 := s2.(writer := Buffer(c));
    Along(size, [s, s1, s2, s3], [Start(c), WriterStep, WriterStep]);
  }

  lemma Accessed(size: nat, s: System, s': System)
    requires |s.ring.data| == size && s.writer.Buffer? && !(s.enabled && s.ready) && s' == Advance(size, s)
    ensures Possible(s, WriterStep) && Next(size, s, WriterStep) == s'
  {
  }
}
