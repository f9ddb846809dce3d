/** `RingBufferPO2` between one producer and one consumer that interleave at every access to shared memory
    (mcucpp/ring_buffer.h). The source does not fix whether `push_back` stores the value or steps the counter first. */
module RingMachinePO2 {
  import opened MachineInts
  import opened Modular
  import RingMachine
  import R = RingBuffer

  /** Where `push_back` stands: before the test for a full buffer, or about to make its first or its second access. */
  datatype Producer<T> = Idle | First(item: T) | Second(item: T)

  /** Where the consumer stands: before `empty()`, or about to read `front()`, to test in `pop_front`, or to step the
      counter. */
  datatype Consumer = Waiting | Read | Test | Step

  /** Shared memory and the two program counters, with the values pushed and read so far. */
  datatype State<T> = State(data: seq<T>, writeCount: nat, readCount: nat,
                            producer: Producer<T>, consumer: Consumer, pushed: seq<T>, consumed: seq<T>)

  function Init<T>(data: seq<T>): State<T>
  {
    State(data, 0, 0, Idle, Waiting, [], [])
  }

  predicate Sizes(n: nat, m: nat) { 0 < n < m }

  /** `full()`: the wrapped difference of the counters has a bit above the mask. */
  predicate Full(n: nat, m: nat, writeCount: nat, readCount: nat)
    requires Sizes(n, m)
  {
    var difference := Slot(writeCount - readCount, m);
    difference - Slot(difference, n) != 0
  }

  function Stored<T>(n: nat, m: nat, s: State<T>, counter: int, item: T): (s': State<T>)
    requires Sizes(n, m) && |s.data| == n
    ensures |s'.data| == n
  {
    s.(data := s.data[Slot(counter, n) := item])
  }

  function Stepped<T>(n: nat, m: nat, s: State<T>, item: T): (s': State<T>)
    requires Sizes(n, m) && |s.data| == n
    ensures |s'.data| == n
  {
    s.(writeCount := Slot(s.writeCount + 1, m), pushed := s.pushed + [item])
  }

  /** One access of the producer, for `n` slots and counters of `m` values. With `early` the counter is stepped before
      the value is stored at its old slot. */
  function Produce<T>(n: nat, m: nat, early: bool, s: State<T>, item: T): (s': State<T>)
    requires Sizes(n, m) && |s.data| == n
    ensures |s'.data| == n
  {
    match s.producer
    case Idle => if Full(n, m, s.writeCount, s.readCount) then s else s.(producer := First(item))
    case First(x) =>
      (if early then Stepped(n, m, s, x) else Stored(n, m, s, s.writeCount, x)).(producer := Second(x))
    case Second(x) =>
      (if early then Stored(n, m, s, s.writeCount - 1, x) else Stepped(n, m, s, x)).(producer := Idle)
  }

  /** One access of the consumer. */
  function Consume<T>(n: nat, m: nat, s: State<T>): (s': State<T>)
    requires Sizes(n, m) && |s.data| == n
    ensures |s'.data| == n
  {
    match s.consumer
    case Waiting => if s.writeCount == s.readCount then s else s.(consumer := Read)
    case Read => s.(consumed := s.consumed + [s.data[Slot(s.readCount, n)]], consumer := Test)
    case Test => s.(consumer := if s.writeCount == s.readCount then Waiting else Step)
    case Step => s.(readCount := Slot(s.readCount + 1, m), consumer := Waiting)
  }

  /** Number of values already popped. */
  function Popped<T>(s: State<T>): int
  {
    if s.consumer == Test || s.consumer == Step then |s.consumed| - 1 else |s.consumed|
  }

  /** The invariant when values are stored first: wrapped counters, histories and slots agree. */
  ghost predicate Inv<T>(n: nat, c: nat, s: State<T>)
  {
    var w, r := |s.pushed|, Popped(s);
    && n > 0 && c >= 2 && Sizes(n, n * c) && |s.data| == n
    && 0 <= r <= w <= r + n
    && (s.producer != Idle ==> w < r + n)
    && (s.consumer != Waiting ==> r < w)
    && s.consumed <= s.pushed
    && s.writeCount == Slot(w, n * c) && s.readCount == Slot(r, n * c)
    && (forall k :: r <= k < w ==> s.data[Slot(k, n)] == s.pushed[k])
    && (s.producer.Second? ==> s.data[Slot(w, n)] == s.producer.item)
  }

  lemma WideEnough(n: nat, c: nat)
    requires n > 0 && c >= 2
    ensures Sizes(n, n * c)
  {
    MulOrder(n, 2, c);
  }

  lemma InitInv<T>(n: nat, c: nat, data: seq<T>)
    requires n > 0 && c >= 2 && |data| == n
    ensures Inv(n, c, Init(data))
  {
    WideEnough(n, c);
    SlotSmall(0, n * c);
  }

  /** The test for a full buffer is right although the counters wrap. */
  lemma FullIsExact(n: nat, m: nat, w: int, r: int)
    requires Sizes(n, m) && 0 <= w - r <= n
    ensures Full(n, m, Slot(w, m), Slot(r, m)) <==> w - r == n
  {
    hide Slot;
    R.SlotDifference(w, r, m);
    R.AboveMask(w - r, n);
  }

  /** So is the test for an empty one. */
  lemma EmptyIsExact(n: nat, m: nat, w: int, r: int)
    requires Sizes(n, m) && 0 <= w - r <= n
    ensures Slot(w, m) == Slot(r, m) <==> w == r
  {
    hide Slot;
    if r < w {
      SlotsDistinct(r, w, m);
    }
  }

  /** Masking a wrapped counter gives the slot. */
  lemma MaskIsExact(n: nat, c: nat, k: int)
    requires n > 0 && c >= 2
    ensures n * c > 0 && Slot(Slot(k, n * c), n) == Slot(k, n)
  {
    WideEnough(n, c);
    R.SlotOfSlot(k, n, c);
  }

  lemma StepIsExact(m: nat, k: int)
    requires m > 0
    ensures Slot(Slot(k, m) + 1, m) == Slot(k + 1, m)
  {
    SlotShift(k, 1, m);
  }

  /** The slot the producer is about to fill holds no unread value. */
  lemma NoOverwrite<T>(n: nat, c: nat, s: State<T>, k: int)
    requires Inv(n, c, s) && s.producer.First? && Popped(s) <= k < |s.pushed|
    ensures Slot(s.writeCount, n) != Slot(k, n)
  {
    hide Slot;
    MaskIsExact(n, c, |s.pushed|);
    SlotsDistinct(k, |s.pushed|, n);
  }

  lemma ProduceKeepsInv<T>(n: nat, c: nat, s: State<T>, item: T)
    requires Inv(n, c, s)
    ensures Inv(n, c, Produce(n, n * c, false, s, item))
  {
    hide Slot, Full;
    var w, r := |s.pushed|, Popped(s);
    var s' := Produce(n, n * c, false, s, item);
    match s.producer
    case Idle =>
      FullIsExact(n, n * c, w, r);
    case First(x) =>
      MaskIsExact(n, c, w);
      forall k | r <= k < w
        ensures s'.data[Slot(k, n)] == s'.pushed[k]
      {
        NoOverwrite(n, c, s, k);
      }
    case Second(x) =>
      StepIsExact(n * c, w);
  }

  lemma ConsumeKeepsInv<T>(n: nat, c: nat, s: State<T>)
    requires Inv(n, c, s)
    ensures Inv(n, c, Consume(n, n * c, s))
  {
    hide Slot;
    var w, r := |s.pushed|, Popped(s);
    EmptyIsExact(n, n * c, w, r);
    MaskIsExact(n, c, r);
    StepIsExact(n * c, r);
  }

  /** A schedule: which side makes the next access. */
  datatype Turn<T> = Push(item: T) | Pop

  function Run<T>(n: nat, m: nat, early: bool, s: State<T>, schedule: seq<Turn<T>>): (s': State<T>)
    requires Sizes(n, m) && |s.data| == n
    ensures |s'.data| == n
    decreases |schedule|
  {
    if schedule == [] then s
    else
      var s' := match schedule[0] case Push(item) => Produce(n, m, early, s, item) case Pop => Consume(n, m, s);
      Run(n, m, early, s', schedule[1..])
  }

  lemma {:induction false} RunKeepsInv<T>(n: nat, c: nat, s: State<T>, schedule: seq<Turn<T>>)
    requires Inv(n, c, s)
    ensures Inv(n, c, Run(n, n * c, false, s, schedule))
    decreases |schedule|
  {
    hide Slot, Produce, Consume;
    if schedule == [] {
    } else {
      match schedule[0]
      case Push(item) =>
        ProduceKeepsInv(n, c, s, item);
        RunKeepsInv(n, c, Produce(n, n * c, false, s, item), schedule[1..]);
      case Pop =>
        ConsumeKeepsInv(n, c, s);
        RunKeepsInv(n, c, Consume(n, n * c, s), schedule[1..]);
    }
  }

  /** For every power of two and its counter type, when values are stored before the counter is stepped: in every
      interleaving what was read is a prefix of what was pushed, and no store hits an unread value. */
  lemma FirstInFirstOut<T>(k: nat, data: seq<T>, schedule: seq<Turn<T>>)
    requires k <= 31 && |data| == Pow2(k)
    ensures var n, m := Pow2(k), RingMachine.SizeTypeValues(Pow2(k));
            && Sizes(n, m)
            && var s := Run(n, m, false, Init(data), schedule);
               && s.consumed <= s.pushed && |s.pushed| <= |s.consumed| + n
               && (s.producer.First? ==>
                     forall j :: Popped(s) <= j < |s.pushed| ==> Slot(s.writeCount, n) != Slot(j, n))
               && (s.consumer == Read ==>
                     |s.consumed| < |s.pushed| && s.data[Slot(s.readCount, n)] == s.pushed[|s.consumed|])
  {
    hide Slot, Run;
    R.CounterTypeIsWide(k);
    var n := Pow2(k);
    var c: int :| c >= 2 && n * c == RingMachine.SizeTypeValues(n);
    InitInv(n, c, data);
    RunKeepsInv(n, c, Init(data), schedule);
    var s := Run(n, n * c, false, Init(data), schedule);
    MaskIsExact(n, c, Popped(s));
    if s.producer.First? {
      forall j | Popped(s) <= j < |s.pushed|
        ensures Slot(s.writeCount, n) != Slot(j, n)
      {
        NoOverwrite(n, c, s, j);
      }
    }
  }

  function Pushes<T>(schedule: seq<Turn<T>>): nat
  {
    if schedule == [] then 0 else (if schedule[0].Push? then 1 else 0) + Pushes(schedule[1..])
  }

  function Pops<T>(schedule: seq<Turn<T>>): nat
  {
    if schedule == [] then 0 else (if schedule[0].Pop? then 1 else 0) + Pops(schedule[1..])
  }

  /** Accesses that a `push_back` in progress has yet to make. */
  function PushLeft<T>(producer: Producer<T>): nat
  {
    match producer
    case Idle => 0
    case First(_) => 2
    case Second(_) => 1
  }

  /** Accesses that a pop in progress has yet to make. */
  function PopLeft(consumer: Consumer): nat
  {
    match consumer
    case Waiting => 0
    case Read => 3
    case Test => 2
    case Step => 1
  }

  /** A `push_back` in progress completes with its remaining accesses, however the consumer interleaves. */
  lemma {:induction false} PushFinishes<T>(n: nat, c: nat, s: State<T>, schedule: seq<Turn<T>>)
    requires Inv(n, c, s) && Pushes(schedule) == PushLeft(s.producer)
    ensures var s' := Run(n, n * c, false, s, schedule);
            && s'.producer == Idle
            && s'.pushed == s.pushed + (if s.producer == Idle then [] else [s.producer.item])
    decreases |schedule|
  {
    hide Slot, Full, Pops;
    if schedule != [] {
      match schedule[0]
      case Push(item) =>
        ProduceKeepsInv(n, c, s, item);
        PushFinishes(n, c, Produce(n, n * c, false, s, item), schedule[1..]);
      case Pop =>
        ConsumeKeepsInv(n, c, s);
        PushFinishes(n, c, Consume(n, n * c, s), schedule[1..]);
    }
  }

  /** A `push_back` that starts when there is room completes and appends its value, however the consumer
      interleaves; one that starts on a full buffer changes nothing. */
  lemma PushCompletes<T>(n: nat, c: nat, s: State<T>, item: T, schedule: seq<Turn<T>>)
    requires Inv(n, c, s) && s.producer == Idle
    ensures |s.pushed| - Popped(s) == n ==> Produce(n, n * c, false, s, item) == s
    ensures |s.pushed| - Popped(s) < n && Pushes(schedule) == 2 ==>
              var s' := Run(n, n * c, false, s, [Push(item)] + schedule);
              s'.producer == Idle && s'.pushed == s.pushed + [item]
  {
    hide Slot, Full;
    FullIsExact(n, n * c, |s.pushed|, Popped(s));
    if |s.pushed| - Popped(s) < n && Pushes(schedule) == 2 {
      ProduceKeepsInv(n, c, s, item);
      PushFinishes(n, c, Produce(n, n * c, false, s, item), schedule);
      assert ([Push(item)] + schedule)[1..] == schedule;
    }
  }

  lemma {:induction false} PopFinishes<T>(n: nat, c: nat, s: State<T>, schedule: seq<Turn<T>>)
    requires Inv(n, c, s) && Pops(schedule) == PopLeft(s.consumer)
    ensures var s' := Run(n, n * c, false, s, schedule);
            && s'.consumer == Waiting && |s'.consumed| == |s.consumed| + (if s.consumer == Read then 1 else 0)
            && s.pushed <= s'.pushed && s.consumed <= s'.consumed <= s'.pushed
    decreases |schedule|
  {
    hide Slot, Full, Pushes;
    if schedule != [] {
      match schedule[0]
      case Push(item) =>
        ProduceKeepsInv(n, c, s, item);
        PopFinishes(n, c, Produce(n, n * c, false, s, item), schedule[1..]);
      case Pop =>
        EmptyIsExact(n, n * c, |s.pushed|, Popped(s));
        ConsumeKeepsInv(n, c, s);
        PopFinishes(n, c, Consume(n, n * c, s), schedule[1..]);
    }
  }

  /** A pop that starts on a non-empty buffer completes and delivers the oldest unread value, however the producer
      interleaves; one that starts on an empty buffer changes nothing. */
  lemma PopCompletes<T>(n: nat, c: nat, s: State<T>, schedule: seq<Turn<T>>)
    requires Inv(n, c, s) && s.consumer == Waiting
    ensures s.pushed == s.consumed ==> Consume(n, n * c, s) == s
    ensures s.pushed != s.consumed && Pops(schedule) == 3 ==>
              var s' := Run(n, n * c, false, s, [Pop] + schedule);
              && |s.consumed| < |s.pushed|
              && s'.consumer == Waiting && s'.consumed == s.consumed + [s.pushed[|s.consumed|]]
  {
    hide Slot;
    EmptyIsExact(n, n * c, |s.pushed|, Popped(s));
    if s.pushed != s.consumed && Pops(schedule) == 3 {
      ConsumeKeepsInv(n, c, s);
      PopFinishes(n, c, Consume(n, n * c, s), schedule);
      assert ([Pop] + schedule)[1..] == schedule;
    }
  }

  /** When the counter is stepped first, a consumer between the two accesses reads what the slot held before. */
  lemma EarlyStepFails<T>(data: seq<T>, item: T)
    requires |data| == 4
    ensures Sizes(4, 0x100)
    ensures var s := Run(4, 0x100, true, Init(data), [Push(item), Push(item), Pop, Pop]);
            s.pushed == [item] && s.consumed == [data[0]]
    ensures Run(4, 0x100, true, Init(data), [Push(item), Push(item), Pop, Pop, Push(item)]).data == data[0 := item]
  {
    hide Slot;
    SlotSmall(0, 0x100);
    SlotSmall(1, 0x100);
    SlotSmall(0, 4);
    var s := Init(data);
    var s1 := Produce(4, 0x100, true, s, item);
    var s2 := Produce(4, 0x100, true, s1, item);
    var s3 := Consume(4, 0x100, s2);
    var s4 := Consume(4, 0x100, s3);
    assert s1.producer == First(item);
    assert s2.writeCount == 1 && s2.pushed == [item];
    assert s3.consumer == Read;
    assert s4.consumed == [data[0]];
    RunTwice(4, 0x100, true, s, [Push(item), Push(item), Pop, Pop]);
    RunTwice(4, 0x100, true, s2, [Pop, Pop]);
    RunTwice(4, 0x100, true, s, [Push(item), Push(item), Pop, Pop, Push(item)]);
    RunTwice(4, 0x100, true, s2, [Pop, Pop, Push(item)]);
  }

  lemma RunTwice<T>(n: nat, m: nat, early: bool, s: State<T>, schedule: seq<Turn<T>>)
    requires Sizes(n, m) && |s.data| == n && |schedule| >= 2
    ensures var s1 := Run(n, m, early, s, [schedule[0]]);
            Run(n, m, early, s, schedule) == Run(n, m, early, Run(n, m, early, s1, [schedule[1]]), schedule[2..])
  {
    hide Produce, Consume;
    assert schedule[1..][1..] == schedule[2..];
    assert [schedule[0]][1..] == [] && [schedule[1]][1..] == [];
  }
}
