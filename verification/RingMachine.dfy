/** `RingBuffer` between one producer and one consumer that interleave at every access to shared memory
    (mcucpp/ring_buffer.h). */
module RingMachine {
  import opened Modular

  /** Where `push_back` stands: before the test for a full buffer, or about to store, to step `_last`,
      to wrap `_last`, to raise `_count`. */
  datatype Producer<T> = Idle | Store(item: T) | StepLast(item: T) | WrapLast(item: T) | Raise(item: T)

  /** Where the consumer stands: before `empty()`, or about to read `front()`, to test the count in `pop_front`,
      to lower `_count`, to step `_first`, to wrap `_first`. */
  datatype Consumer = Waiting | Read | Test | Lower | StepFirst | WrapFirst

  /** Shared memory and the two program counters, with three histories: values whose `push_back` found room,
      values whose `push_back` is complete, and values read by the consumer. */
  datatype State<T> = State(data: seq<T>, count: nat, first: nat, last: nat,
                            producer: Producer<T>, consumer: Consumer, accepted: seq<T>, pushed: seq<T>,
                                consumed: seq<T>)

  /** Number of values of the smallest `size_type` that holds the capacity. */
  function SizeTypeValues(size: nat): nat
  {
    if size <= 0xFF then 0x100 else if size <= 0xFFFF then 0x1_0000 else 0x1_0000_0000
  }

  /** Conversion to `size_type`. */
  function Wrap(size: nat, x: int): (r: nat)
    ensures size < 0x1_0000_0000 && 0 <= x <= size ==> r == x
  {
    x % SizeTypeValues(size)
  }

  predicate Capacity(size: nat) { 0 < size < 0x1_0000_0000 }

  function Init<T>(data: seq<T>): State<T>
  {
    State(data, 0, 0, 0, Idle, Waiting, [], [], [])
  }

  /** One access of the producer; `item` is the value of the `push_back` that starts when it is idle. */
  function Produce<T>(size: nat, s: State<T>, item: T): (s': State<T>)
    requires |s.data| == size
    ensures |s'.data| == size
  {
    match s.producer
    case Idle => if s.count == size then s else s.(producer := Store(item), accepted := s.accepted + [item])
    case Store(x) => if s.last < size then s.(data := s.data[s.last := x], producer := StepLast(x)) else s
    case StepLast(x) => s.(last := Wrap(size, s.last + 1), producer := WrapLast(x))
    case WrapLast(x) => s.(last := if s.last >= size then 0 else s.last, producer := Raise(x))
    case Raise(x) => s.(count := Wrap(size, s.count + 1), producer := Idle, pushed := s.pushed + [x])
  }

  /** One access of the consumer. */
  function Consume<T>(size: nat, s: State<T>): (s': State<T>)
    requires |s.data| == size
    ensures |s'.data| == size
  {
    match s.consumer
    case Waiting => if s.count == 0 then s else s.(consumer := Read)
    case Read => if s.first < size then s.(consumed := s.consumed + [s.data[s.first]], consumer := Test) else s
    case Test => s.(consumer := if s.count != 0 then Lower else Waiting)
    case Lower => s.(count := Wrap(size, s.count - 1), consumer := StepFirst)
    case StepFirst => s.(first := Wrap(size, s.first + 1), consumer := WrapFirst)
    case WrapFirst => s.(first := if s.first >= size then 0 else s.first, consumer := Waiting)
  }

  /** Number of values already taken off the count. */
  function Taken<T>(s: State<T>): int
  {
    if s.consumer == Test || s.consumer == Lower then |s.consumed| - 1 else |s.consumed|
  }

  /** The invariant: indices and count agree with the histories, up to the program counters. */
  ghost predicate Inv<T>(size: nat, s: State<T>)
  {
    var w, r := |s.pushed|, Taken(s);
    && Capacity(size) && |s.data| == size
    && 0 <= r <= w <= r + size && s.count == w - r
    && (s.producer != Idle ==> w < r + size)
    && (s.consumer == Read || s.consumer == Test || s.consumer == Lower ==> r < w)
    && s.consumed <= s.pushed
    && s.accepted == s.pushed + (if s.producer == Idle then [] else [s.producer.item])
    && LastAt(size, s.last, w, s.producer)
    && FirstAt(size, s.first, r, s.consumer)
    && (forall k :: r <= k < w ==> s.data[Slot(k, size)] == s.pushed[k])
    && (s.producer.StepLast? || s.producer.WrapLast? || s.producer.Raise? ==> s.data[Slot(w, size)] == s.producer.item)
  }

  ghost predicate LastAt<T>(size: nat, last: nat, w: nat, producer: Producer<T>)
    requires size > 0
  {
    last ==
    if producer.WrapLast? then Slot(w, size) + 1
    else if producer.Raise? then Slot(w + 1, size)
    else Slot(w, size)
  }

  ghost predicate FirstAt(size: nat, first: nat, r: int, consumer: Consumer)
    requires size > 0
  {
    if consumer == StepFirst then r >= 1 && first == Slot(r - 1, size)
    else if consumer == WrapFirst then r >= 1 && first == Slot(r - 1, size) + 1
    else first == Slot(r, size)
  }

  lemma InitInv<T>(size: nat, data: seq<T>)
    requires Capacity(size) && |data| == size
    ensures Inv(size, Init(data))
  {
    SlotSmall(0, size);
  }

  /** The slot the producer is about to fill holds no unread value. */
  lemma NoOverwrite<T>(size: nat, s: State<T>, k: int)
    requires Inv(size, s) && s.producer.Store? && Taken(s) <= k < |s.pushed|
    ensures s.last < size && s.last != Slot(k, size)
  {
    SlotsDistinct(k, |s.pushed|, size);
  }

  lemma ProduceKeepsInv<T>(size: nat, s: State<T>, item: T)
    requires Inv(size, s)
    ensures Inv(size, Produce(size, s, item))
  {
    hide Slot, Wrap;
    var w, r := |s.pushed|, Taken(s);
    var s' := Produce(size, s, item);
    SlotNext(w, size);
    if s.producer.Store? {
      forall k | r <= k < w
        ensures s'.data[Slot(k, size)] == s'.pushed[k]
      {
        NoOverwrite(size, s, k);
      }
    }
  }

  lemma ConsumeKeepsInv<T>(size: nat, s: State<T>)
    requires Inv(size, s)
    ensures Inv(size, Consume(size, s))
  {
    hide Slot, Wrap;
    SlotNext(Taken(s) - 1, size);
  }

  /** A schedule: which side makes the next access. */
  datatype Step<T> = Push(item: T) | Pop

  function Run<T>(size: nat, s: State<T>, schedule: seq<Step<T>>): (s': State<T>)
    requires |s.data| == size
    ensures |s'.data| == size
    decreases |schedule|
  {
    if schedule == [] then s
    else
      Run(size, match schedule[0] case Push(item) => Produce(size, s, item) case Pop => Consume(size, s), schedule[1..])
  }

  lemma {:induction false} RunKeepsInv<T>(size: nat, s: State<T>, schedule: seq<Step<T>>)
    requires Inv(size, s)
    ensures Inv(size, Run(size, s, schedule))
    decreases |schedule|
  {
    if schedule == [] {
    } else {
      match schedule[0]
      case Push(item) =>
        ProduceKeepsInv(size, s, item);
        RunKeepsInv(size, Produce(size, s, item), schedule[1..]);
      case Pop =>
        ConsumeKeepsInv(size, s);
        RunKeepsInv(size, Consume(size, s), schedule[1..]);
    }
  }

  /** Every interleaving is first in, first out: what was read is a prefix of what was pushed, what was pushed is
      what found room, every access to the buffer is in range and no store hits an unread value. */
  lemma FirstInFirstOut<T>(size: nat, data: seq<T>, schedule: seq<Step<T>>)
    requires 0 < size < 0x1_0000_0000 && |data| == size
    ensures var s := Run(size, Init(data), schedule);
            && s.consumed <= s.pushed <= s.accepted && |s.accepted| <= |s.pushed| + 1
            && |s.pushed| <= |s.consumed| + size
            && (s.producer.Store? ==> s.last < size)
            && (s.producer.Store? ==> forall k :: Taken(s) <= k < |s.pushed| ==> s.last != Slot(k, size))
            && (s.consumer == Read ==> s.first < size && |s.consumed| < |s.pushed|)
            && (s.consumer == Read ==> s.data[s.first] == s.pushed[|s.consumed|])
  {
    InitInv(size, data);
    RunKeepsInv(size, Init(data), schedule);
    var s := Run(size, Init(data), schedule);
    if s.producer.Store? {
      forall k | Taken(s) <= k < |s.pushed|
        ensures s.last != Slot(k, size)
      {
        NoOverwrite(size, s, k);
      }
    }
  }

  /** Between operations the count is the number of unread values, they lie in order from `_first` on, and
      `_last` is the slot after them. */
  lemma Quiescent<T>(size: nat, s: State<T>)
    requires Inv(size, s) && s.producer == Idle && s.consumer == Waiting
    ensures s.count == |s.pushed| - |s.consumed| && s.first < size
    ensures s.last == Slot(s.first + s.count, size)
    ensures forall k :: |s.consumed| <= k < |s.pushed| ==>
              s.data[Slot(s.first + (k - |s.consumed|), size)] == s.pushed[k]
  {
    hide Slot;
    var r := |s.consumed|;
    SlotShift(r, s.count, size);
    forall k | r <= k < |s.pushed|
      ensures s.data[Slot(s.first + (k - r), size)] == s.pushed[k]
    {
      SlotShift(r, k - r, size);
    }
  }

  function Pushes<T>(schedule: seq<Step<T>>): nat
  {
    if schedule == [] then 0 else (if schedule[0].Push? then 1 else 0) + Pushes(schedule[1..])
  }

  function Pops<T>(schedule: seq<Step<T>>): nat
  {
    if schedule == [] then 0 else (if schedule[0].Pop? then 1 else 0) + Pops(schedule[1..])
  }

  /** Accesses that a `push_back` in progress has yet to make. */
  function PushLeft<T>(producer: Producer<T>): nat
  {
    match producer
    case Idle => 0
    case Store(_) => 4
    case StepLast(_) => 3
    case WrapLast(_) => 2
    case Raise(_) => 1
  }

  /** Accesses that a pop in progress has yet to make. */
  function PopLeft(consumer: Consumer): nat
  {
    match consumer
    case Waiting => 0
    case Read => 5
    case Test => 4
    case Lower => 3
    case StepFirst => 2
    case WrapFirst => 1
  }

  /** A `push_back` in progress completes with its remaining accesses, however the consumer interleaves. */
  lemma {:induction false} PushFinishes<T>(size: nat, s: State<T>, schedule: seq<Step<T>>)
    requires Inv(size, s) && Pushes(schedule) == PushLeft(s.producer)
    ensures var s' := Run(size, s, schedule);
            && s'.producer == Idle
            && s'.pushed == s.pushed + (if s.producer == Idle then [] else [s.producer.item])
    decreases |schedule|
  {
    hide Slot, Wrap, Pops;
    if schedule != [] {
      match schedule[0]
      case Push(item) =>
        ProduceKeepsInv(size, s, item);
        PushFinishes(size, Produce(size, s, item), schedule[1..]);
      case Pop =>
        ConsumeKeepsInv(size, s);
        PushFinishes(size, Consume(size, s), schedule[1..]);
    }
  }

  /** A `push_back` that starts when there is room completes and appends its value, however the consumer
      interleaves; one that starts on a full buffer changes nothing. */
  lemma PushCompletes<T>(size: nat, s: State<T>, item: T, schedule: seq<Step<T>>)
    requires Inv(size, s) && s.producer == Idle
    ensures s.count == |s.pushed| - Taken(s)
    ensures s.count == size ==> Produce(size, s, item) == s
    ensures s.count < size && Pushes(schedule) == 4 ==>
              var s' := Run(size, s, [Push(item)] + schedule);
              s'.producer == Idle && s'.pushed == s.pushed + [item]
  {
    if s.count < size && Pushes(schedule) == 4 {
      ProduceKeepsInv(size, s, item);
      PushFinishes(size, Produce(size, s, item), schedule);
      assert ([Push(item)] + schedule)[1..] == schedule;
    }
  }

  lemma {:induction false} PopFinishes<T>(size: nat, s: State<T>, schedule: seq<Step<T>>)
    requires Inv(size, s) && Pops(schedule) == PopLeft(s.consumer)
    ensures var s' := Run(size, s, schedule);
            && s'.consumer == Waiting && |s'.consumed| == |s.consumed| + (if s.consumer == Read then 1 else 0)
            && s.pushed <= s'.pushed && s.consumed <= s'.consumed <= s'.pushed
            && Taken(s') == |s'.consumed|
    decreases |schedule|
  {
    hide Slot, Wrap, Pushes;
    if schedule != [] {
      match schedule[0]
      case Push(item) =>
        ProduceKeepsInv(size, s, item);
        PopFinishes(size, Produce(size, s, item), schedule[1..]);
      case Pop =>
        ConsumeKeepsInv(size, s);
        PopFinishes(size, Consume(size, s), schedule[1..]);
    }
  }

  /** A pop that starts on a non-empty buffer completes and delivers the oldest unread value, however the producer
      interleaves; one that starts on an empty buffer changes nothing. */
  lemma PopCompletes<T>(size: nat, s: State<T>, schedule: seq<Step<T>>)
    requires Inv(size, s) && s.consumer == Waiting
    ensures s.count == |s.pushed| - |s.consumed|
    ensures s.count == 0 ==> Consume(size, s) == s
    ensures s.count > 0 && Pops(schedule) == 5 ==>
              var s' := Run(size, s, [Pop] + schedule);
              s'.consumer == Waiting && s'.consumed == s.consumed + [s.pushed[|s.consumed|]]
  {
    if s.count > 0 && Pops(schedule) == 5 {
      ConsumeKeepsInv(size, s);
      PopFinishes(size, Consume(size, s), schedule);
      assert ([Pop] + schedule)[1..] == schedule;
    }
  }
}
