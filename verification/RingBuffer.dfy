/** The two ring buffers as objects, used from one thread (mcucpp/ring_buffer.h). */
module RingBuffer {
  import opened MachineInts
  import opened Modular
  import M = RingMachine

  /** The unread values of a cyclic buffer, oldest first. */
  ghost function Unread<T>(data: seq<T>, first: int, count: nat): (q: seq<T>)
    requires |data| > 0
    ensures |q| == count
    ensures forall i :: 0 <= i < count ==> q[i] == data[Slot(first + i, |data|)]
  {
    if count == 0 then [] else Unread(data, first, count - 1) + [data[Slot(first + (count - 1), |data|)]]
  }

  /** Storing behind the newest value appends it. */
  lemma UnreadPush<T>(data: seq<T>, first: int, count: nat, x: T)
    requires 0 <= count < |data|
    ensures Unread(data[Slot(first + count, |data|) := x], first, count + 1) == Unread(data, first, count) + [x]
  {
    hide Slot;
    var q := Unread(data[Slot(first + count, |data|) := x], first, count + 1);
    forall i | 0 <= i < count
      ensures q[i] == Unread(data, first, count)[i]
    {
      SlotsDistinct(first + i, first + count, |data|);
    }
  }

  lemma UnreadPop<T>(data: seq<T>, first: int, count: nat)
    requires 0 < count && |data| > 0
    ensures Unread(data, first + 1, count - 1) == Unread(data, first, count)[1..]
  {
    hide Slot;
    var q := Unread(data, first, count);
    forall i | 0 <= i < count - 1
      ensures Unread(data, first + 1, count - 1)[i] == q[1..][i]
    {
      assert q[1..][i] == q[i + 1];
      assert first + 1 + i == first + (i + 1);
    }
  }

  /** Only the slot of the oldest value matters, not the number it was reduced from. */
  lemma UnreadSlot<T>(data: seq<T>, first: int, count: nat)
    requires |data| > 0
    ensures Unread(data, Slot(first, |data|), count) == Unread(data, first, count)
  {
    hide Slot;
    forall i | 0 <= i < count
      ensures Unread(data, Slot(first, |data|), count)[i] == Unread(data, first, count)[i]
    {
      SlotShift(first, i, |data|);
    }
  }

  class RingBuffer<T(0)> {
    const data: array<T>
    var count: nat
    var first: nat
    var last: nat

    ghost predicate Valid()
      reads this, data
    {
      M.Capacity(data.Length) && count <= data.Length && first < data.Length && last == Slot(first + count, data.Length)
    }

    ghost function Contents(): (q: seq<T>)
      requires Valid()
      reads this, data
    {
      Unread(data[..], first, count)
    }

    constructor (size: nat)
      requires M.Capacity(size)
      ensures Valid() && fresh(data) && data.Length == size && Contents() == []
    {
      data := new T[size];
      count, first, last := 0, 0, 0;
      new;
      SlotSmall(0, size);
    }

    method PushBack(item: T) returns (ok: bool)
      requires Valid()
      modifies this, data
      ensures Valid() && ok == (|old(Contents())| < data.Length)
      ensures Contents() == if ok then old(Contents()) + [item] else old(Contents())
    {
      hide Slot, M.Wrap;
      if count == data.Length {
        return false;
      }
      UnreadPush(data[..], first, count, item);
      SlotNext(first + count, data.Length);
      data[last] := item;
      last := M.Wrap(data.Length, last + 1);
      if last >= data.Length {
        last := 0;
      }
      count := M.Wrap(data.Length, count + 1);
      return true;
    }

    method PopFront() returns (ok: bool)
      requires Valid()
      modifies this
      ensures Valid() && ok == (old(Contents()) != [])
      ensures Contents() == if ok then old(Contents())[1..] else []
    {
      hide Slot, M.Wrap;
      if count == 0 {
        return false;
      }
      UnreadPop(data[..], first, count);
      UnreadSlot(data[..], first + 1, count - 1);
      SlotNext(first, data.Length);
      SlotSmall(first, data.Length);
      SlotShift(first + 1, count - 1, data.Length);
      count := M.Wrap(data.Length, count - 1);
      first := M.Wrap(data.Length, first + 1);
      if first >= data.Length {
        first := 0;
      }
      return true;
    }

    method Front() returns (x: T)
      requires Valid() && Contents() != []
      ensures x == Contents()[0]
    {
      SlotSmall(first, data.Length);
      x := data[first];
    }
  }

  /** The slot `operator[]` computes, with the sum in `size_type`. */
  function IndexedSlot(size: nat, first: nat, index: nat): nat
  {
    var offset := (first + index) % M.SizeTypeValues(size);
    if offset >= size then offset - size else offset
  }

  /** `operator[]` finds its element exactly when the sum of index and `_first` fits `size_type`. */
  lemma IndexedSlotExact(size: nat, first: nat, index: nat)
    requires M.Capacity(size) && first < size && index < size
    ensures IndexedSlot(size, first, index) == Slot(first + index, size) <==> first + index < M.SizeTypeValues(size)
  {
    hide Slot, M.SizeTypeValues;
    var m := M.SizeTypeValues(size);
    SizeFits(size);
    if first + index < m {
      ModUnique(first + index, m, 0, first + index);
    } else {
      ModUnique(first + index, m, 1, first + index - m);
    }
    if first + index < size {
      SlotSmall(first + index, size);
    } else {
      SlotSmall(first + index - size, size);
      SlotWraps(first + index, size);
    }
  }

  lemma SizeFits(size: nat)
    requires M.Capacity(size)
    ensures size < M.SizeTypeValues(size)
  {
  }

  lemma SlotWraps(k: int, n: nat)
    requires n > 0 && n <= k < 2 * n
    ensures Slot(k, n) == k - n
  {
    ModUnique(k, n, 1, k - n);
  }

  /** `operator[]` finds every element of every buffer of a capacity exactly when twice the last index fits: the upper
      half of each range of capacities with one index type fails. */
  lemma IndexedCapacityExact(size: nat)
    requires M.Capacity(size)
    ensures (forall first: nat, index: nat :: first < size && index < size ==>
               IndexedSlot(size, first, index) == Slot(first + index, size))
        <==> size <= 0x80 || 0x100 <= size <= 0x8000 || 0x1_0000 <= size <= 0x8000_0000
  {
    hide IndexedSlot, Slot;
    forall first: nat, index: nat | first < size && index < size
      ensures IndexedSlot(size, first, index) == Slot(first + index, size) <==> first + index < M.SizeTypeValues(size)
    {
      IndexedSlotExact(size, first, index);
    }
    assert IndexedSlot(size, size - 1, size - 1) == Slot((size - 1) + (size - 1), size)
      <==> 2 * size - 2 < M.SizeTypeValues(size);
  }

  /** In a buffer of 200 with `_first` at 150, the sum for index 150 wraps: slot 44 instead of 100. */
  lemma IndexedSlotFails()
    ensures IndexedSlot(200, 150, 150) == 44 && Slot(150 + 150, 200) == 100
  {
    ModUnique(300, 200, 1, 100);
  }

  /** Reducing modulo a multiple first does not change the slot. */
  lemma SlotOfSlot(k: int, n: int, c: int)
    requires n > 0 && c > 0 && n * c > 0
    ensures Slot(Slot(k, n * c), n) == Slot(k, n)
  {
    var m := n * c;
    ModDef(k, m);
    ModDef(k % m, n);
    var q := (k / m) * c + (k % m) / n;
    assert k == q * n + (k % m) % n by {
      assert ((k / m) * c) * n == (k / m) * m;
      assert q * n == ((k / m) * c) * n + (k % m) / n * n;
    }
    ModUnique(k, n, q, (k % m) % n);
  }

  /** A difference of reduced counters, reduced again. */
  lemma SlotDifference(w: int, r: int, m: int)
    requires 0 <= w - r < m
    ensures Slot(Slot(w, m) - Slot(r, m), m) == w - r
  {
    ModDef(w, m);
    ModDef(r, m);
    var q := r / m - w / m;
    assert q * m == r / m * m - w / m * m;
    ModUnique(w % m - r % m, m, q, w - r);
  }

  /** The type chosen for a power of two has at least twice as many values, and a multiple of it. */
  lemma CounterTypeIsWide(k: nat)
    requires k <= 31
    ensures Pow2(k) < 0x1_0000_0000
    ensures exists c: int :: c >= 2 && Pow2(k) * c == M.SizeTypeValues(Pow2(k))
  {
    var w := if k < 8 then 8 else if k < 16 then 16 else 32;
    Pow2Add(k, w - k);
    Powers();
    if k < 8 {
      Pow2Monotone(k, 7);
    } else if k < 16 {
      Pow2Monotone(8, k);
      Pow2Monotone(k, 15);
    } else {
      Pow2Monotone(16, k);
      Pow2Monotone(k, 31);
    }
    Pow2Monotone(1, w - k);
    assert Pow2(k) * Pow2(w - k) == M.SizeTypeValues(Pow2(k));
  }

  lemma Powers()
    ensures Pow2(1) == 2 && Pow2(7) == 0x80 && Pow2(8) == 0x100 && Pow2(15) == 0x8000 && Pow2(16) == 0x1_0000
    ensures Pow2(31) == 0x8000_0000 && Pow2(32) == 0x1_0000_0000
  {
    assert Pow2(4) == 2 * (2 * (2 * (2 * 1)));
    Pow2Add(4, 4);
    Pow2Add(7, 1);
    Pow2Add(8, 8);
    Pow2Add(15, 1);
    Pow2Add(16, 16);
    Pow2Add(31, 1);
  }

  lemma {:induction false} Pow2Monotone(a: nat, b: nat)
    requires a <= b
    ensures Pow2(a) <= Pow2(b)
    decreases b - a
  {
    if a == b {
    } else {
      Pow2Monotone(a, b - 1);
    }
  }

  /** The buffer holds every pushed and not yet popped value in its slot. */
  ghost predicate Holds<T>(data: seq<T>, pushes: seq<T>, pops: nat)
  {
    |data| > 0 && forall j :: pops <= j < |pushes| ==> data[Slot(j, |data|)] == pushes[j]
  }

  lemma StoreKeeps<T>(data: seq<T>, pushes: seq<T>, pops: nat, value: T)
    requires Holds(data, pushes, pops) && pops <= |pushes| < pops + |data|
    ensures Holds(data[Slot(|pushes|, |data|) := value], pushes + [value], pops)
  {
    hide Slot;
    forall j | pops <= j < |pushes|
      ensures Slot(j, |data|) != Slot(|pushes|, |data|)
    {
      SlotsDistinct(j, |pushes|, |data|);
    }
  }

  /** The power-of-two buffer: both counters run freely and wrap. The history of all pushes and the number of
      pops are what it refines. */
  class RingBufferPO2<T(0)> {
    const k: nat  // the capacity is 2^k
    const data: array<T>
    var writeCount: nat
    var readCount: nat
    ghost var pushes: seq<T>
    ghost var pops: nat

    /** Number of values of `size_type`. */
    function Values(): (m: nat)
      ensures m > 0
    {
      M.SizeTypeValues(data.Length)
    }

    ghost predicate Valid()
      reads this, data
    {
      && k <= 31 && data.Length == Pow2(k)
      && pops <= |pushes| <= pops + data.Length
      && writeCount == Slot(|pushes|, Values()) && readCount == Slot(pops, Values())
      && Holds(data[..], pushes, pops)
    }

    /** The abstract queue: what was pushed and not popped. */
    ghost function Queue(): seq<T>
      requires Valid()
      reads this, data
    {
      pushes[pops..]
    }

    /** The index into the buffer for a counter value: `counter & (SIZE - 1)`. */
    function Masked(counter: int): (i: nat)
      requires data.Length > 0
      ensures i < data.Length
    {
      Slot(counter, data.Length)
    }

    /** What the invariant says in counter arithmetic. */
    lemma Counters()
      requires Valid()
      ensures 2 * data.Length <= Values()
      ensures forall j: int :: Masked(Slot(j, Values())) == Slot(j, data.Length)
      ensures Slot(writeCount - readCount, Values()) == |pushes| - pops
      ensures writeCount == readCount <==> |pushes| == pops
    {
      hide Slot;
      CounterTypeIsWide(k);
      var c: int :| c >= 2 && data.Length * c == Values();
      forall j: int
        ensures Masked(Slot(j, Values())) == Slot(j, data.Length)
      {
        SlotOfSlot(j, data.Length, c);
      }
      MulOrder(data.Length, 2, c);
      SlotDifference(|pushes|, pops, Values());
      SlotSmall(0, Values());
    }

    constructor (k: nat)
      requires k <= 31
      ensures Valid() && fresh(data) && data.Length == Pow2(k) && Queue() == []
    {
      this.k := k;
      data := new T[Pow2(k)];
      writeCount, readCount, pushes, pops := 0, 0, [], 0;
      new;
      CounterTypeIsWide(k);
      SlotSmall(0, Values());
    }

    method Empty() returns (b: bool)
      requires Valid()
      ensures b == (Queue() == [])
    {
      Counters();
      b := writeCount == readCount;
    }

    /** The difference of the counters has a bit above the mask. */
    method Full() returns (b: bool)
      requires Valid()
      ensures b == (|Queue()| == data.Length)
    {
      Counters();
      var difference := Slot(writeCount - readCount, Values());
      AboveMask(difference, data.Length);
      b := difference - Masked(difference) != 0;
    }

    method Size() returns (n: nat)
      requires Valid()
      ensures n == |Queue()|
    {
      Counters();
      n := Slot(writeCount - readCount, Values());
    }

    method PushBack(value: T) returns (ok: bool)
      requires Valid()
      modifies this, data
      ensures Valid() && ok == (|old(Queue())| < data.Length)
      ensures Queue() == if ok then old(Queue()) + [value] else old(Queue())
      ensures pops == old(pops) && pushes == if ok then old(pushes) + [value] else old(pushes)
    {
      hide Slot, Holds, Pow2, Values;
      var full := Full();
      if full {
        return false;
      }
      Counters();
      SlotShift(|pushes|, 1, Values());
      StoreKeeps(data[..], pushes, pops, value);
      data[Masked(writeCount)] := value;
      assert Holds(data[..], pushes + [value], pops);
      writeCount := Slot(writeCount + 1, Values());
      pushes := pushes + [value];
      return true;
    }

    method PopFront() returns (ok: bool)
      requires Valid()
      modifies this
      ensures Valid() && ok == (old(Queue()) != [])
      ensures Queue() == if ok then old(Queue())[1..] else []
      ensures pushes == old(pushes) && pops == if ok then old(pops) + 1 else old(pops)
    {
      hide Slot;
      var empty := Empty();
      if empty {
        return false;
      }
      SlotShift(pops, 1, Values());
      readCount := Slot(readCount + 1, Values());
      pops := pops + 1;
      return true;
    }

    method Front() returns (x: T)
      requires Valid() && Queue() != []
      ensures x == Queue()[0]
    {
      Counters();
      x := data[Masked(readCount)];
    }

    method Back() returns (x: T)
      requires Valid() && Queue() != []
      ensures x == Queue()[|Queue()| - 1]
    {
      hide Slot;
      Counters();
      BackIndex();
      x := data[Masked(writeCount - 1)];
    }

    /** One below a wrapped counter, masked, is the slot of the newest value, also below zero. */
    lemma BackIndex()
      requires Valid()
      ensures Masked(writeCount - 1) == Slot(|pushes| - 1, data.Length)
    {
      hide Slot;
      Counters();
      assert Masked(writeCount) == Slot(|pushes|, data.Length);
      SlotNext(writeCount - 1, data.Length);
      SlotNext(|pushes| - 1, data.Length);
    }

    method At(i: nat) returns (x: T)
      requires Valid() && i < |Queue()|
      ensures x == Queue()[i]
    {
      hide Slot;
      hide Pow2, Values;
      Counters();
      SlotShift(readCount, i, data.Length);
      SlotShift(pops, i, data.Length);
      x := data[Masked(readCount + i)];
    }
  }

  /** A number up to `n` has a part above the mask `n - 1` exactly when it is `n`. */
  lemma AboveMask(d: nat, n: nat)
    requires 0 < n && d <= n
    ensures d - Slot(d, n) != 0 <==> d == n
  {
    if d < n {
      SlotSmall(d, n);
    } else {
      ModUnique(d, n, 1, 0);
    }
  }
}
