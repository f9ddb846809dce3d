/** The task queue and software timers (mcucpp/dispatcher.h), used from one thread. */
module Dispatcher {
  import opened MachineInts
  import opened Modular
  import opened Wrappers
  import R = RingBuffer

  /** A function pointer, 0 being null, and its argument. */
  datatype TaskItem = TaskItem(task: nat, tag: int)

  datatype TimerData = TimerData(item: TaskItem, time: u32, id: u32) {
    predicate Live() { item.task != 0 }
  }

  // The timer table as the map it stands for.

  /** When a timer is due, and its id. */
  datatype Entry = Entry(time: u32, id: u32)

  type Table = seq<TimerData>

  ghost predicate DistinctItems(ts: Table)
  {
    forall i, j :: 0 <= i < j < |ts| && ts[i].Live() && ts[j].Live() ==> ts[i].item != ts[j].item
  }

  /** An id names its slot in the top byte; zero is no id. */
  ghost predicate OwnIds(ts: Table)
  {
    forall i :: 0 <= i < |ts| && ts[i].Live() ==> ts[i].id != 0 && ts[i].id / 0x100_0000 == i
  }

  ghost predicate ValidTable(ts: Table)
  {
    |ts| <= 256 && DistinctItems(ts) && OwnIds(ts)
  }

  /** The running timers: each task with its deadline and id. */
  ghost function Armed(ts: Table): map<TaskItem, Entry>
  {
    if ts == [] then map[]
    else
      var d := ts[|ts| - 1];
      var rest := Armed(ts[..|ts| - 1]);
      if d.Live() then rest[d.item := Entry(d.time, d.id)] else rest
  }

  ghost predicate Holds(ts: Table, i: int, x: TaskItem)
  {
    0 <= i < |ts| && ts[i].Live() && ts[i].item == x
  }

  /** The map holds exactly what the live slots hold. */
  lemma {:induction false} ArmedSlots(ts: Table)
    requires DistinctItems(ts)
    ensures forall i, x :: Holds(ts, i, x) ==> x in Armed(ts) && Armed(ts)[x] == Entry(ts[i].time, ts[i].id)
    ensures forall x <- Armed(ts) :: exists i :: Holds(ts, i, x)
  {
    if ts == [] {
    } else {
      var n := |ts| - 1;
      var rest := ts[..n];
      ArmedSlots(rest);
      assert ts == rest + [ts[n]];
      if ts[n].Live() {
        LastItem(rest, ts[n]);
      }
      forall x | x in Armed(ts)
        ensures exists i :: Holds(ts, i, x)
      {
        if Holds(ts, n, x) {
        } else {
          assert x in Armed(rest);
          var i :| Holds(rest, i, x);
          assert Holds(ts, i, x);
        }
      }
      forall i, x | Holds(ts, i, x)
        ensures x in Armed(ts) && Armed(ts)[x] == Entry(ts[i].time, ts[i].id)
      {
        if i < n {
          assert Holds(rest, i, x);
        }
      }
    }
  }

  /** The last slot's task runs in no earlier slot. */
  lemma LastItem(rest: Table, d: TimerData)
    requires DistinctItems(rest + [d]) && d.Live()
    ensures DistinctItems(rest) && forall i :: !Holds(rest, i, d.item)
  {
    var ts := rest + [d];
    assert ts[|rest|] == d && forall i :: 0 <= i < |rest| ==> ts[i] == rest[i];
  }

  lemma LastIsNew(ts: Table)
    requires DistinctItems(ts) && ts != []
    ensures ts[|ts| - 1].Live() ==> ts[|ts| - 1].item !in Armed(ts[..|ts| - 1])
  {
    hide Armed, Holds;
    var n := |ts| - 1;
    var rest := ts[..n];
    assert ts == rest + [ts[n]];
    ArmedSlots(rest);
    if ts[n].Live() {
      LastItem(rest, ts[n]);
    }
  }

  /** All slots are taken exactly when there are as many timers as slots. */
  lemma {:induction false} ArmedSize(ts: Table)
    requires DistinctItems(ts)
    ensures |Armed(ts)| <= |ts|
    ensures |Armed(ts)| == |ts| <==> forall i :: 0 <= i < |ts| ==> ts[i].Live()
  {
    if ts == [] {
    } else {
      var n := |ts| - 1;
      var rest := ts[..n];
      ArmedSize(rest);
      LastIsNew(ts);
      assert ts == rest + [ts[n]];
      if ts[n].Live() {
        assert Armed(ts).Keys == Armed(rest).Keys + {ts[n].item};
        assert |Armed(ts)| == |Armed(ts).Keys|;
        assert |Armed(rest)| == |Armed(rest).Keys|;
      }
    }
  }

  // Choosing a slot.

  /** The first slot holding `item`, or failing that the first free slot. */
  ghost predicate Chosen(ts: Table, item: TaskItem, i: nat)
  {
    && i < |ts|
    && if ts[i].item == item then forall j :: 0 <= j < i ==> ts[j].item != item
       else
         && !ts[i].Live()
         && (forall j :: 0 <= j < |ts| ==> ts[j].item != item)
         && forall j :: 0 <= j < i ==> ts[j].Live()
  }

  ghost predicate NoSlot(ts: Table, item: TaskItem)
  {
    forall j :: 0 <= j < |ts| ==> ts[j].item != item && ts[j].Live()
  }

  /** What `SetTimer` leaves in the chosen slot. */
  function Assigned(item: TaskItem, period: u32, now: u32, id: u32): TimerData
  {
    if period == 0 then TimerData(TaskItem(0, 0), 0, id) else TimerData(item, U32(now + period), id)
  }

  ghost function Without(m: map<TaskItem, Entry>, item: TaskItem): map<TaskItem, Entry>
  {
    map x | x in m && x != item :: m[x]
  }

  /** The effect of a (re)set timer on the running timers. */
  ghost function AfterSet(m: map<TaskItem, Entry>, item: TaskItem, period: u32, now: u32, id: u32): map<TaskItem, Entry>
  {
    if period == 0 || item.task == 0 then Without(m, item) else m[item := Entry(U32(now + period), id)]
  }

  lemma NoSlotIs(ts: Table, item: TaskItem)
    requires ValidTable(ts)
    ensures NoSlot(ts, item) <==> item !in Armed(ts) && |Armed(ts)| == |ts|
  {
    ArmedSlots(ts);
    ArmedSize(ts);
  }

  /** Slot `i` held `item` or was free, no other slot holds it, and `d` runs nothing else. */
  ghost predicate Replaces(ts: Table, i: nat, d: TimerData, item: TaskItem)
  {
    && i < |ts|
    && (ts[i].Live() ==> ts[i].item == item)
    && (d.Live() ==> d.item == item && d.id != 0 && d.id / 0x100_0000 == i)
    && (forall j :: j != i ==> !Holds(ts, j, item))
  }

  lemma ReassignValid(ts: Table, i: nat, d: TimerData, item: TaskItem)
    requires ValidTable(ts) && Replaces(ts, i, d, item)
    ensures ValidTable(ts[i := d])
  {
    var us := ts[i := d];
    forall j | 0 <= j < |ts| && j != i
      ensures us[j] == ts[j] && (ts[j].Live() ==> ts[j].item != item)
    {
      assert !Holds(ts, j, item);
    }
  }

  lemma ReassignHolds(ts: Table, i: nat, d: TimerData, item: TaskItem, j: int, x: TaskItem)
    requires Replaces(ts, i, d, item)
    ensures Holds(ts[i := d], j, x) <==> if x == item then j == i && d.Live() else Holds(ts, j, x)
  {
    assert j != i ==> !Holds(ts, j, item);
  }

  /** A table is replaced at one slot; every other slot keeps its timer. */
  lemma Reassign(ts: Table, i: nat, d: TimerData, item: TaskItem)
    requires ValidTable(ts) && Replaces(ts, i, d, item)
    ensures ValidTable(ts[i := d])
    ensures Armed(ts[i := d]) == if d.Live() then Armed(ts)[item := Entry(d.time, d.id)] else Without(Armed(ts), item)
  {
    hide Armed;
    var us := ts[i := d];
    ReassignValid(ts, i, d, item);
    ArmedSlots(ts);
    ArmedSlots(us);
    forall x
      ensures x in Armed(us) <==> if x == item then d.Live() else x in Armed(ts)
      ensures x in Armed(us) ==> Armed(us)[x] == if x == item then Entry(d.time, d.id) else Armed(ts)[x]
    {
      if x in Armed(us) {
        var j :| Holds(us, j, x);
        ReassignHolds(ts, i, d, item, j, x);
      } else if x == item {
        ReassignHolds(ts, i, d, item, i, x);
      } else if x in Armed(ts) {
        var j :| Holds(ts, j, x);
        ReassignHolds(ts, i, d, item, j, x);
      }
    }
  }

  lemma ChosenArms(ts: Table, item: TaskItem, i: nat, period: u32, now: u32, id: u32)
    requires ValidTable(ts) && Chosen(ts, item, i) && id != 0 && id / 0x100_0000 == i
    ensures ValidTable(ts[i := Assigned(item, period, now, id)])
    ensures Armed(ts[i := Assigned(item, period, now, id)]) == AfterSet(Armed(ts), item, period, now, id)
  {
    var d := Assigned(item, period, now, id);
    Reassign(ts, i, d, item);
  }

  /** No other running timer has the id of a slot. */
  lemma IdsDiffer(ts: Table, i: nat, id: u32)
    requires ValidTable(ts) && id / 0x100_0000 == i
    ensures forall x <- Armed(ts) :: Armed(ts)[x].id == id ==> Holds(ts, i, x) && ts[i].id == id
  {
    hide Armed;
    ArmedSlots(ts);
  }

  // The due timers.

  predicate IsDue(d: TimerData, t: u32) { d.Live() && d.time <= t }

  /** The due tasks in slot order. */
  ghost function Due(ts: Table, t: u32): seq<TaskItem>
  {
    if ts == [] then []
    else
      var d := ts[|ts| - 1];
      Due(ts[..|ts| - 1], t) + (if IsDue(d, t) then [d.item] else [])
  }

  /** A fired timer keeps its argument and time, but neither task nor id. */
  function Sweep(d: TimerData, t: u32): TimerData
  {
    if IsDue(d, t) then TimerData(TaskItem(0, d.item.tag), d.time, 0) else d
  }

  lemma SweepIs(d: TimerData, t: u32)
    ensures IsDue(d, t) <==> d.item.task != 0 && d.time <= t
    ensures Sweep(d, t) == if IsDue(d, t) then TimerData(TaskItem(0, d.item.tag), d.time, 0) else d
  {
  }

  ghost predicate Swept(ts: Table, t: u32, us: Table)
  {
    |us| == |ts| && forall i :: 0 <= i < |ts| ==> us[i] == Sweep(ts[i], t)
  }

  ghost function NotDue(m: map<TaskItem, Entry>, t: u32): map<TaskItem, Entry>
  {
    map x | x in m && m[x].time > t :: m[x]
  }

  /** The table while it is swept: done up to slot `i`. */
  ghost predicate Sweeping(ts: Table, t: u32, us: Table, i: nat)
  {
    && i <= |ts| == |us|
    && (forall j :: 0 <= j < i ==> us[j] == Sweep(ts[j], t))
    && forall j :: i <= j < |ts| ==> us[j] == ts[j]
  }

  lemma SweepNext(ts: Table, t: u32, us: Table, i: nat)
    requires Sweeping(ts, t, us, i) && i < |ts|
    ensures |us| == |ts| && us[i] == ts[i] && Sweeping(ts, t, us[i := Sweep(ts[i], t)], i + 1)
  {
    hide Sweep;
  }

  lemma SweepEnds(ts: Table, t: u32, us: Table)
    ensures Sweeping(ts, t, ts, 0)
    ensures Sweeping(ts, t, us, |ts|) ==> Swept(ts, t, us)
  {
    hide Sweep;
  }

  /** Sweeping leaves exactly the timers that are not yet due. */
  lemma SweptArms(ts: Table, t: u32, us: Table)
    requires ValidTable(ts) && Swept(ts, t, us)
    ensures ValidTable(us) && Armed(us) == NotDue(Armed(ts), t)
  {
    hide Armed;
    ArmedSlots(ts);
    ArmedSlots(us);
    var m := NotDue(Armed(ts), t);
    forall x | x in Armed(us)
      ensures x in m && m[x] == Armed(us)[x]
    {
      var j :| Holds(us, j, x);
      assert Holds(ts, j, x);
    }
    forall x | x in m
      ensures x in Armed(us)
    {
      var j :| Holds(ts, j, x);
      assert Holds(us, j, x);
    }
  }

  /** The due tasks are those whose deadline has passed, each once. */
  lemma {:induction false} DueIs(ts: Table, t: u32)
    requires DistinctItems(ts)
    ensures forall x :: x in Due(ts, t) <==> x in Armed(ts) && Armed(ts)[x].time <= t
    ensures forall i, j :: 0 <= i < j < |Due(ts, t)| ==> Due(ts, t)[i] != Due(ts, t)[j]
  {
    if ts == [] {
    } else {
      var n := |ts| - 1;
      var rest := ts[..n];
      DueIs(rest, t);
      LastIsNew(ts);
    }
  }

  lemma DueNext(ts: Table, i: nat, t: u32)
    requires i < |ts|
    ensures Due(ts[..i + 1], t) == Due(ts[..i], t) + (if IsDue(ts[i], t) then [ts[i].item] else [])
  {
    assert ts[..i + 1][..i] == ts[..i];
  }

  /** What fits into a queue of `n` places. */
  ghost function Cut(q: seq<TaskItem>, n: nat): seq<TaskItem>
  {
    if |q| <= n then q else q[..n]
  }

  lemma CutMore(q: seq<TaskItem>, n: nat, x: TaskItem)
    ensures Cut(q + [x], n) == if |Cut(q, n)| < n then Cut(q, n) + [x] else Cut(q, n)
  {
  }

  /** A due slot adds its task, if the queue has room. */
  lemma QueueNext(ts: Table, i: nat, t: u32, q: seq<TaskItem>, n: nat)
    requires i < |ts|
    ensures var was := Cut(q + Due(ts[..i], t), n);
            Cut(q + Due(ts[..i + 1], t), n) == if IsDue(ts[i], t) && |was| < n then was + [ts[i].item] else was
  {
    hide Due, Cut;
    DueNext(ts, i, t);
    if IsDue(ts[i], t) {
      CutMore(q + Due(ts[..i], t), n, ts[i].item);
      assert q + Due(ts[..i + 1], t) == q + Due(ts[..i], t) + [ts[i].item];
    } else {
      assert Due(ts[..i], t) + [] == Due(ts[..i], t);
    }
  }

  // Runs.

  /** The running timers, the waiting tasks, and how many ids were issued. */
  datatype State = State(timers: map<TaskItem, Entry>, queue: seq<TaskItem>, issued: nat)

  datatype Event =
    | Submit(item: TaskItem)
    | Set(item: TaskItem, period: u32, now: u32, id: u32)
    | Stop(item: TaskItem)
    | StopId(id: u32)
    | Restart(id: u32, period: u32, now: u32)
    | Tick(time: u32)
    | Invoke

  ghost function WithoutId(m: map<TaskItem, Entry>, id: u32): map<TaskItem, Entry>
  {
    map x | x in m && m[x].id != id :: m[x]
  }

  ghost function Moved(m: map<TaskItem, Entry>, id: u32, time: u32): map<TaskItem, Entry>
  {
    map x | x in m :: if m[x].id == id then Entry(time, id) else m[x]
  }

  /** The tasks of `m` whose deadline has passed, each once. */
  ghost predicate DueList(m: map<TaskItem, Entry>, t: u32, due: seq<TaskItem>)
  {
    && (forall x :: x in due <==> x in m && m[x].time <= t)
    && forall i, j :: 0 <= i < j < |due| ==> due[i] != due[j]
  }

  /** The low 24 bits of the id issued after `issued` others: 1, 2, ..., 2^24 - 1, and again from 1. */
  function LowBits(issued: nat): nat { Slot(issued, 0xFF_FFFF) + 1 }

  /** A `SetTimer` that is not refused gives the next id, which no other running timer has. */
  ghost predicate Issues(s: State, item: TaskItem, id: u32, r: State)
  {
    && id % 0x100_0000 == LowBits(s.issued) && r.issued == s.issued + 1
    && forall x <- s.timers :: x != item ==> s.timers[x].id != id
  }

  /** One call, for a queue of `n` places. A refused `SetTimer` has the id 0. */
  ghost predicate Step(n: nat, s: State, e: Event, r: State)
  {
    match e
    case Submit(item) => r == s.(queue := Cut(s.queue + [item], n))
    case Set(item, period, now, id) =>
      if id == 0 then r == s
      else Issues(s, item, id, r) && r == s.(timers := AfterSet(s.timers, item, period, now, id), issued := r.issued)
    case Stop(item) => r == s.(timers := Without(s.timers, item))
    case StopId(id) => r == s.(timers := WithoutId(s.timers, id))
    case Restart(id, period, now) => r == s.(timers := Moved(s.timers, id, U32(now + period)))
    case Tick(t) =>
      exists due :: DueList(s.timers, t, due) && r == State(NotDue(s.timers, t), Cut(s.queue + due, n), s.issued)
    case Invoke => s.queue != [] && r == s.(queue := s.queue[1..])
  }

  /** The states of a run from an empty dispatcher. */
  ghost predicate Run(n: nat, es: seq<Event>, ss: seq<State>)
  {
    && |ss| == |es| + 1 && ss[0] == State(map[], [], 0)
    && forall k :: 0 <= k < |es| ==> Step(n, ss[k], es[k], ss[k + 1])
  }

  /** The `j`-th call of the run gave the timer of `x` the deadline `time`. */
  ghost predicate Arms(es: seq<Event>, ss: seq<State>, j: int, x: TaskItem, time: u32)
  {
    && 0 <= j < |es| && j < |ss|
    && match es[j]
       case Set(item, period, now, id) => item == x && id != 0 && period != 0 && time == U32(now + period)
       case Restart(id, period, now) => x in ss[j].timers && ss[j].timers[x].id == id && time == U32(now + period)
       case _ => false
  }

  /** From the `i`-th call on, and up to the `j`-th, the deadline that it gave `x` stayed in force. */
  ghost predicate InForce(es: seq<Event>, ss: seq<State>, i: int, j: int, x: TaskItem, time: u32)
  {
    && i < j < |ss| && Arms(es, ss, i, x, time)
    && forall m :: i < m <= j ==> x in ss[m].timers && ss[m].timers[x].time == time
  }

  /** A running timer has the deadline that some earlier call gave it and no later call changed. */
  lemma {:induction false} DeadlineInForce(n: nat, es: seq<Event>, ss: seq<State>, j: nat, x: TaskItem)
    requires Run(n, es, ss) && j <= |es| && x in ss[j].timers
    ensures exists i :: InForce(es, ss, i, j, x, ss[j].timers[x].time)
  {
    if j == 0 {
      assert false;
    }
    var time := ss[j].timers[x].time;
    assert Step(n, ss[j - 1], es[j - 1], ss[j]);
    if Arms(es, ss, j - 1, x, time) {
      assert InForce(es, ss, j - 1, j, x, time);
    } else {
      assert x in ss[j - 1].timers && ss[j - 1].timers[x] == ss[j].timers[x];
      DeadlineInForce(n, es, ss, j - 1, x);
      var i :| InForce(es, ss, i, j - 1, x, time);
      assert InForce(es, ss, i, j, x, time);
    }
  }

  lemma {:induction false} Bounded(n: nat, es: seq<Event>, ss: seq<State>, k: nat)
    requires Run(n, es, ss) && k <= |es|
    ensures |ss[k].queue| <= n
  {
    if k > 0 {
      Bounded(n, es, ss, k - 1);
      assert Step(n, ss[k - 1], es[k - 1], ss[k]);
    }
  }

  /** The tasks invoked by the first `k` calls of a run. */
  ghost function Invoked(es: seq<Event>, ss: seq<State>, k: nat): seq<TaskItem>
    requires k <= |es| < |ss|
  {
    if k == 0 then []
    else
      var s := ss[k - 1];
      Invoked(es, ss, k - 1) + (if es[k - 1].Invoke? && s.queue != [] then [s.queue[0]] else [])
  }

  /** The tasks that the other calls added to the queue. */
  ghost function Accepted(es: seq<Event>, ss: seq<State>, k: nat): seq<TaskItem>
    requires k <= |es| < |ss|
  {
    if k == 0 then []
    else
      var (n, q) := (|ss[k - 1].queue|, ss[k].queue);
      Accepted(es, ss, k - 1) + (if !es[k - 1].Invoke? && n <= |q| then q[n..] else [])
  }

  /** Over every run, accepted tasks are invoked in the order of acceptance, and the rest waits in that order. */
  lemma {:induction false} TasksInOrder(n: nat, es: seq<Event>, ss: seq<State>, k: nat)
    requires Run(n, es, ss) && k <= |es|
    ensures Accepted(es, ss, k) == Invoked(es, ss, k) + ss[k].queue
  {
    hide Step;
    if k > 0 {
      TasksInOrder(n, es, ss, k - 1);
      Bounded(n, es, ss, k - 1);
      assert Step(n, ss[k - 1], es[k - 1], ss[k]);
      QueueStep(n, ss[k - 1], es[k - 1], ss[k]);
      Conserved(Accepted(es, ss, k - 1), Invoked(es, ss, k - 1), ss[k - 1].queue, ss[k].queue, es[k - 1].Invoke?);
    }
  }

  lemma Conserved(accepted: seq<TaskItem>, invoked: seq<TaskItem>, q: seq<TaskItem>, r: seq<TaskItem>, invoke: bool)
    requires accepted == invoked + q
    requires invoke ==> q != [] && r == q[1..]
    requires !invoke ==> |q| <= |r| && r == q + r[|q|..]
    ensures accepted + (if !invoke && |q| <= |r| then r[|q|..] else [])
         == invoked + (if invoke && q != [] then [q[0]] else []) + r
  {
    if invoke {
      assert q == [q[0]] + q[1..];
    }
  }

  /** A call removes the oldest task, or adds behind the newest. */
  lemma QueueStep(n: nat, s: State, e: Event, r: State)
    requires Step(n, s, e, r) && |s.queue| <= n
    ensures e.Invoke? ==> s.queue != [] && r.queue == s.queue[1..]
    ensures !e.Invoke? ==> |s.queue| <= |r.queue| && r.queue == s.queue + r.queue[|s.queue|..]
  {
  }

  /** What a call adds to the queue was handed in by it, or was due when it looked. */
  lemma Added(n: nat, s: State, e: Event, r: State, x: TaskItem)
    requires Step(n, s, e, r) && |s.queue| <= n && !e.Invoke?
    requires |s.queue| <= |r.queue| && x in r.queue[|s.queue|..]
    ensures e == Submit(x) || (e.Tick? && x in s.timers && s.timers[x].time <= e.time)
  {
  }

  /** The `p`-th accepted task was accepted by the `j`-th call. */
  ghost predicate AcceptedBy(es: seq<Event>, ss: seq<State>, p: nat, j: nat)
    requires |es| < |ss|
  {
    j < |es| && |Accepted(es, ss, j)| <= p < |Accepted(es, ss, j + 1)|
  }

  /** The `j`-th call found the timer of `x` due, by the deadline then in force. */
  ghost predicate FiresDue(es: seq<Event>, ss: seq<State>, j: nat, x: TaskItem)
  {
    && j < |es| && j < |ss| && es[j].Tick? && x in ss[j].timers && ss[j].timers[x].time <= es[j].time
    && exists i :: InForce(es, ss, i, j, x, ss[j].timers[x].time)
  }

  /**
   * Over every run, each acceptance of a task is its own hand-in or the firing of its timer, by a handler call at or
   * after the deadline in force.
   */
  lemma {:induction false} NeverEarly(n: nat, es: seq<Event>, ss: seq<State>, k: nat, p: nat)
    requires Run(n, es, ss) && k <= |es| && p < |Accepted(es, ss, k)|
    ensures exists j: nat :: j < k && AcceptedBy(es, ss, p, j)
              && var x := Accepted(es, ss, k)[p]; es[j] == Submit(x) || FiresDue(es, ss, j, x)
  {
    hide Step, InForce;
    if k == 0 {
      assert false;
    }
    var x := Accepted(es, ss, k)[p];
    if p < |Accepted(es, ss, k - 1)| {
      assert x == Accepted(es, ss, k - 1)[p];
      NeverEarly(n, es, ss, k - 1, p);
    } else {
      var s, e, r := ss[k - 1], es[k - 1], ss[k];
      assert Step(n, s, e, r);
      Bounded(n, es, ss, k - 1);
      assert x == r.queue[|s.queue|..][p - |Accepted(es, ss, k - 1)|];
      Added(n, s, e, r, x);
      if e != Submit(x) {
        DeadlineInForce(n, es, ss, k - 1, x);
      }
      assert AcceptedBy(es, ss, p, k - 1);
    }
  }

  /** The time a call asks for, before it is reduced to 32 bits. */
  function Asked(e: Event): nat
    requires e.Set? || e.Restart?
  {
    e.now + e.period
  }

  /** A deadline in force is met by the time asked for exactly when that time does not pass the tick counter's end. */
  lemma DeadlineExact(es: seq<Event>, ss: seq<State>, i: int, j: int, x: TaskItem, time: u32, t: u32)
    requires InForce(es, ss, i, j, x, time) && time <= t
    ensures Asked(es[i]) <= t <==> Asked(es[i]) < 0x1_0000_0000
  {
  }

  /** A timer of ten ticks, set six ticks before the counter wraps, fires one tick later. */
  lemma WrappedDeadline(x: TaskItem)
    requires x.task != 0
    ensures var es := [Set(x, 10, 0xFFFF_FFFA, 1), Tick(0xFFFF_FFFB)];
            exists ss: seq<State> :: Run(1, es, ss) && FiresDue(es, ss, 1, x) && ss[2].queue == [x]
  {
    var es := [Set(x, 10, 0xFFFF_FFFA, 1), Tick(0xFFFF_FFFB)];
    var armed := State(map[x := Entry(4, 1)], [], 1);
    var ss := [State(map[], [], 0), armed, State(map[], [x], 1)];
    assert Step(1, ss[0], es[0], ss[1]) by {
      SlotSmall(0, 0xFF_FFFF);
      assert AfterSet(map[], x, 10, 0xFFFF_FFFA, 1) == armed.timers;
    }
    assert Step(1, ss[1], es[1], ss[2]) by {
      assert DueList(armed.timers, 0xFFFF_FFFB, [x]);
      assert NotDue(armed.timers, 0xFFFF_FFFB) == map[];
      assert [] + [x] == [x];
    }
    assert InForce(es, ss, 0, 1, x, 4);
  }

  // Ids.

  /** The sequence number that makes the next id, after `issued` others. */
  ghost predicate Counts(sequence: u32, issued: nat)
  {
    var low := sequence % 0x100_0000;
    low == LowBits(issued) || (low == 0 && LowBits(issued) == 1)
  }

  /** The next id of a slot: the first of the sequence's low 24 bits that are not all zero, and the slot. */
  method NextId(sequence: u32, index: nat, ghost issued: nat) returns (id: u32, next: u32)
    requires index < 256 && Counts(sequence, issued)
    ensures id != 0 && id / 0x100_0000 == index
    ensures id % 0x100_0000 == if sequence % 0x100_0000 != 0 then sequence % 0x100_0000 else 1
    ensures id % 0x100_0000 == LowBits(issued) && Counts(next, issued + 1)
    ensures next == U32(sequence + (if sequence % 0x100_0000 != 0 then 1 else 2))
  {
    LowBitsNext(issued);
    var low := sequence % 0x100_0000;
    next := U32(sequence + 1);
    if low == 0 {
      low := next % 0x100_0000;
      next := U32(next + 1);
    }
    id := low + index * 0x100_0000;
  }

  lemma LowBitsNext(issued: nat)
    ensures LowBits(issued + 1) == if LowBits(issued) == 0xFF_FFFF then 1 else LowBits(issued) + 1
  {
    SlotNext(issued, 0xFF_FFFF);
  }

  /** After 2^24 - 1 ids the low bits begin again. */
  lemma LowBitsRecur(issued: nat)
    ensures LowBits(issued + 0xFF_FFFF) == LowBits(issued)
  {
    ModDef(issued, 0xFF_FFFF);
    ModUnique(issued + 0xFF_FFFF, 0xFF_FFFF, issued / 0xFF_FFFF + 1, issued % 0xFF_FFFF);
  }

  lemma IssuedGrows(n: nat, s: State, e: Event, r: State)
    requires Step(n, s, e, r)
    ensures s.issued <= r.issued
  {
  }

  lemma {:induction false} IssuedOrder(n: nat, es: seq<Event>, ss: seq<State>, i: nat, k: nat)
    requires Run(n, es, ss) && i <= k <= |es|
    ensures ss[i].issued <= ss[k].issued
    decreases k
  {
    if i < k {
      IssuedOrder(n, es, ss, i, k - 1);
      IssuedGrows(n, ss[k - 1], es[k - 1], ss[k]);
    }
  }

  /** The call is a `SetTimer` that gave this id. */
  ghost predicate Gives(e: Event, id: u32) { e.Set? && e.id == id && id != 0 }

  /** Of 2^24 - 1 ids in a row no two are equal. */
  lemma IdsFresh(n: nat, es: seq<Event>, ss: seq<State>, i: nat, k: nat, id: u32, id': u32)
    requires Run(n, es, ss) && i < k < |es| && Gives(es[i], id) && Gives(es[k], id')
    requires ss[k].issued < ss[i].issued + 0xFF_FFFF
    ensures id % 0x100_0000 != id' % 0x100_0000
  {
    assert Step(n, ss[i], es[i], ss[i + 1]) && Step(n, ss[k], es[k], ss[k + 1]);
    IssuedOrder(n, es, ss, i + 1, k);
    SlotsDistinct(ss[i].issued, ss[k].issued, 0xFF_FFFF);
  }

  /** The timer of `x` has had the id ever since the `i`-th call. */
  ghost predicate Keeps(ss: seq<State>, i: nat, k: nat, x: TaskItem, id: u32)
  {
    k < |ss| && forall m :: i < m <= k ==> x in ss[m].timers && ss[m].timers[x].id == id
  }

  /** Until 2^24 - 1 ids later, an id belongs to the timer it was given to, and to none once that one is gone. */
  lemma {:induction false} IdMeansTimer(n: nat, es: seq<Event>, ss: seq<State>, i: nat, k: nat, id: u32, y: TaskItem)
    requires Run(n, es, ss) && i < k <= |es| && Gives(es[i], id)
    requires ss[k].issued <= ss[i].issued + 0xFF_FFFF
    requires y in ss[k].timers && ss[k].timers[y].id == id
    ensures y == es[i].item && Keeps(ss, i, k, y, id)
    decreases k
  {
    var s, e, r := ss[k - 1], es[k - 1], ss[k];
    assert Step(n, s, e, r);
    if i == k - 1 {
      assert y == es[i].item;
    } else {
      IssuedGrows(n, s, e, r);
      if e.Set? && e.id != 0 {
        IdsFresh(n, es, ss, i, k - 1, id, e.id);
      }
      assert y in s.timers && s.timers[y].id == id;
      IdMeansTimer(n, es, ss, i, k - 1, id, y);
    }
  }

  /**
   * An id outlives its timer harmlessly: once the timer has fired, was stopped or got another id, stopping or
   * restarting by the old id changes no timer, until 2^24 - 1 ids later.
   */
  lemma StaleId(n: nat, es: seq<Event>, ss: seq<State>, i: nat, m: nat, k: nat, id: u32, time: u32)
    requires Run(n, es, ss) && i < m <= k <= |es| && Gives(es[i], id)
    requires ss[k].issued <= ss[i].issued + 0xFF_FFFF
    requires es[i].item in ss[m].timers ==> ss[m].timers[es[i].item].id != id
    ensures WithoutId(ss[k].timers, id) == ss[k].timers
    ensures Moved(ss[k].timers, id, time) == ss[k].timers
  {
    forall y | y in ss[k].timers
      ensures ss[k].timers[y].id != id
    {
      if ss[k].timers[y].id == id {
        IdMeansTimer(n, es, ss, i, k, id, y);
      }
    }
  }

  class Dispatcher {
    const tasks: array<TaskItem>
    const timers: array<TimerData>
    var count: nat
    var first: nat
    var last: nat
    var timerSequence: u32
    var hasClock: bool
    ghost var issued: nat

    ghost predicate ValidQueue()
      reads this, tasks
    {
      && count <= tasks.Length
      && if tasks.Length == 0 then first == last == 0
         else first < tasks.Length && last == Slot(first + count, tasks.Length)
    }

    ghost predicate Valid()
      reads this, tasks, timers
    {
      ValidQueue() && ValidTable(timers[..]) && Counts(timerSequence, issued)
    }

    /** The tasks waiting to run, oldest first. */
    ghost function Queue(): (q: seq<TaskItem>)
      requires ValidQueue()
      reads this, tasks
      ensures |q| == count
    {
      if tasks.Length == 0 then [] else R.Unread(tasks[..], first, count)
    }

    ghost function Timers(): map<TaskItem, Entry>
      reads timers
    {
      Armed(timers[..])
    }

    ghost function Abs(): State
      requires ValidQueue()
      reads this, tasks, timers
    {
      State(Timers(), Queue(), issued)
    }

    constructor (tasks: array<TaskItem>, timers: array<TimerData>)
      requires timers.Length <= 256
      requires forall i :: 0 <= i < timers.Length ==> timers[i] == TimerData(TaskItem(0, 0), 0, 0)
      ensures this.tasks == tasks && this.timers == timers && !hasClock
      ensures Valid() && Queue() == [] && Timers() == map[] && issued == 0
    {
      this.tasks, this.timers := tasks, timers;
      count, first, last, timerSequence, hasClock := 0, 0, 0, 0, false;
      issued := 0;
      new;
      if tasks.Length > 0 {
        SlotSmall(0, tasks.Length);
      }
      SlotSmall(0, 0xFF_FFFF);
      ArmedSlots(timers[..]);
      assert Timers().Keys == {};
    }

    method SetTimerFunc(clock: bool)
      requires Valid()
      modifies this`hasClock
      ensures Valid() && hasClock == clock
    {
      hasClock := clock;
    }

    /** Appends a task, or refuses it when the queue is full. */
    method SetTask(item: TaskItem) returns (ok: bool)
      requires ValidQueue()
      modifies this`count, this`first, this`last, tasks
      ensures ValidQueue() && ok == (|old(Queue())| < tasks.Length)
      ensures Queue() == if ok then old(Queue()) + [item] else old(Queue())
      ensures Step(tasks.Length, old(Abs()), Submit(item), Abs())
    {
      hide Slot;
      if count >= tasks.Length {
        return false;
      }
      R.UnreadPush(tasks[..], first, count, item);
      SlotNext(first + count, tasks.Length);
      tasks[last] := item;
      last := last + 1;
      if last >= tasks.Length {
        last := 0;
      }
      count := count + 1;
      return true;
    }

    /** The slot of a timer: the one running `item`, else the first free one. */
    method FindSlot(item: TaskItem) returns (slot: Option<nat>)
      ensures slot.Some? ==> Chosen(timers[..], item, slot.value)
      ensures slot.None? ==> NoSlot(timers[..], item)
    {
      slot := None;
      var i := 0;
      while i < timers.Length
        invariant 0 <= i <= timers.Length
        invariant forall j :: 0 <= j < i ==> timers[j].item != item
        invariant slot.None? ==> forall j :: 0 <= j < i ==> timers[j].Live()
        invariant slot.Some? ==> slot.value < i && !timers[slot.value].Live()
        invariant slot.Some? ==> forall j :: 0 <= j < slot.value ==> timers[j].Live()
      {
        if timers[i].item.task == 0 && slot.None? {
          slot := Some(i);
        }
        if timers[i].item == item {
          slot := Some(i);
          break;
        }
        i := i + 1;
      }
    }

    /**
     * Starts, restarts or (with a period of zero) stops the timer of a task. Zero comes back when there is no clock
     * or no slot; otherwise an id that no other timer has, even when the timer was only stopped.
     */
    method SetTimer(period: u32, item: TaskItem, now: u32) returns (id: u32)
      requires Valid()
      modifies this`timerSequence, this`issued, timers
      ensures Valid() && Queue() == old(Queue())
      ensures id == 0 <==> !hasClock || (item !in old(Timers()) && |old(Timers())| == timers.Length)
      ensures Timers() == if id == 0 then old(Timers()) else AfterSet(old(Timers()), item, period, now, id)
      ensures id != 0 ==> id / 0x100_0000 < timers.Length
      ensures id != 0 ==> forall x <- old(Timers()) :: x != item ==> old(Timers())[x].id != id
      ensures id == 0 ==> issued == old(issued) && timerSequence == old(timerSequence)
      ensures id != 0 ==> id % 0x100_0000 == LowBits(old(issued)) && issued == old(issued) + 1
      ensures Step(tasks.Length, old(Abs()), Set(item, period, now, id), Abs())
    {
      hide Armed, ValidTable, Chosen, NoSlot, AfterSet, Step, Slot, R.Unread, LowBits, Counts;
      SetRefused(tasks.Length, Abs(), item, period, now);
      if !hasClock {
        return 0;
      }
      var slot := FindSlot(item);
      NoSlotIs(timers[..], item);
      if slot.None? {
        return 0;
      }
      var i := slot.value;
      ChosenFits(timers[..], item, i);
      id, timerSequence := NextId(timerSequence, i, issued);
      IdsDiffer(timers[..], i, id);
      SetStep(tasks.Length, Abs(), item, period, now, id);
      issued := issued + 1;
      ChosenArms(timers[..], item, i, period, now, id);
      timers[i] := Assigned(item, period, now, id);
      assert timers[..] == old(timers[..])[i := Assigned(item, period, now, id)];
    }

    /** Stops the timer of a task, if it runs. */
    method StopTimer(item: TaskItem)
      requires Valid()
      modifies timers
      ensures Valid() && Step(tasks.Length, old(Abs()), Stop(item), Abs())
    {
      var i := 0;
      while i < timers.Length
        invariant 0 <= i <= timers.Length
        invariant forall j :: 0 <= j < i ==> timers[j].item != item
        invariant timers[..] == old(timers[..])
      {
        if timers[i].item == item {
          Stopped(timers[..], i, item, timers[i].time);
          timers[i] := TimerData(TaskItem(0, 0), timers[i].time, 0);
          assert timers[..] == old(timers[..])[i := TimerData(TaskItem(0, 0), old(timers[i].time), 0)];
          return;
        }
        i := i + 1;
      }
      ArmedSlots(timers[..]);
      assert Without(Timers(), item) == Timers();
    }

    /** Stops the timer with an id, if it still runs. An id that names no slot makes the code read past the table. */
    method StopTimerById(id: u32) returns (defined: bool)
      requires Valid()
      modifies timers
      ensures defined <==> id / 0x100_0000 < timers.Length
      ensures defined ==> Valid() && Step(tasks.Length, old(Abs()), StopId(id), Abs())
    {
      var index := id / 0x100_0000;
      defined := index < timers.Length;
      if !defined {
        return;
      }
      IdsDiffer(timers[..], index, id);
      if timers[index].id == id {
        StoppedId(timers[..], index, id);
        timers[index] := TimerData(TaskItem(0, 0), timers[index].time, 0);
        assert timers[..] == old(timers[..])[index := TimerData(TaskItem(0, 0), old(timers[index].time), 0)];
      } else {
        assert WithoutId(Timers(), id) == Timers();
      }
    }

    /** Moves the deadline of the timer with an id, if it still runs. The clock is read without a test for null, and
        an id that names no slot makes the code read past the table. */
    method RestartTimer(id: u32, period: u32, now: u32) returns (defined: bool)
      requires Valid()
      modifies timers
      ensures defined <==> id / 0x100_0000 < timers.Length && (hasClock || old(timers[id / 0x100_0000].id) != id)
      ensures defined ==> Valid() && Step(tasks.Length, old(Abs()), Restart(id, period, now), Abs())
    {
      var index := id / 0x100_0000;
      defined := index < timers.Length && (hasClock || timers[index].id != id);
      if !defined {
        return;
      }
      IdsDiffer(timers[..], index, id);
      if timers[index].id == id {
        Restarted(timers[..], index, U32(now + period));
        timers[index] := timers[index].(time := U32(now + period));
        assert timers[..] == old(timers[..])[index := old(timers[index]).(time := U32(now + period))];
      } else {
        assert Moved(Timers(), id, U32(now + period)) == Timers();
      }
    }

    /** Takes the oldest task off the queue. */
    method Take() returns (task: TaskItem)
      requires ValidQueue() && count > 0
      modifies this`count, this`first
      ensures ValidQueue() && task == old(Queue())[0] && Queue() == old(Queue())[1..]
      ensures Step(tasks.Length, old(Abs()), Invoke, Abs())
    {
      hide Slot;
      R.UnreadPop(tasks[..], first, count);
      R.UnreadSlot(tasks[..], first + 1, count - 1);
      SlotNext(first, tasks.Length);
      SlotSmall(first, tasks.Length);
      SlotShift(first + 1, count - 1, tasks.Length);
      task := tasks[first];
      count := count - 1;
      first := first + 1;
      if first >= tasks.Length {
        first := 0;
      }
    }

    /**
     * Queues the tasks of the timers that are due, in slot order and as far as they fit, and stops all of them,
     * also those that did not fit.
     */
    method TimerHandler(time: u32)
      requires Valid()
      modifies this`count, this`first, this`last, tasks, timers
      ensures Valid()
      ensures Timers() == NotDue(old(Timers()), time)
      ensures Queue() == Cut(old(Queue()) + Due(old(timers[..]), time), tasks.Length)
      ensures Step(tasks.Length, old(Abs()), Tick(time), Abs())
    {
      hide Slot, Due, Cut, Armed, ValidTable, Step, Sweep, Sweeping, IsDue, R.Unread;
      ghost var was := timers[..];
      ghost var queue := Queue();
      DueNone(was, time, queue, tasks.Length);
      SweepEnds(was, time, timers[..]);
      var i := 0;
      while i < timers.Length
        invariant 0 <= i <= timers.Length
        invariant ValidQueue() && Queue() == Cut(queue + Due(was[..i], time), tasks.Length)
        invariant Sweeping(was, time, timers[..], i)
      {
        ghost var us := timers[..];
        SweepNext(was, time, us, i);
        QueueNext(was, i, time, queue, tasks.Length);
        SweepIs(was[i], time);
        var task := timers[i].item;
        if task.task != 0 && timers[i].time <= time {
          var _ := SetTask(task);
          timers[i] := TimerData(TaskItem(0, timers[i].item.tag), timers[i].time, 0);
        }
        assert timers[..] == us[i := Sweep(was[i], time)];
        i := i + 1;
      }
      assert was[..i] == was;
      SweepEnds(was, time, timers[..]);
      SweptArms(was, time, timers[..]);
      TickStep(was, time, queue, issued, tasks.Length);
    }

    /** Fires the due timers and runs the oldest waiting task; the task comes back as the one invoked. */
    method Poll(ticks: u32) returns (invoked: Option<TaskItem>)
      requires Valid()
      modifies this`count, this`first, this`last, tasks, timers
      ensures Valid()
      ensures var s := old(Abs());
              var due := Due(old(timers[..]), ticks);
              var t := if hasClock then State(NotDue(s.timers, ticks), Cut(s.queue + due, tasks.Length), s.issued)
                       else s;
              && (hasClock ==> Step(tasks.Length, s, Tick(ticks), t))
              && if t.queue == [] then invoked == None && Abs() == t
                 else invoked == Some(t.queue[0]) && Step(tasks.Length, t, Invoke, Abs())
    {
      hide Slot, Due, Cut, Armed, ValidTable, Step;
      if hasClock {
        TimerHandler(ticks);
      }
      if count > 0 {
        var task := Take();
        return Some(task);
      }
      return None;
    }
  }

  lemma SetRefused(n: nat, s: State, item: TaskItem, period: u32, now: u32)
    ensures Step(n, s, Set(item, period, now, 0), s)
  {
  }

  lemma SetStep(n: nat, s: State, item: TaskItem, period: u32, now: u32, id: u32)
    requires id != 0 && id % 0x100_0000 == LowBits(s.issued)
    requires forall x <- s.timers :: x != item ==> s.timers[x].id != id
    ensures Step(n, s, Set(item, period, now, id),
                 State(AfterSet(s.timers, item, period, now, id), s.queue, s.issued + 1))
  {
    hide AfterSet, LowBits;
  }

  lemma ChosenFits(ts: Table, item: TaskItem, i: nat)
    requires ValidTable(ts) && Chosen(ts, item, i)
    ensures i < |ts| <= 256 && !NoSlot(ts, item)
  {
  }

  lemma Stopped(ts: Table, i: nat, item: TaskItem, time: u32)
    requires ValidTable(ts) && i < |ts| && ts[i].item == item && forall j :: 0 <= j < i ==> ts[j].item != item
    ensures var us := ts[i := TimerData(TaskItem(0, 0), time, 0)];
            ValidTable(us) && Armed(us) == Without(Armed(ts), item)
  {
    Reassign(ts, i, TimerData(TaskItem(0, 0), time, 0), item);
  }

  lemma StoppedId(ts: Table, i: nat, id: u32)
    requires ValidTable(ts) && i < |ts| && ts[i].id == id && id / 0x100_0000 == i
    ensures var us := ts[i := TimerData(TaskItem(0, 0), ts[i].time, 0)];
            ValidTable(us) && Armed(us) == WithoutId(Armed(ts), id)
  {
    var item := ts[i].item;
    ArmedSlots(ts);
    IdsDiffer(ts, i, id);
    Reassign(ts, i, TimerData(TaskItem(0, 0), ts[i].time, 0), item);
    assert Without(Armed(ts), item) == WithoutId(Armed(ts), id);
  }

  lemma Restarted(ts: Table, i: nat, time: u32)
    requires ValidTable(ts) && i < |ts| && ts[i].id / 0x100_0000 == i
    ensures var us := ts[i := ts[i].(time := time)];
            ValidTable(us) && Armed(us) == Moved(Armed(ts), ts[i].id, time)
  {
    var item := ts[i].item;
    ArmedSlots(ts);
    IdsDiffer(ts, i, ts[i].id);
    Reassign(ts, i, ts[i].(time := time), item);
  }

  lemma TickStep(ts: Table, t: u32, q: seq<TaskItem>, issued: nat, n: nat)
    requires ValidTable(ts)
    ensures Step(n, State(Armed(ts), q, issued), Tick(t), State(NotDue(Armed(ts), t), Cut(q + Due(ts, t), n), issued))
  {
    hide Due, Armed, Cut;
    DueIs(ts, t);
    assert DueList(Armed(ts), t, Due(ts, t));
  }

  lemma DueNone(ts: Table, t: u32, q: seq<TaskItem>, n: nat)
    requires |q| <= n
    ensures Cut(q + Due(ts[..0], t), n) == q
  {
    assert q + [] == q;
  }
}
