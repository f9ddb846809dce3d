/** The pool of equal blocks with a bitmap of live ones (mcucpp/mempool.h, template_utils.h). */
module MemPool {
  import opened Bits32
  import opened Modular
  import opened Wrappers

  // The lowest free bit.

  /** `(~m) & -(~m)`, in the element's type. */
  function LowestClear(w: nat, m: bv32): bv32
    requires IsWidth(w)
  {
    (!m & (0 - !m)) & Mask(w)
  }

  /** `b` is a single bit, clear in `m`, above bits that are all set. */
  predicate Isolates(b: bv32, m: bv32)
  {
    b != 0 && b & m == 0 && b & (b - 1) == 0 && FilledBelow(b, m)
  }

  predicate FilledBelow(b: bv32, m: bv32) { (b - 1) & m == b - 1 }

  lemma LowestClear8(m: bv32)
    requires Fits(8, m) && m != Mask(8)
    ensures Isolates(LowestClear(8, m), m) && Fits(8, LowestClear(8, m))
  {
  }

  lemma LowestClear16(m: bv32)
    requires Fits(16, m) && m != Mask(16)
    ensures Isolates(LowestClear(16, m), m) && Fits(16, LowestClear(16, m))
  {
  }

  lemma LowestClear32(m: bv32)
    requires Fits(32, m) && m != Mask(32)
    ensures Isolates(LowestClear(32, m), m) && Fits(32, LowestClear(32, m))
  {
  }

  /** The found bit is the element's lowest clear one. */
  lemma LowestClearIs(w: nat, m: bv32)
    requires IsWidth(w) && Fits(w, m) && m != Mask(w)
    ensures Isolates(LowestClear(w, m), m) && Fits(w, LowestClear(w, m))
  {
    hide Mask, Fits, Isolates, LowestClear;
    if w == 8 {
      LowestClear8(m);
    } else if w == 16 {
      LowestClear16(m);
    } else {
      LowestClear32(m);
    }
  }

  /** The bit's position, found by shifting it out. */
  lemma IsolatedPosition(b: bv32, m: bv32, p: nat)
    requires Isolates(b, m) && p < 32 && b >> p == 1
    ensures b == One(p) && !Bit(m, p) && forall q: nat :: q < p ==> Bit(m, q)
  {
    assert b == One(p);
    forall q: nat | q < p
      ensures Bit(m, q)
    {
      BitBelow(m, p, q);
    }
    hide One;
    BitAbsent(m, p);
  }

  lemma BitBelow(m: bv32, p: nat, q: nat)
    requires q < p < 32 && FilledBelow(One(p), m)
    ensures Bit(m, q)
  {
    hide One, Bit, FilledBelow, ShiftedOne, OddAfter;
    AmountOrder(q, p);
    OneIs(p);
    BitBelowBv(m, One(p), p as bv6, q as bv6);
    BitIs(m, q);
  }

  function ShiftedOne(p: bv6): bv32
    requires p < 32
  {
    1 << p
  }

  predicate OddAfter(m: bv32, q: bv6)
    requires q < 32
  {
    (m >> q) & 1 == 1
  }

  lemma OneIs(p: nat)
    requires p < 32
    ensures (p as bv6) < 32 && One(p) == ShiftedOne(p as bv6)
  {
  }

  lemma BitIs(m: bv32, q: nat)
    requires q < 32
    ensures (q as bv6) < 32 && (Bit(m, q) <==> OddAfter(m, q as bv6))
  {
  }

  lemma AmountOrder(q: nat, p: nat)
    requires q < p < 32
    ensures (q as bv6) < (p as bv6) < 32
  {
  }

  lemma BitBelowBv(m: bv32, b: bv32, p: bv6, q: bv6)
    requires q < p < 32 && b == ShiftedOne(p) && FilledBelow(b, m)
    ensures OddAfter(m, q)
  {
  }

  lemma BitAbsent(m: bv32, p: nat)
    requires p < 32 && One(p) & m == 0
    ensures !Bit(m, p)
  {
  }

  // Population count: neighbouring fields of `k` bits are added, for k = 1, 2, 4, 8 and 16.

  predicate IsFieldWidth(k: nat) { k == 1 || k == 2 || k == 4 || k == 8 || k == 16 }

  function Stage1(x: bv32): bv32 { (x & 0x5555_5555) + ((x >> 1) & 0x5555_5555) }

  function Stage2(x: bv32): bv32 { (x & 0x3333_3333) + ((x >> 2) & 0x3333_3333) }

  function Stage4(x: bv32): bv32 { (x & 0x0F0F_0F0F) + ((x >> 4) & 0x0F0F_0F0F) }

  function Stage8(x: bv32): bv32 { (x & 0x00FF_00FF) + ((x >> 8) & 0x00FF_00FF) }

  function Stage16(x: bv32): bv32 { (x & 0x0000_FFFF) + ((x >> 16) & 0x0000_FFFF) }

  function Stage(k: nat, x: bv32): bv32
    requires IsFieldWidth(k)
  {
    if k == 1 then Stage1(x)
    else if k == 2 then Stage2(x)
    else if k == 4 then Stage4(x)
    else if k == 8 then Stage8(x)
    else Stage16(x)
  }

  /** `GetPopulatedBits(uint32_t)`. */
  function PopulatedBits32(x: bv32): bv32 { Stage16(Stage8(Stage4(Stage2(Stage1(x))))) }

  /** `GetPopulatedBits(uint16_t)`. */
  function PopulatedBits16(x: bv32): bv32
  {
    var x1 := (x & 0x5555) + ((x >> 1) & 0x5555);
    var x2 := (x1 & 0x3333) + ((x1 >> 2) & 0x3333);
    var x4 := (x2 & 0x0F0F) + ((x2 >> 4) & 0x0F0F);
    (x4 & 0x00FF) + ((x4 >> 8) & 0x00FF)
  }

  lemma Populated16Is32(x: bv32)
    requires x & 0xFFFF == x
    ensures PopulatedBits16(x) == PopulatedBits32(x)
  {
  }

  // The lowest field of `k` bits, and the fields above it.

  function Low1(x: bv32): bv32 { x & 1 }

  function Low2(x: bv32): bv32 { x & 0x3 }

  function Low4(x: bv32): bv32 { x & 0xF }

  function Low8(x: bv32): bv32 { x & 0xFF }

  function Low16(x: bv32): bv32 { x & 0xFFFF }

  function Field(k: nat, x: bv32): bv32
    requires IsFieldWidth(k)
  {
    if k == 1 then Low1(x)
    else if k == 2 then Low2(x)
    else if k == 4 then Low4(x)
    else if k == 8 then Low8(x)
    else Low16(x)
  }

  function Drop1(x: bv32): bv32 { x >> 1 }

  function Drop2(x: bv32): bv32 { x >> 2 }

  function Drop4(x: bv32): bv32 { x >> 4 }

  function Drop8(x: bv32): bv32 { x >> 8 }

  function Drop16(x: bv32): bv32 { x >> 16 }

  function Drop(k: nat, x: bv32): bv32
    requires IsFieldWidth(k)
  {
    if k == 1 then Drop1(x)
    else if k == 2 then Drop2(x)
    else if k == 4 then Drop4(x)
    else if k == 8 then Drop8(x)
    else Drop16(x)
  }

  function Add(a: bv32, b: bv32): bv32 { a + b }

  /** The sum of the `n` lowest fields. */
  function Sum(k: nat, x: bv32, n: nat): bv32
    requires IsFieldWidth(k)
    decreases n
  {
    if n == 0 then 0 else Add(Field(k, x), Sum(k, Drop(k, x), n - 1))
  }

  /** A stage leaves in each field of double width the sum of two fields. */
  ghost predicate Adds(k: nat, x: bv32)
    requires IsFieldWidth(k) && k < 16
  {
    && Field(2 * k, Stage(k, x)) == Add(Field(k, x), Field(k, Drop(k, x)))
    && Drop(2 * k, Stage(k, x)) == Stage(k, Drop(2 * k, x))
    && Drop(k, Drop(k, x)) == Drop(2 * k, x)
  }

  lemma Adds1(x: bv32)
    ensures Low2(Stage1(x)) == Add(Low1(x), Low1(Drop1(x)))
    ensures Drop2(Stage1(x)) == Stage1(Drop2(x))
    ensures Drop1(Drop1(x)) == Drop2(x)
  {
  }

  lemma Adds2(x: bv32)
    ensures Low4(Stage2(x)) == Add(Low2(x), Low2(Drop2(x)))
    ensures Drop4(Stage2(x)) == Stage2(Drop4(x))
    ensures Drop2(Drop2(x)) == Drop4(x)
  {
  }

  lemma Adds4(x: bv32)
    ensures Low8(Stage4(x)) == Add(Low4(x), Low4(Drop4(x)))
    ensures Drop8(Stage4(x)) == Stage4(Drop8(x))
    ensures Drop4(Drop4(x)) == Drop8(x)
  {
  }

  lemma Adds8(x: bv32)
    ensures Low16(Stage8(x)) == Add(Low8(x), Low8(Drop8(x)))
    ensures Drop16(Stage8(x)) == Stage8(Drop16(x))
    ensures Drop8(Drop8(x)) == Drop16(x)
  {
  }

  lemma StageAdds(k: nat, x: bv32)
    requires IsFieldWidth(k) && k < 16
    ensures Adds(k, x)
  {
    hide Low1, Low2, Low4, Low8, Low16, Drop1, Drop2, Drop4, Drop8, Drop16;
    hide Stage1, Stage2, Stage4, Stage8, Stage16, Add;
    if k == 1 {
      Adds1(x);
    } else if k == 2 {
      Adds2(x);
    } else if k == 4 {
      Adds4(x);
    } else {
      Adds8(x);
    }
  }

  lemma AddAssociates(a: bv32, b: bv32, c: bv32)
    ensures Add(a, Add(b, c)) == Add(Add(a, b), c) && Add(a, 0) == a
  {
    assert a + (b + c) == (a + b) + c;
  }

  lemma {:induction false} StageKeepsSum(k: nat, x: bv32, n: nat)
    requires IsFieldWidth(k) && k < 16
    ensures Sum(2 * k, Stage(k, x), n) == Sum(k, x, 2 * n)
    decreases n
  {
    hide Stage, Field, Drop, Add;
    if n > 0 {
      StageAdds(k, x);
      StageKeepsSum(k, Drop(2 * k, x), n - 1);
      AddAssociates(Field(k, x), Field(k, Drop(k, x)), Sum(k, Drop(2 * k, x), 2 * (n - 1)));
    }
  }

  lemma LastStage(y: bv32)
    ensures Stage16(y) == Add(Low16(y), Low16(Drop16(y)))
  {
  }

  /** Adding neighbouring fields, stage by stage, counts the bits. */
  lemma PopulatedIsSum(x: bv32)
    ensures PopulatedBits32(x) == Sum(1, x, 32)
  {
    hide Low1, Low2, Low4, Low8, Low16, Drop1, Drop2, Drop4, Drop8, Drop16;
    hide Stage1, Stage2, Stage4, Stage8, Stage16, Add;
    var x1 := Stage(1, x);
    var x2 := Stage(2, x1);
    var x4 := Stage(4, x2);
    var x8 := Stage(8, x4);
    StageKeepsSum(1, x, 16);
    StageKeepsSum(2, x1, 8);
    StageKeepsSum(4, x2, 4);
    StageKeepsSum(8, x4, 2);
    LastStage(x8);
    AddAssociates(Field(16, Drop(16, x8)), 0, 0);
    assert Sum(16, Drop(16, x8), 1) == Add(Field(16, Drop(16, x8)), 0);
  }

  /** Number of set bits among the `n` lowest. */
  function Ones(x: bv32, n: nat): nat
    requires n <= 32
  {
    if n == 0 then 0 else Ones(x, n - 1) + (if Bit(x, n - 1) then 1 else 0)
  }

  lemma LowField(x: bv32)
    ensures Low1(x) == if Bit(x, 0) then 1 else 0
  {
    assert x >> 0 == x;
    assert x & 1 == 0 || x & 1 == 1;
  }

  lemma DropBit(x: bv32, j: nat)
    requires j < 31
    ensures Bit(Drop1(x), j) == Bit(x, j + 1)
  {
    var y := (x >> 1) >> j;
    var z := x >> (j + 1);
    assert y == z by {
      ShiftNext(x, j);
    }
    SameLow(y, z);
  }

  lemma SameLow(y: bv32, z: bv32)
    requires y == z
    ensures (y & 1 == 1) == (z & 1 == 1)
  {
  }

  lemma {:induction false} OnesDrop(x: bv32, n: nat)
    requires n < 32
    ensures Ones(x, n + 1) == (if Bit(x, 0) then 1 else 0) + Ones(Drop1(x), n)
  {
    hide Bit, Drop1;
    if n > 0 {
      OnesDrop(x, n - 1);
      DropBit(x, n - 1);
    }
  }

  lemma CountUp(a: bv32, b: bv32, n: nat)
    requires a as nat <= n < 64 && (b == 0 || b == 1)
    ensures Add(b, a) as nat == (if b == 1 then 1 else 0) + (a as nat)
  {
    BelowSixtyFour(a);
  }

  lemma BelowSixtyFour(a: bv32)
    requires a as nat < 64
    ensures a < 64
  {
  }

  lemma {:induction false} SumIsOnes(x: bv32, n: nat)
    requires n <= 32
    ensures Sum(1, x, n) as nat == Ones(x, n) <= n
    decreases n
  {
    hide Bit, Drop1, Low1, Add;
    if n > 0 {
      SumIsOnes(Drop1(x), n - 1);
      OnesDrop(x, n - 1);
      LowField(x);
      CountUp(Sum(1, Drop1(x), n - 1), Low1(x), n - 1);
    }
  }

  /** `GetPopulatedBits` is the number of set bits. */
  lemma PopulatedBits(x: bv32)
    ensures PopulatedBits32(x) as nat == Ones(x, 32)
  {
    hide PopulatedBits32, Sum, Ones;
    PopulatedIsSum(x);
    SumIsOnes(x, 32);
  }

  /** Bits above the element's width do not count. */
  lemma {:induction false} OnesNarrow(x: bv32, n: nat)
    requires x & 0xFFFF == x && 16 <= n <= 32
    ensures Ones(x, n) == Ones(x, 16)
  {
    hide Bit;
    if n > 16 {
      OnesNarrow(x, n - 1);
      HighClear(x, n - 1);
    }
  }

  lemma HighClear(x: bv32, p: nat)
    requires 16 <= p < 32
    ensures x & 0xFFFF == x ==> !Bit(x, p)
  {
    MaskedHigh(x, p);
  }

  lemma MaskedHigh(x: bv32, p: nat)
    requires 16 <= p < 32
    ensures ((x & 0xFFFF) >> p) & 1 == 0
  {
  }

  /** `GetPopulatedBits` of an element of the map; there is no overload for `uint8_t`. */
  function Populated(w: nat, x: bv32): bv32
    requires w == 16 || w == 32
  {
    if w == 16 then PopulatedBits16(x) else PopulatedBits32(x)
  }

  lemma PopulatedElement(w: nat, x: bv32)
    requires (w == 16 || w == 32) && Fits(w, x)
    ensures Populated(w, x) as nat == Ones(x, w)
  {
    hide PopulatedBits16, PopulatedBits32, Ones;
    PopulatedBits(x);
    if w == 16 {
      Populated16Is32(x);
      OnesNarrow(x, 32);
    }
  }

  // Which element and which bit stand for a block.

  function Elem(b: nat, w: nat): nat
    requires w > 0
  {
    b / w
  }

  function Place(b: nat, w: nat): (p: nat)
    requires w > 0
    ensures p < w
  {
    b % w
  }

  function Block(i: nat, w: nat, p: nat): nat { i * w + p }

  lemma BlockPlace(i: nat, w: nat, p: nat)
    requires p < w
    ensures Elem(Block(i, w, p), w) == i && Place(Block(i, w, p), w) == p
  {
    ModUnique(Block(i, w, p), w, i, p);
  }

  lemma PlaceBlock(b: nat, w: nat)
    requires w > 0
    ensures Block(Elem(b, w), w, Place(b, w)) == b
  {
    ModDef(b, w);
  }

  /** Blocks are numbered element by element. */
  lemma BlockOrder(b: nat, i: nat, w: nat, p: nat)
    requires p < w && b < Block(i, w, p)
    ensures Elem(b, w) < i || (Elem(b, w) == i && Place(b, w) < p)
  {
    ModDef(b, w);
    if Elem(b, w) > i {
      MulAtLeast(Elem(b, w) - i, w);
    }
  }

  lemma ElemMonotone(b: nat, n: nat, w: nat)
    requires w > 0 && b <= n
    ensures Elem(b, w) <= n / w
  {
    ModDef(b, w);
    ModDef(n, w);
    if Elem(b, w) > n / w {
      MulAtLeast(Elem(b, w) - n / w, w);
    }
  }

  lemma FullBits(w: nat, p: nat)
    requires IsWidth(w) && p < w
    ensures Bit(Mask(w), p)
  {
  }

  lemma BitWithin(w: nat, p: nat)
    requires IsWidth(w) && p < 32 && Fits(w, One(p))
    ensures p < w
  {
  }

  // Shifting a bit out.

  lemma ShiftOnce(b: bv32, n: nat)
    requires n < 32
    ensures Half(Shifted(b, n)) == if n == 31 then 0 else Shifted(b, n + 1)
  {
    hide Half, Shifted;
    if n == 31 {
      ShiftLast(b);
    } else {
      ShiftedNext(b, n);
    }
  }

  lemma ShiftLast(b: bv32)
    ensures Half(Shifted(b, 31)) == 0
  {
  }

  lemma LastShift(b: bv32)
    requires b != 0 && Half(b) == 0
    ensures b == 1
  {
  }

  /** `while (bit2 >>= 1) ++bitPos`: the position of the highest set bit. */
  method BitPosition(bit: bv32) returns (bitPos: nat)
    requires bit != 0
    ensures bitPos < 32 && Shifted(bit, bitPos) == 1
  {
    hide Shifted, Half;
    bitPos := 0;
    var bit2 := Half(bit);
    assert Shifted(bit, 0) == bit by {
      ShiftedZero(bit);
    }
    while bit2 != 0
      invariant bitPos < 32 && bit2 == Half(Shifted(bit, bitPos)) && Shifted(bit, bitPos) != 0
      decreases 32 - bitPos
    {
      ShiftOnce(bit, bitPos);
      bitPos := bitPos + 1;
      bit2 := Half(bit2);
    }
    LastShift(Shifted(bit, bitPos));
  }

  // Counting live blocks.

  /** Number of members of `s` below `n`. */
  function Below(s: set<nat>, n: nat): nat
  {
    if n == 0 then 0 else Below(s, n - 1) + (if n - 1 in s then 1 else 0)
  }

  lemma {:induction false} BelowIsCardinality(s: set<nat>, n: nat)
    requires forall b :: b in s ==> b < n
    ensures Below(s, n) == |s|
  {
    if n == 0 {
      assert s == {};
    } else {
      var rest := s - {n - 1};
      BelowIsCardinality(rest, n - 1);
      BelowSame(s, rest, n - 1);
      if n - 1 in s {
        assert s == rest + {n - 1};
      } else {
        assert s == rest;
      }
    }
  }

  lemma {:induction false} BelowSame(s: set<nat>, t: set<nat>, n: nat)
    requires forall b: nat :: b < n ==> (b in s <==> b in t)
    ensures Below(s, n) == Below(t, n)
  {
    if n > 0 {
      BelowSame(s, t, n - 1);
    }
  }

  /** The bits of element `i` are the blocks from `i * w` on. */
  ghost predicate Mirrors(s: set<nat>, i: nat, w: nat, x: bv32)
    requires IsWidth(w)
  {
    forall b: nat :: Elem(b, w) == i ==> (b in s <==> Bit(x, Place(b, w)))
  }

  lemma {:induction false} BelowElement(s: set<nat>, i: nat, w: nat, x: bv32, n: nat)
    requires IsWidth(w) && n <= w && Mirrors(s, i, w, x)
    ensures Below(s, Block(i, w, n)) == Below(s, Block(i, w, 0)) + Ones(x, n)
  {
    hide Bit, Elem, Place;
    if n > 0 {
      BelowElement(s, i, w, x, n - 1);
      BlockPlace(i, w, n - 1);
      assert Block(i, w, n) == Block(i, w, n - 1) + 1;
    }
  }

  lemma BlockNext(i: nat, w: nat)
    ensures Block(i, w, w) == Block(i + 1, w, 0)
  {
  }

  /** The map `m` has a bit set for exactly the blocks of `s`. */
  ghost predicate Represents(m: seq<bv32>, w: nat, s: set<nat>)
    requires IsWidth(w)
  {
    forall i :: 0 <= i < |m| ==> Fits(w, m[i]) && Mirrors(s, i, w, m[i])
  }

  lemma Element(m: seq<bv32>, w: nat, s: set<nat>, i: nat)
    requires IsWidth(w) && Represents(m, w, s) && i < |m|
    ensures Fits(w, m[i]) && Mirrors(s, i, w, m[i])
  {
  }

  lemma NoneLive(m: seq<bv32>, w: nat)
    requires IsWidth(w) && forall i :: 0 <= i < |m| ==> m[i] == 0
    ensures Represents(m, w, {})
  {
    hide Mask, Bit, Elem, Place;
    ZeroFits(w);
    forall p: nat | p < 32
      ensures !Bit(0, p)
    {
      ZeroBits(p);
    }
  }

  /** Blocks of busy elements are live. */
  lemma FullElements(m: seq<bv32>, w: nat, s: set<nat>, n: nat)
    requires IsWidth(w) && Represents(m, w, s) && n <= |m|
    requires forall j :: 0 <= j < n ==> m[j] == Mask(w)
    ensures forall b: nat :: Elem(b, w) < n ==> b in s
  {
    hide Mask, Bit, Elem, Place;
    forall b: nat | Elem(b, w) < n
      ensures b in s
    {
      FullBits(w, Place(b, w));
      assert Mirrors(s, Elem(b, w), w, m[Elem(b, w)]);
    }
  }

  lemma ElementsCover(n: nat, w: nat)
    requires w > 0
    ensures forall b: nat :: b < n ==> Elem(b, w) < n / w + 1
  {
    hide Elem;
    forall b: nat | b < n
      ensures Elem(b, w) < n / w + 1
    {
      ElemMonotone(b, n, w);
    }
  }

  /** Everything below the found bit is live; its own block is not. */
  lemma LowerLive(m: seq<bv32>, w: nat, s: set<nat>, i: nat, p: nat)
    requires IsWidth(w) && Represents(m, w, s) && i < |m| && p < w
    requires forall b: nat :: Elem(b, w) < i ==> b in s
    requires !Bit(m[i], p) && forall q: nat :: q < p ==> Bit(m[i], q)
    ensures Block(i, w, p) !in s && forall b: nat :: b < Block(i, w, p) ==> b in s
  {
    hide Mask, Bit, Elem, Place, Block;
    assert Mirrors(s, i, w, m[i]);
    BlockPlace(i, w, p);
    forall b: nat | b < Block(i, w, p)
      ensures b in s
    {
      BlockOrder(b, i, w, p);
    }
  }

  lemma IsolatesNonZero(b: bv32, m: bv32)
    requires Isolates(b, m)
    ensures b != 0
  {
  }

  lemma IsolatedAt(b: bv32, m: bv32, p: nat)
    requires Isolates(b, m) && p < 32 && Shifted(b, p) == 1
    ensures b == One(p) && !Bit(m, p) && forall q: nat :: q < p ==> Bit(m, q)
  {
    hide Isolates, One, Bit;
    IsolatedPosition(b, m, p);
  }

  lemma BlockStart(s: set<nat>, w: nat)
    ensures Below(s, Block(0, w, 0)) == 0
  {
  }

  lemma Covers(n: nat, w: nat)
    requires w > 0
    ensures n < Block(n / w + 1, w, 0)
  {
    ModDef(n, w);
  }

  /** Blocks further on start at least one stride later. */
  lemma Spread(a: nat, b: nat, stride: nat)
    requires a < b
    ensures 0 <= a * stride && (a + 1) * stride == a * stride + stride <= b * stride
  {
    var d := b - a;
    assert b * stride == a * stride + d * stride;
    assert d * stride >= stride by {
      if stride > 0 {
        MulAtLeast(d, stride);
      }
    }
  }

  /** Setting a bit makes its block live, and no other. */
  lemma Marked(m: seq<bv32>, w: nat, s: set<nat>, i: nat, p: nat)
    requires IsWidth(w) && Represents(m, w, s) && i < |m| && p < w
    ensures Represents(m[i := With(m[i], One(p))], w, s + {Block(i, w, p)})
  {
    hide Bit, Elem, Place, Block, One, Fits, With, Without;
    BlockPlace(i, w, p);
    OneFits(w, p);
    WithFits(w, m[i], One(p));
    forall b: nat | Elem(b, w) == i
      ensures b in s + {Block(i, w, p)} <==> Bit(With(m[i], One(p)), Place(b, w))
    {
      SetBit(m[i], p, Place(b, w));
      PlaceBlock(b, w);
      assert Mirrors(s, i, w, m[i]);
    }
    forall j | 0 <= j < |m| && j != i
      ensures Mirrors(s + {Block(i, w, p)}, j, w, m[j])
    {
      assert Mirrors(s, j, w, m[j]);
    }
  }

  /** Clearing a bit frees its block, and no other. */
  lemma Unmarked(m: seq<bv32>, w: nat, s: set<nat>, block: nat)
    requires IsWidth(w) && Represents(m, w, s) && Elem(block, w) < |m|
    ensures Represents(m[Elem(block, w) := Without(m[Elem(block, w)], One(Place(block, w)))], w, s - {block})
  {
    hide Bit, Elem, Place, One, Fits, With, Without;
    var i, p := Elem(block, w), Place(block, w);
    PlaceBlock(block, w);
    WithoutFits(w, m[i], One(p));
    forall b: nat | Elem(b, w) == i
      ensures b in s - {block} <==> Bit(Without(m[i], One(p)), Place(b, w))
    {
      ClearBit(m[i], p, Place(b, w));
      PlaceBlock(b, w);
      assert Mirrors(s, i, w, m[i]);
    }
    forall j | 0 <= j < |m| && j != i
      ensures Mirrors(s - {block}, j, w, m[j])
    {
      assert Mirrors(s, j, w, m[j]);
    }
  }

  /**
   * When the exchange of a map element succeeds, the block it claims is free at that moment and becomes live, and no
   * other changes; it does not matter how often the element changed since it was read.
   */
  lemma ExchangeClaims(m: seq<bv32>, w: nat, s: set<nat>, i: nat, mapElem: bv32, p: nat)
    requires IsWidth(w) && Represents(m, w, s) && i < |m| && mapElem != Mask(w)
    requires p < 32 && Shifted(LowestClear(w, mapElem), p) == 1
    requires m[i] == mapElem
    ensures p < w && Block(i, w, p) !in s
    ensures Represents(m[i := With(mapElem, LowestClear(w, mapElem))], w, s + {Block(i, w, p)})
  {
    hide Mask, Bit, Elem, Place, Block, Isolates, LowestClear, One, Shifted, Fits, With;
    assert Fits(w, mapElem) && Mirrors(s, i, w, mapElem) by {
      Element(m, w, s, i);
    }
    LowestClearIs(w, mapElem);
    IsolatedAt(LowestClear(w, mapElem), mapElem, p);
    BitWithin(w, p);
    BlockPlace(i, w, p);
    Marked(m, w, s, i, p);
  }

  /** The pool: block `b` is the bit `Place(b)` of the map element `Elem(b)`, and `stride` bytes from `b * stride`. */
  class Pool {
    const width: nat
    const blocks: nat
    const stride: nat
    const bitmap: array<bv32>
    ghost var live: set<nat>

    ghost predicate Sized()
    {
      IsWidth(width) && stride > 0 && bitmap.Length == blocks / width + 1
    }

    ghost predicate Valid()
      reads this, bitmap
    {
      && Sized()
      && Represents(bitmap[..], width, live)
      && (forall b :: b in live ==> b < blocks)
    }

    constructor (width: nat, blocks: nat, stride: nat)
      requires IsWidth(width) && stride > 0
      ensures this.width == width && this.blocks == blocks && this.stride == stride && fresh(bitmap)
      ensures Valid() && live == {}
    {
      this.width, this.blocks, this.stride := width, blocks, stride;
      bitmap := new bv32[blocks / width + 1];
      new;
      FreeAll();
    }

    method FreeAll()
      requires Sized()
      modifies this`live, bitmap
      ensures Valid() && live == {}
    {
      var i := 0;
      while i < bitmap.Length
        invariant 0 <= i <= bitmap.Length
        invariant forall j :: 0 <= j < i ==> bitmap[j] == 0
      {
        bitmap[i] := 0;
        i := i + 1;
      }
      live := {};
      NoneLive(bitmap[..], width);
    }

    /** The lowest block that is not live, or null when all are live. */
    method Alloc() returns (block: Option<nat>)
      requires Valid()
      modifies this`live, bitmap
      ensures Valid()
      ensures block.None? <==> forall b :: 0 <= b < blocks ==> b in old(live)
      ensures block.None? ==> live == old(live)
      ensures block.Some? ==> block.value < blocks && block.value !in old(live) && live == old(live) + {block.value}
      ensures block.Some? ==> forall b :: 0 <= b < block.value ==> b in old(live)
    {
      hide Mask, Bit, Elem, Place, Block, Isolates, LowestClear, One, Shifted, Represents, Fits, With, Without;
      var i := 0;
      while i < bitmap.Length && bitmap[i] == Mask(width)
        invariant 0 <= i <= bitmap.Length
        invariant forall j :: 0 <= j < i ==> bitmap[j] == Mask(width)
      {
        i := i + 1;
      }
      FullElements(bitmap[..], width, live, i);
      if i == bitmap.Length {
        ElementsCover(blocks, width);
        return None;
      }
      var mapElem := bitmap[i];
      Element(bitmap[..], width, live, i);
      var bit := LowestClear(width, mapElem);
      LowestClearIs(width, mapElem);
      IsolatesNonZero(bit, mapElem);
      var bitPos := BitPosition(bit);
      IsolatedAt(bit, mapElem, bitPos);
      BitWithin(width, bitPos);
      LowerLive(bitmap[..], width, live, i, bitPos);
      var index := Block(i, width, bitPos);
      if index >= blocks {
        return None;
      }
      Marked(bitmap[..], width, live, i, bitPos);
      bitmap[i] := With(mapElem, bit);
      live := live + {index};
      return Some(index);
    }

    /** The address of a block, counted in bytes from the first. */
    ghost predicate Starts(offset: int, block: nat)
    {
      block < blocks && offset == block * stride
    }

    /**
     * Frees the block that starts at an address. An address outside the pool is ignored; the one just past it is not,
     * but frees nothing. The difference of pointers is only defined for whole blocks.
     */
    method Free(offset: int) returns (defined: bool)
      requires Valid()
      modifies this`live, bitmap
      ensures defined <==> !IsInPool(offset) || offset == Elem(offset, stride) * stride
      ensures defined ==> Valid()
      ensures forall b: nat :: Starts(offset, b) ==> defined && live == old(live) - {b}
      ensures defined && (forall b: nat :: !Starts(offset, b)) ==> live == old(live)
    {
      hide Mask, Bit, Elem, Place, Block, One, Represents, With, Without;
      if !IsInPool(offset) {
        OutsideHasNone(offset);
        return true;
      }
      var blockIndex := Elem(offset, stride);
      AddressBlock(offset);
      if offset != blockIndex * stride {
        return false;
      }
      assert blockIndex < blocks ==> Starts(offset, blockIndex);
      var mapIndex := Elem(blockIndex, width);
      var bitPos := Place(blockIndex, width);
      ElemMonotone(blockIndex, blocks, width);
      Unmarked(bitmap[..], width, live, blockIndex);
      bitmap[mapIndex] := Without(bitmap[mapIndex], One(bitPos));
      live := live - {blockIndex};
      return true;
    }

    predicate IsInPool(offset: int)
    {
      !(offset < 0 || offset > blocks * stride)
    }

    lemma OutsideHasNone(offset: int)
      requires Sized() && !IsInPool(offset)
      ensures forall b: nat :: !Starts(offset, b)
    {
      forall b: nat | b < blocks
        ensures !Starts(offset, b)
      {
        Spread(b, blocks, stride);
      }
    }

    /** The block index computed from an address in the pool is that of the block starting there. */
    lemma AddressBlock(offset: nat)
      requires Sized() && IsInPool(offset)
      ensures Elem(offset, stride) <= blocks
      ensures forall b: nat :: Starts(offset, b) ==> b == Elem(offset, stride)
    {
      var q := Elem(offset, stride);
      ModDef(offset, stride);
      if q > blocks {
        Spread(blocks, q, stride);
      }
      forall b: nat | Starts(offset, b)
        ensures b == q
      {
        ModUnique(offset, stride, b, 0);
      }
    }

    /** The number of live blocks, counted from the map. */
    method UsedBlocks() returns (used: nat)
      requires Valid() && width != 8
      ensures used == |live|
    {
      hide Mask, Bit, Elem, Place, Block, Populated, Below, Ones, Represents, Mirrors, Fits;
      used := 0;
      var i := 0;
      BlockStart(live, width);
      while i < bitmap.Length
        invariant 0 <= i <= bitmap.Length
        invariant used == Below(live, Block(i, width, 0))
      {
        Element(bitmap[..], width, live, i);
        PopulatedElement(width, bitmap[i]);
        BelowElement(live, i, width, bitmap[i], width);
        BlockNext(i, width);
        used := used + Populated(width, bitmap[i]) as nat;
        i := i + 1;
      }
      Covers(blocks, width);
      BelowIsCardinality(live, Block(bitmap.Length, width, 0));
    }
  }
}
