/** Residues of consecutive numbers, for cyclic indices. */
module Modular {

  lemma ModDef(k: int, n: int)
    requires n > 0
    ensures k == (k / n) * n + k % n && 0 <= k % n < n
  {
  }

  lemma ModUnique(k: int, n: int, q: int, r: int)
    requires n > 0 && k == q * n + r && 0 <= r < n
    ensures k % n == r && k / n == q
  {
    ModDef(k, n);
    var d := q - k / n;
    assert d * n == k % n - r;
    if d >= 1 {
      MulAtLeast(d, n);
    }
    if d <= -1 {
      MulAtLeast(-d, n);
      NegMul(d, n);
    }
  }

  lemma MulAtLeast(d: int, n: int)
    requires d >= 1 && n > 0
    ensures d * n >= n
  {
  }

  lemma NegMul(d: int, n: int)
    ensures (-d) * n == -(d * n)
  {
  }

  /** The slot of the `k`-th value in a buffer of `n` slots. */
  function Slot(k: int, n: int): (i: nat)
    requires n > 0
    ensures i < n
  {
    ModDef(k, n);
    k % n
  }

  /** The next slot: wrap to zero at the end. */
  lemma SlotNext(k: int, n: int)
    requires n > 0
    ensures Slot(k + 1, n) == if Slot(k, n) + 1 == n then 0 else Slot(k, n) + 1
  {
    ModDef(k, n);
    if k % n + 1 == n {
      Next(k / n, n);
      ModUnique(k + 1, n, k / n + 1, 0);
    } else {
      ModUnique(k + 1, n, k / n, k % n + 1);
    }
  }

  lemma Next(q: int, n: int)
    ensures (q + 1) * n == q * n + n
  {
  }

  /** Fewer than `n` consecutive values lie in different slots. */
  lemma SlotsDistinct(j: int, k: int, n: int)
    requires n > 0 && j < k < j + n
    ensures Slot(j, n) != Slot(k, n)
  {
    ModDef(j, n);
    ModDef(k, n);
    if j % n == k % n {
      var d := k / n - j / n;
      assert d * n == k - j;
      if d >= 1 {
        MulAtLeast(d, n);
      }
      if d <= 0 {
        MulNonPositive(d, n);
      }
      assert false;
    }
  }

  lemma MulNonPositive(d: int, n: int)
    requires d <= 0 && n > 0
    ensures d * n <= 0
  {
  }

  lemma SlotSmall(k: int, n: int)
    requires 0 <= k < n
    ensures Slot(k, n) == k
  {
    ModUnique(k, n, 0, k);
  }

  /** Reducing an index first does not change where an offset from it leads. */
  lemma {:induction false} SlotShift(k: int, i: nat, n: int)
    requires n > 0
    ensures Slot(Slot(k, n) + i, n) == Slot(k + i, n)
    decreases i
  {
    if i == 0 {
      SlotSmall(Slot(k, n), n);
    } else {
      SlotShift(k, i - 1, n);
      SlotNext(Slot(k, n) + i - 1, n);
      SlotNext(k + i - 1, n);
    }
  }
}
