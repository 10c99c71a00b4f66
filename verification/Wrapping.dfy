/** Index arithmetic of ring buffers: what one step of % does, and when two slots coincide. */
module Wrapping {
  import opened Arithmetic

  /** The slot i places after head in a ring of n slots. */
  function Slot(head: nat, i: nat, n: nat): nat
    requires head < n && i <= n
  {
    if head + i < n then head + i else head + i - n
  }

  lemma WrapOnce(x: nat, n: nat)
    requires x < 2 * n
    ensures x % n == if x < n then x else x - n
  {
    if x < n {
      RemainderUnique(x, 0, x, n);
    } else {
      RemainderUnique(x, 1, x - n, n);
    }
  }

  /** The slot of running count b, seen from the slot of an earlier count a. */
  lemma SlotOfCount(a: nat, b: nat, n: nat)
    requires n > 0 && a <= b <= a + n
    ensures b % n == Slot(a % n, b - a, n)
  {
    var q, r := a / n, a % n;
    assert a == q * n + r;
    if r + (b - a) < n {
      RemainderUnique(b, q, r + (b - a), n);
    } else {
      assert (q + 1) * n == q * n + n;
      RemainderUnique(b, q + 1, r + (b - a) - n, n);
    }
  }
}
