/** The few facts of division the other modules share. */
module Arithmetic {

  lemma {:induction false} AtLeastOneMultiple(k: int, n: nat)
    ensures k > 0 ==> k * n >= n
  {
    if k > 1 {
      AtLeastOneMultiple(k - 1, n);
      assert k * n == (k - 1) * n + n;
    }
  }

  lemma RemainderUnique(y: nat, q: nat, r: nat, n: nat)
    requires r < n && y == q * n + r
    ensures y % n == r
  {
    var q', r' := y / n, y % n;
    assert y == q' * n + r';
    assert (q - q') * n == q * n - q' * n;
    assert (q' - q) * n == q' * n - q * n;
    AtLeastOneMultiple(q - q', n);
    AtLeastOneMultiple(q' - q, n);
  }

  lemma QuotientUnique(y: nat, q: nat, r: nat, n: nat)
    requires n > 0 && y == q * n + r && r < n
    ensures y / n == q
  {
    RemainderUnique(y, q, r, n);
    assert y == y / n * n + y % n;
    assert (y / n - q) * n == 0;
    AtLeastOneMultiple(y / n - q, n);
    AtLeastOneMultiple(q - y / n, n);
    assert (q - y / n) * n == -((y / n - q) * n);
  }
}
