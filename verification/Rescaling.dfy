/**
  Conversion of scaled integers between decimal precisions, as the wire formats do it: multiply
  to gain digits, divide truncating toward zero to lose them, in signed 64-bit arithmetic.
  */
module Rescaling {
  import opened Arithmetic
  import opened Bytes

  const WIRE_PRECISION: nat := 8

  /** The largest power of ten that fits a signed 64-bit integer is 10^18. */
  const MAX_DIGITS: nat := 18

  function Pow10(n: nat): (p: nat)
    ensures p > 0
  {
    if n == 0 then 1 else 10 * Pow10(n - 1)
  }

  /** Two's complement wrap-around of an overflowing result. */
  function Wrapped(x: int): (w: int)
    ensures IsI64(w)
  {
    (x + TWO_63) % TWO_64 - TWO_63
  }

  /** Division truncating toward zero. */
  function Truncated(x: int, d: nat): int
    requires d > 0
  {
    if x >= 0 then x / d else -((-x) / d)
  }

  /** Beyond MAX_DIGITS digits apart the power itself overflows. */
  predicate Convertible(from: nat, to: nat) {
    from <= to + MAX_DIGITS && to <= from + MAX_DIGITS
  }

  function Rescale(x: int, from: nat, to: nat): int
    requires Convertible(from, to)
  {
    if from == to then x
    else if from < to then Wrapped(x * Pow10(to - from))
    else Truncated(x, Pow10(from - to))
  }

  /** Gaining digits does not overflow. */
  predicate Fits(x: int, from: nat, to: nat)
    requires from <= to
  {
    IsI64(x * Pow10(to - from))
  }

  lemma WrappedIff(x: int)
    ensures Wrapped(x) == x <==> IsI64(x)
  {
  }

  /** Gaining digits is exact exactly when it does not overflow. */
  lemma GainIsExactIff(x: int, from: nat, to: nat)
    requires from <= to && Convertible(from, to) && IsI64(x)
    ensures Rescale(x, from, to) == x * Pow10(to - from) <==> Fits(x, from, to)
  {
    WrappedIff(x * Pow10(to - from));
  }

  lemma {:induction false} ScaledOrder(x: int, y: int, p: nat)
    requires p > 0
    ensures x < y <==> x * p < y * p
  {
    if p > 1 {
      ScaledOrder(x, y, p - 1);
      assert x * p == x * (p - 1) + x && y * p == y * (p - 1) + y;
    }
  }

  /** Gaining digits keeps strict order both ways. */
  lemma GainKeepsOrder(x: int, y: int, from: nat, to: nat)
    requires from <= to && Convertible(from, to)
    requires IsI64(x) && IsI64(y) && Fits(x, from, to) && Fits(y, from, to)
    ensures Rescale(x, from, to) < Rescale(y, from, to) <==> x < y
  {
    GainIsExactIff(x, from, to);
    GainIsExactIff(y, from, to);
    ScaledOrder(x, y, Pow10(to - from));
  }

  lemma QuotientMonotone(x: nat, y: nat, d: nat)
    requires d > 0 && x <= y
    ensures x / d <= y / d
  {
    assert x == x / d * d + x % d && y == y / d * d + y % d;
    assert (x / d - y / d) * d == x / d * d - y / d * d;
    AtLeastOneMultiple(x / d - y / d, d);
  }

  lemma TruncatedMonotone(x: int, y: int, d: nat)
    requires d > 0 && x <= y
    ensures Truncated(x, d) <= Truncated(y, d)
  {
    if x >= 0 {
      QuotientMonotone(x, y, d);
    } else if y < 0 {
      QuotientMonotone(-y, -x, d);
    } else {
      QuotientMonotone(0, -x, d);
      QuotientMonotone(0, y, d);
      ZeroQuotient(d);
    }
  }

  lemma ZeroQuotient(d: nat)
    requires d > 0
    ensures 0 / d == 0
  {
  }

  /** Losing digits keeps order weakly. */
  lemma LossIsMonotone(x: int, y: int, from: nat, to: nat)
    requires from > to && Convertible(from, to) && x <= y
    ensures Rescale(x, from, to) <= Rescale(y, from, to)
  {
    TruncatedMonotone(x, y, Pow10(from - to));
  }

  lemma TruncatedError(x: int, d: nat)
    requires d > 0
    ensures if x >= 0 then 0 <= x - Truncated(x, d) * d < d else 0 <= Truncated(x, d) * d - x < d
    ensures if x >= 0 then 0 <= Truncated(x, d) * d <= x else x <= Truncated(x, d) * d <= 0
    ensures Truncated(x, d) * d == x <==> x % d == 0
  {
    if x >= 0 {
      DivisionFacts(x, d);
    } else {
      DivisionFacts(-x, d);
      NegatedRemainder(-x, d);
      NegatedProduct((-x) / d, d);
    }
  }

  lemma NegatedProduct(a: int, b: int)
    ensures (-a) * b == -(a * b)
  {
  }

  lemma DivisionFacts(n: nat, d: nat)
    requires d > 0
    ensures 0 <= n / d * d <= n && n - n / d * d < d
    ensures n / d * d == n <==> n % d == 0
  {
    assert n == n / d * d + n % d;
    ZeroQuotient(d);
    QuotientMonotone(0, n, d);
    AtLeastOneMultiple(n / d, d);
  }

  /** Losing digits errs by less than one unit, and toward zero. */
  lemma LossErrsByLessThanOneUnit(x: int, from: nat, to: nat)
    requires from > to && Convertible(from, to)
    ensures var d := Pow10(from - to); var r := Rescale(x, from, to);
      if x >= 0 then 0 <= x - r * d < d else 0 <= r * d - x < d
  {
    TruncatedError(x, Pow10(from - to));
  }

  /** Gaining digits and losing them again is the identity. */
  lemma GainThenLossIsIdentity(x: int, from: nat, to: nat)
    requires from < to && Convertible(from, to) && IsI64(x) && Fits(x, from, to)
    ensures Rescale(Rescale(x, from, to), to, from) == x
  {
    var p := Pow10(to - from);
    GainIsExactIff(x, from, to);
    if x >= 0 {
      QuotientOfMultiple(x, p);
    } else {
      QuotientOfMultiple(-x, p);
      assert -(x * p) == (-x) * p;
      ScaledOrder(x, 0, p);
    }
  }

  lemma QuotientOfMultiple(x: nat, p: nat)
    requires p > 0
    ensures x * p >= 0 && x * p / p == x
  {
    RemainderUnique(x * p, x, 0, p);
    assert (x * p / p - x) * p == 0;
    ScaledOrder(x * p / p, x, p);
    ScaledOrder(x, x * p / p, p);
  }

  lemma NegatedRemainder(n: nat, d: nat)
    requires d > 0
    ensures (0 - n) % d == 0 <==> n % d == 0
  {
    var a, b := n / d, (0 - n) / d;
    assert n == a * d + n % d && 0 - n == b * d + (0 - n) % d;
    assert (a + b) * d == a * d + b * d;
    assert (-(a + b)) * d == -((a + b) * d);
    AtLeastOneMultiple(-(a + b), d);
    AtLeastOneMultiple(a + b, d);
    AtLeastOneMultiple(-(a + b) - 1, d);
    assert (-(a + b) - 1) * d == (-(a + b)) * d - d;
  }

  /** Losing digits is undone by gaining them exactly when nothing was cut off. */
  lemma LossIsReversibleIff(x: int, from: nat, to: nat)
    requires from > to && Convertible(from, to) && IsI64(x)
    ensures Rescale(Rescale(x, from, to), to, from) == x <==> x % Pow10(from - to) == 0
  {
    var d := Pow10(from - to);
    TruncatedError(x, d);
    WrappedIff(Truncated(x, d) * d);
  }

  lemma {:induction false} ScaledMagnitude(r: int, d: nat)
    requires d > 0
    ensures if r >= 0 then r <= r * d else r * d <= r
  {
    if d > 1 {
      ScaledMagnitude(r, d - 1);
      assert r * d == r * (d - 1) + r;
    }
  }

  lemma RescaledIsI64(x: int, from: nat, to: nat)
    requires IsI64(x) && Convertible(from, to)
    ensures IsI64(Rescale(x, from, to))
  {
    if from > to {
      TruncatedError(x, Pow10(from - to));
      ScaledMagnitude(Truncated(x, Pow10(from - to)), Pow10(from - to));
    }
  }

  // ---- numbers -----------------------------------------------------------------------------

  lemma PowersOfTen()
    ensures Pow10(0) == 1 && Pow10(2) == 100 && Pow10(8) == 100_000_000
    ensures Pow10(MAX_DIGITS) == 1_000_000_000_000_000_000 && IsI64(Pow10(18)) && !IsI64(Pow10(19))
  {
    assert Pow10(1) == 10 && Pow10(3) == 1000 && Pow10(4) == 1_0000 && Pow10(5) == 10_0000;
    assert Pow10(6) == 100_0000 && Pow10(7) == 1000_0000 && Pow10(9) == 10_0000_0000;
    assert Pow10(10) == 100_0000_0000 && Pow10(11) == 1000_0000_0000 && Pow10(12) == 1_0000_0000_0000;
    assert Pow10(13) == 10_0000_0000_0000 && Pow10(14) == 100_0000_0000_0000 && Pow10(15) == 1000_0000_0000_0000;
    assert Pow10(16) == 1_0000_0000_0000_0000 && Pow10(17) == 10_0000_0000_0000_0000;
  }

  /** An overflowing result keeps the 64 low bits. */
  lemma WrappedKeepsLowBits(x: int)
    ensures IsI64(Wrapped(x)) && exists k :: x == Wrapped(x) + k * TWO_64
  {
    var y := x + TWO_63;
    assert y == y / TWO_64 * TWO_64 + y % TWO_64;
    assert x == Wrapped(x) + (y / TWO_64) * TWO_64;
  }

  /** One level at precision 10 and at precision 6, brought to precision 8. */
  lemma TwoDigitsEitherWay(x: int)
    ensures Rescale(x, 8, 8) == x
    ensures IsI64(x * 100) ==> Rescale(x, 6, 8) == x * 100
    ensures Rescale(x, 10, 8) == if x >= 0 then x / 100 else -((-x) / 100)
  {
    PowersOfTen();
    WrappedIff(x * 100);
  }
}
