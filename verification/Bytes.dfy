/** Bytes, fixed-width integers in both byte orders, and two's complement. */
module Bytes {
  import opened Arithmetic

  type byte = b: int | 0 <= b < 256

  const TWO_63: int := 0x8000_0000_0000_0000
  const TWO_64: int := 0x1_0000_0000_0000_0000

  predicate IsI64(x: int) {
    -TWO_63 <= x < TWO_63
  }

  predicate IsU64(x: int) {
    0 <= x < TWO_64
  }

  /** 256 to the n. */
  function Width(n: nat): (w: nat)
    ensures w > 0
  {
    if n == 0 then 1 else 256 * Width(n - 1)
  }

  /** The n low bytes of x, most significant first. */
  function ToBE(x: nat, n: nat): (bs: seq<byte>)
    ensures |bs| == n
  {
    if n == 0 then [] else ToBE(x / 256, n - 1) + [x % 256]
  }

  function FromBE(bs: seq<byte>): (x: nat)
    ensures x < Width(|bs|)
  {
    if bs == [] then 0 else FromBE(bs[..|bs| - 1]) * 256 + bs[|bs| - 1]
  }

  /** The n low bytes of x, least significant first. */
  function ToLE(x: nat, n: nat): (bs: seq<byte>)
    ensures |bs| == n
  {
    if n == 0 then [] else [x % 256] + ToLE(x / 256, n - 1)
  }

  function FromLE(bs: seq<byte>): (x: nat)
    ensures x < Width(|bs|)
  {
    if bs == [] then 0 else bs[0] + 256 * FromLE(bs[1..])
  }

  lemma {:induction false} BERoundTrip(x: nat, n: nat)
    ensures FromBE(ToBE(x, n)) == x % Width(n)
    ensures x < Width(n) ==> FromBE(ToBE(x, n)) == x
  {
    if n > 0 {
      BERoundTrip(x / 256, n - 1);
      ModOfQuotient(x, Width(n - 1));
    }
  }

  lemma {:induction false} LERoundTrip(x: nat, n: nat)
    ensures FromLE(ToLE(x, n)) == x % Width(n)
    ensures x < Width(n) ==> FromLE(ToLE(x, n)) == x
  {
    if n > 0 {
      LERoundTrip(x / 256, n - 1);
      ModOfQuotient(x, Width(n - 1));
    }
  }

  /** Splitting off the low byte commutes with reduction. */
  lemma ModOfQuotient(x: nat, w: nat)
    requires w > 0
    ensures x % (256 * w) == x / 256 % w * 256 + x % 256
    ensures x < 256 * w ==> x / 256 < w
  {
    var q, r := x / 256 / w, x / 256 % w;
    assert x / 256 == q * w + r;
    assert x == q * (256 * w) + (r * 256 + x % 256) by {
      assert (q * w + r) * 256 == q * (256 * w) + r * 256;
    }
    RemainderUnique(x, q, r * 256 + x % 256, 256 * w);
  }

  /** The bit pattern of a signed 64-bit integer, read as unsigned. */
  function Unsigned(x: int): (u: nat)
    requires IsI64(x)
    ensures IsU64(u)
  {
    if x < 0 then x + TWO_64 else x
  }

  function Signed(u: nat): (x: int)
    requires IsU64(u)
    ensures IsI64(x) && Unsigned(x) == u
  {
    if u >= TWO_63 then u - TWO_64 else u
  }

  lemma Width8()
    ensures Width(8) == TWO_64
  {
    assert Width(1) == 256 && Width(2) == 0x1_0000 && Width(3) == 0x100_0000;
    assert Width(4) == 0x1_0000_0000 && Width(5) == 0x100_0000_0000;
    assert Width(6) == 0x1_0000_0000_0000 && Width(7) == 0x100_0000_0000_0000;
  }

  /** Sixteen bytes to a pair of 64-bit integers. */
  function Extent(count: nat): nat {
    16 * count
  }

  lemma MiddleSlice(a: seq<byte>, b: seq<byte>, c: seq<byte>)
    ensures (a + (b + c))[|a|..|a| + |b|] == b && a + (b + c) == (a + b) + c
  {
  }

  lemma QuotientOfQuotient(x: nat, w: nat)
    requires w > 0
    ensures x / 256 / w == x / (256 * w)
  {
    var q, r := x / 256 / w, x / 256 % w;
    assert x / 256 == q * w + r;
    assert x == q * (256 * w) + (r * 256 + x % 256) by {
      assert (q * w + r) * 256 == q * (256 * w) + r * 256;
    }
    QuotientUnique(x, q, r * 256 + x % 256, 256 * w);
  }

  /** Byte i of n, most significant first, counts multiples of 256 to the n - 1 - i. */
  lemma {:induction false} BEByte(x: nat, n: nat, i: nat)
    requires i < n
    ensures ToBE(x, n)[i] == x / Width(n - 1 - i) % 256
    decreases n
  {
    if i < n - 1 {
      BEByte(x / 256, n - 1, i);
      QuotientOfQuotient(x, Width(n - 2 - i));
    }
  }

  /** Byte i, least significant first, counts multiples of 256 to the i. */
  lemma {:induction false} LEByte(x: nat, n: nat, i: nat)
    requires i < n
    ensures ToLE(x, n)[i] == x / Width(i) % 256
    decreases n
  {
    if i > 0 {
      LEByte(x / 256, n - 1, i - 1);
      QuotientOfQuotient(x, Width(i - 1));
    }
  }

  lemma ByteOrder()
    ensures ToBE(258, 2) == [1, 2] && ToLE(258, 2) == [2, 1]
  {
    assert ToBE(1, 1) == ToBE(0, 0) + [1] && ToLE(1, 1) == [1] + ToLE(0, 0);
  }

  /** Negative numbers in two's complement. */
  lemma TwosComplement()
    ensures Unsigned(-1) == 0xFFFF_FFFF_FFFF_FFFF && Signed(0xFFFF_FFFF_FFFF_FFFF) == -1
    ensures Unsigned(-TWO_63) == 0x8000_0000_0000_0000 && Signed(0x7FFF_FFFF_FFFF_FFFF) == TWO_63 - 1
  {
  }
}
