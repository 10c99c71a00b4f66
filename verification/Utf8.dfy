/** Well-formed UTF-8, as section 3.9 of the Unicode standard defines it (table 3-7). */
module Utf8 {
  import opened Bytes

  predicate Continues(b: byte) {
    0x80 <= b <= 0xBF
  }

  /** The second byte a leading byte of a three- or four-byte character allows. */
  predicate SecondFits(first: byte, second: byte) {
    if first == 0xE0 then 0xA0 <= second <= 0xBF
    else if first == 0xED then 0x80 <= second <= 0x9F
    else if first == 0xF0 then 0x90 <= second <= 0xBF
    else if first == 0xF4 then 0x80 <= second <= 0x8F
    else Continues(second)
  }

  /** The length of the well-formed character bs starts with, 0 if there is none. */
  function CharLength(bs: seq<byte>): (n: nat)
    ensures n <= |bs| && n <= 4
  {
    if bs == [] then 0
    else if bs[0] <= 0x7F then 1
    else if 0xC2 <= bs[0] <= 0xDF then if |bs| >= 2 && Continues(bs[1]) then 2 else 0
    else if 0xE0 <= bs[0] <= 0xEF then
      if |bs| >= 3 && SecondFits(bs[0], bs[1]) && Continues(bs[2]) then 3 else 0
    else if 0xF0 <= bs[0] <= 0xF4 then
      if |bs| >= 4 && SecondFits(bs[0], bs[1]) && Continues(bs[2]) && Continues(bs[3]) then 4 else 0
    else 0
  }

  predicate IsUtf8(bs: seq<byte>) {
    bs == [] || (CharLength(bs) > 0 && IsUtf8(bs[CharLength(bs)..]))
  }

  // ---- what the well-formed texts are --------------------------------------------------------

  /** A Unicode scalar value: any code point but the surrogates. */
  predicate IsScalar(c: nat) {
    c <= 0x10_FFFF && !(0xD800 <= c <= 0xDFFF)
  }

  /** Its one to four bytes. */
  function Encoded(c: nat): (bs: seq<byte>)
    requires IsScalar(c)
  {
    if c < 0x80 then [c]
    else if c < 0x800 then [0xC0 + c / 64, 0x80 + c % 64]
    else if c < 0x1_0000 then [0xE0 + c / 4096, 0x80 + c / 64 % 64, 0x80 + c % 64]
    else [0xF0 + c / 262144, 0x80 + c / 4096 % 64, 0x80 + c / 64 % 64, 0x80 + c % 64]
  }

  ghost predicate AllScalars(cs: seq<nat>) {
    forall i :: 0 <= i < |cs| ==> IsScalar(cs[i])
  }

  function EncodedAll(cs: seq<nat>): seq<byte>
    requires AllScalars(cs)
  {
    if cs == [] then [] else Encoded(cs[0]) + EncodedAll(cs[1..])
  }

  lemma EncodedIsOneCharacter(c: nat, rest: seq<byte>)
    requires IsScalar(c)
    ensures 0 < |Encoded(c)| == CharLength(Encoded(c) + rest)
  {
    var bs, own := Encoded(c) + rest, Encoded(c);
    assert forall i :: 0 <= i < |own| ==> bs[i] == own[i];
    TwiceSixBits(c);
    ThriceSixBits(c);
  }

  /** Splitting off the last six bits. */
  lemma SixBits(a: nat, d: nat)
    requires d < 64
    ensures (a * 64 + d) / 64 == a && (a * 64 + d) % 64 == d
  {
  }

  lemma TwiceSixBits(c: nat)
    ensures c / 64 / 64 == c / 4096
  {
  }

  lemma ThriceSixBits(c: nat)
    ensures c / 64 / 64 / 64 == c / 262144
  {
  }

  lemma TwoBytes(bs: seq<byte>) returns (c: nat)
    requires CharLength(bs) == 2
    ensures IsScalar(c) && bs[..2] == Encoded(c)
  {
    var a: int, b: int := bs[0] - 0xC0, bs[1] - 0x80;
    c := a * 64 + b;
    SixBits(a, b);
  }

  lemma ThreeBytes(bs: seq<byte>) returns (c: nat)
    requires CharLength(bs) == 3
    ensures IsScalar(c) && bs[..3] == Encoded(c)
  {
    var a: int, b: int, d: int := bs[0] - 0xE0, bs[1] - 0x80, bs[2] - 0x80;
    c := (a * 64 + b) * 64 + d;
    SixBits(a * 64 + b, d);
    SixBits(a, b);
    TwiceSixBits(c);
  }

  lemma FourBytes(bs: seq<byte>) returns (c: nat)
    requires CharLength(bs) == 4
    ensures IsScalar(c) && bs[..4] == Encoded(c)
  {
    var a: int, b: int, d: int, e: int := bs[0] - 0xF0, bs[1] - 0x80, bs[2] - 0x80, bs[3] - 0x80;
    c := ((a * 64 + b) * 64 + d) * 64 + e;
    SixBits((a * 64 + b) * 64 + d, e);
    SixBits(a * 64 + b, d);
    SixBits(a, b);
    TwiceSixBits(c);
    ThriceSixBits(c);
  }

  /** The scalar value a well-formed character stands for. */
  lemma CharacterIsEncoded(bs: seq<byte>) returns (c: nat)
    requires CharLength(bs) > 0
    ensures IsScalar(c) && bs[..CharLength(bs)] == Encoded(c)
  {
    match CharLength(bs)
    case 1 => c := bs[0];
    case 2 => c := TwoBytes(bs);
    case 3 => c := ThreeBytes(bs);
    case _ => c := FourBytes(bs);
  }

  /** Every encoded text is well-formed. */
  lemma {:induction false} EncodedIsUtf8(cs: seq<nat>)
    requires AllScalars(cs)
    ensures IsUtf8(EncodedAll(cs))
  {
    if cs != [] {
      var rest := EncodedAll(cs[1..]);
      EncodedIsUtf8(cs[1..]);
      EncodedIsOneCharacter(cs[0], rest);
      assert (Encoded(cs[0]) + rest)[|Encoded(cs[0])|..] == rest;
    }
  }

  /** And every well-formed text is encoded from scalar values. */
  lemma {:induction false} Utf8IsEncoded(bs: seq<byte>) returns (cs: seq<nat>)
    requires IsUtf8(bs)
    ensures AllScalars(cs) && EncodedAll(cs) == bs
    decreases |bs|
  {
    if bs == [] {
      cs := [];
    } else {
      var n := CharLength(bs);
      var c := CharacterIsEncoded(bs);
      var rest := Utf8IsEncoded(bs[n..]);
      cs := [c] + rest;
      assert cs[1..] == rest;
      assert bs == bs[..n] + bs[n..];
    }
  }

  /** Plain text of bytes up to 0x7F is well-formed. */
  lemma {:induction false} AsciiIsUtf8(bs: seq<byte>)
    requires forall i :: 0 <= i < |bs| ==> bs[i] <= 0x7F
    ensures IsUtf8(bs)
  {
    if bs != [] {
      AsciiIsUtf8(bs[1..]);
    }
  }

  /** "BTCUSDT". */
  lemma PlainSymbol()
    ensures IsUtf8([0x42, 0x54, 0x43, 0x55, 0x53, 0x44, 0x54])
  {
    AsciiIsUtf8([0x42, 0x54, 0x43, 0x55, 0x53, 0x44, 0x54]);
  }

  /** A lone continuation byte, an overlong zero, a surrogate and a cut-off character are not well-formed. */
  lemma IllFormed()
    ensures !IsUtf8([0x80]) && !IsUtf8([0xC0, 0x80]) && !IsUtf8([0xED, 0xA0, 0x80]) && !IsUtf8([0xE2, 0x82])
  {
    assert CharLength([0x80]) == 0 && CharLength([0xC0, 0x80]) == 0;
    assert CharLength([0xED, 0xA0, 0x80]) == 0 && CharLength([0xE2, 0x82]) == 0;
  }
}
