/**
  The market data packet byte by byte and number by number: where every field stands, how many
  levels a packet carries, and what a level's price and quantity become.
  */
module PacketLayouts {
  import opened Bytes
  import opened Rescaling
  import opened BinaryPackets
  import opened Wrappers

  // ---- the flag byte -----------------------------------------------------------------------

  /** The four fields of any flag byte. */
  lemma FlagFields(f: bv8)
    ensures IsLast(f) <==> f >= 128
    ensures PacketType(f) == f / 16 % 8
    ensures IsBid(f) <==> f / 8 % 2 == 1
    ensures ItemCount(f) == (f % 8) as nat
  {
  }

  lemma FlagNumbers()
    ensures Flags(true, 2, true, 7) == 0xAF && Flags(true, 2, false, 7) == 0xA7
    ensures Flags(false, 1, false, 1) == 0x11
  {
  }

  lemma SideFlagByte(isBid: bool, count: nat)
    requires count <= 7
    ensures Flags(true, ORDER_BOOK, isBid, count as bv8) as int == (if isBid then 0xA8 else 0xA0) + count
  {
    if
    case count == 0 =>
    case count == 1 =>
    case count == 2 =>
    case count == 3 =>
    case count == 4 =>
    case count == 5 =>
    case count == 6 =>
    case count == 7 =>
  }

  // ---- names -------------------------------------------------------------------------------

  /** The field holds the name's first 19 bytes and zeros behind them. */
  lemma NameFieldHolds(name: seq<byte>, i: nat)
    requires i < 20
    ensures |NameField(name)| == 20 && NameField(name)[i] == if i < 19 && i < |name| then name[i] else 0
  {
  }

  /** A field is read up to its first zero. */
  lemma {:induction false} ParsedName(field: seq<byte>)
    ensures ParseName(field) <= field && 0 !in ParseName(field)
    ensures ParseName(field) != field ==> |ParseName(field)| < |field| && field[|ParseName(field)|] == 0
  {
    if field != [] && field[0] != 0 {
      ParsedName(field[1..]);
      assert field == [field[0]] + field[1..];
    }
  }

  // ---- a side's packet ---------------------------------------------------------------------

  /** The levels of a side that fit a packet. */
  function CountCarried(side: seq<Item>): nat {
    if |side| > 7 then 7 else |side|
  }

  lemma HeaderLayout(h: Header, rest: seq<byte>)
    requires |h.symbol| == 20 && |h.exchange| == 20
    ensures var data := HeaderBytes(h) + rest;
      && |HeaderBytes(h)| == 58 && data[0] == 1
      && data[1..9] == ToBE(h.exchangeTimestamp, 8) && data[9..17] == ToBE(h.localTimestamp, 8)
      && data[17] == h.flags as int && data[18..38] == h.symbol && data[38..58] == h.exchange
      && data[58..] == rest
  {
  }

  lemma {:induction false} PayloadLayout(xs: seq<Item>, i: nat)
    requires AllItems(xs) && i < |xs|
    ensures |Payload(xs)| == 16 * |xs|
    ensures Payload(xs)[16 * i..16 * i + 8] == ToBE(Unsigned(xs[i].price), 8)
    ensures Payload(xs)[16 * i + 8..16 * i + 16] == ToBE(Unsigned(xs[i].quantity), 8)
    decreases |xs|
  {
    var n := |xs| - 1;
    var init, last := Payload(xs[..n]), ItemBytes(xs[n]);
    assert Payload(xs) == init + last;
    if i < n {
      PayloadLayout(xs[..n], i);
      assert Payload(xs)[16 * i..16 * i + 8] == init[16 * i..16 * i + 8];
      assert Payload(xs)[16 * i + 8..16 * i + 16] == init[16 * i + 8..16 * i + 16];
    } else {
      assert Payload(xs)[16 * i..16 * i + 8] == last[..8];
      assert Payload(xs)[16 * i + 8..16 * i + 16] == last[8..];
    }
  }

  /** The 58 bytes of a side's header. */
  lemma SidePacketLayout(b: OrderBookData, isBid: bool, localTimestamp: nat)
    requires Sendable(b)
    ensures var data, side := PacketBytes(b, isBid, localTimestamp), if isBid then b.bids else b.asks;
      && |data| == 58 + 16 * CountCarried(side) && data[0] == 1
      && data[1..9] == ToBE(b.timestamp * NanosPer(b.unit), 8) && data[9..17] == ToBE(localTimestamp, 8)
      && data[17] == (if isBid then 0xA8 else 0xA0) + CountCarried(side)
      && data[18..38] == NameField(b.symbol) && data[38..58] == NameField(b.exchange)
      && data[58..] == Payload(Carried(b, isBid))
  {
    var carried := Carried(b, isBid);
    CountIsCarried(b, isBid);
    HeaderLayout(SideHeader(b, isBid, localTimestamp), Payload(carried));
    SideFlagByte(isBid, |carried|);
  }

  lemma CountIsCarried(b: OrderBookData, isBid: bool)
    requires Sendable(b)
    ensures |Carried(b, isBid)| == CountCarried(if isBid then b.bids else b.asks)
  {
  }

  // ---- levels ------------------------------------------------------------------------------

  /**
    y is x brought from the given precision to 8: multiplied exactly where that fits 64 bits, or
    divided toward zero, told by the error alone.
    */
  ghost predicate AtWire(x: int, precision: nat, y: int) {
    if precision <= 8 then
      IsI64(x * Pow10(8 - precision)) ==> y == x * Pow10(8 - precision)
    else
      var d := Pow10(precision - 8);
      if x >= 0 then 0 <= x - y * d < d else 0 <= y * d - x < d
  }

  /** The numbers this comes to at three precisions. */
  ghost predicate InNumbers(x: int, precision: nat, y: int) {
    && (precision == 8 ==> y == x)
    && (precision == 6 && IsI64(x * 100) ==> y == x * 100)
    && (precision == 10 ==> y == if x >= 0 then x / 100 else -((-x) / 100))
  }

  lemma RescaledAtWire(x: int, precision: nat)
    requires IsI64(x) && Convertible(precision, 8)
    ensures AtWire(x, precision, Rescale(x, precision, 8)) && InNumbers(x, precision, Rescale(x, precision, 8))
  {
    TwoDigitsEitherWay(x);
    if precision <= 8 {
      if precision == 8 {
        PowersOfTen();
      } else {
        GainIsExactIff(x, precision, 8);
      }
    } else {
      LossErrsByLessThanOneUnit(x, precision, 8);
    }
  }

  /** Item y is level x of the book at wire precision, price and quantity each by its own precision. */
  ghost predicate IsSentAs(b: OrderBookData, x: Item, y: Item) {
    && AtWire(x.price, b.pricePrecision, y.price) && InNumbers(x.price, b.pricePrecision, y.price)
    && AtWire(x.quantity, b.quantityPrecision, y.quantity) && InNumbers(x.quantity, b.quantityPrecision, y.quantity)
  }

  /** The items are the side's first seven levels, or all of them if there are no more. */
  ghost predicate AreFirstLevels(b: OrderBookData, side: seq<Item>, items: seq<Item>) {
    && |items| == (if |side| > 7 then 7 else |side|)
    && forall i :: 0 <= i < |items| ==> IsSentAs(b, side[i], items[i])
  }

  lemma CarriedAreFirstLevels(b: OrderBookData, isBid: bool)
    requires Sendable(b)
    ensures AreFirstLevels(b, if isBid then b.bids else b.asks, Carried(b, isBid))
  {
    var side, carried := if isBid then b.bids else b.asks, Carried(b, isBid);
    CountIsCarried(b, isBid);
    forall i | 0 <= i < |carried| ensures IsSentAs(b, side[i], carried[i]) {
      assert IsItem(side[i]);
      RescaledAtWire(side[i].price, b.pricePrecision);
      RescaledAtWire(side[i].quantity, b.quantityPrecision);
      assert carried[i] == ToWire(side[i], b.pricePrecision, b.quantityPrecision);
    }
  }

  /** What a receiver parses from a side's packet are that side's first levels; from an empty side, nothing. */
  lemma ReceivedAreFirstLevels(b: OrderBookData, isBid: bool, localTimestamp: nat)
    requires Sendable(b) && IsU64(localTimestamp)
    ensures var data, side := PacketBytes(b, isBid, localTimestamp), if isBid then b.bids else b.asks;
      && |data| >= HEADER_SIZE
      && (if side == [] then ParseLevels(data) == None
          else ParseLevels(data).Some? && AreFirstLevels(b, side, ParseLevels(data).value))
  {
    PacketRoundTrip(b, isBid, localTimestamp);
    CarriedAreFirstLevels(b, isBid);
  }

  /** From any packet: nothing exactly if it announces no items or is too short for them; else each in its place. */
  lemma ParsesIff(data: seq<byte>, i: nat)
    requires |data| >= 58
    ensures var count := ItemCount(data[17] as bv8); var levels := ParseLevels(data);
      && (levels == None <==> count == 0 || |data| < 58 + 16 * count)
      && (levels.Some? ==> |levels.value| == count)
      && (levels.Some? && i < count ==> levels.value[i] == ParseItem(data[58 + 16 * i..58 + 16 * i + 16]))
  {
    var count := ItemCount(data[17] as bv8);
    if 0 < count && |data| >= 58 + 16 * count && i < count {
      ItemInPlace(data[58..], count, i);
      assert data[58..][16 * i..16 * i + 16] == data[58 + 16 * i..58 + 16 * i + 16];
    }
  }

  lemma {:induction false} ItemInPlace(payload: seq<byte>, count: nat, i: nat)
    requires |payload| >= Extent(count) && i < count
    ensures ParseItems(payload, count)[i] == ParseItem(payload[16 * i..16 * i + 16])
    decreases count
  {
    if i < count - 1 {
      ItemInPlace(payload, count - 1, i);
    }
  }
}
