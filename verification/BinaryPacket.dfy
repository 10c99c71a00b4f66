/**
  The 58-byte-header market data packet: flags packed into one byte, names in fixed
  null-padded fields, levels as pairs of big-endian signed 64-bit integers. Sender and receiver.
  */
module BinaryPackets {
  import opened Bytes
  import opened Rescaling
  import opened Wrappers

  const HEADER_SIZE: nat := 58
  const MAX_ITEMS: nat := 7
  const NAME_FIELD: nat := 20
  const PROTOCOL_VERSION: byte := 1
  const ORDER_BOOK: bv8 := 2

  /** A price and a quantity as signed 64-bit scaled integers. */
  datatype Item = Item(price: int, quantity: int)

  datatype Header = Header(
    exchangeTimestamp: nat, localTimestamp: nat, flags: bv8, symbol: seq<byte>, exchange: seq<byte>)

  // ---- flags -----------------------------------------------------------------------------

  /** Last flag in bit 7, packet type in bits 6-4, bid flag in bit 3, item count in bits 2-0. */
  function Flags(isLast: bool, packetType: bv8, isBid: bool, count: bv8): (f: bv8)
    ensures IsLast(f) == isLast && PacketType(f) == packetType & 0x07
    ensures IsBid(f) == isBid && ItemCount(f) == (count & 0x07) as nat
  {
    (if isLast then 0x80 else 0) | ((packetType & 0x07) << 4) | (if isBid then 0x08 else 0) | (count & 0x07)
  }

  predicate IsLast(f: bv8) {
    f & 0x80 != 0
  }

  function PacketType(f: bv8): bv8 {
    (f & 0x70) >> 4
  }

  predicate IsBid(f: bv8) {
    f & 0x08 != 0
  }

  function ItemCount(f: bv8): (n: nat)
    ensures n <= MAX_ITEMS
  {
    (f & 0x07) as nat
  }

  /** A count survives exactly if it fits three bits. */
  lemma CountSurvivesIff(isLast: bool, packetType: bv8, isBid: bool, count: bv8)
    ensures ItemCount(Flags(isLast, packetType, isBid, count)) == count as nat <==> count as nat <= MAX_ITEMS
  {
  }

  /** The count the unit test tries comes back as 7, and nothing else of the byte is disturbed. */
  lemma FifteenBecomesSeven()
    ensures var f := Flags(true, 1, false, 15);
      ItemCount(f) == 7 && IsLast(f) && PacketType(f) == 1 && !IsBid(f)
  {
  }

  // ---- names -----------------------------------------------------------------------------

  function Zeros(n: nat): seq<byte> {
    seq(n, _ => 0)
  }

  /** The name field: at most 19 bytes of the name, padded with zeros. */
  function NameField(name: seq<byte>): (field: seq<byte>)
    ensures |field| == NAME_FIELD
  {
    var len := if |name| < NAME_FIELD then |name| else NAME_FIELD - 1;
    name[..len] + Zeros(NAME_FIELD - len)
  }

  /** The bytes ahead of the first zero. */
  function ParseName(field: seq<byte>): seq<byte> {
    if field == [] || field[0] == 0 then [] else [field[0]] + ParseName(field[1..])
  }

  lemma {:induction false} ParseNameUpToZero(s: seq<byte>, t: seq<byte>)
    requires 0 !in s && t != [] && t[0] == 0
    ensures ParseName(s + t) == s
  {
    if s == [] {
      assert s + t == t;
    } else {
      assert (s + t)[1..] == s[1..] + t;
      ParseNameUpToZero(s[1..], t);
    }
  }

  lemma {:induction false} ParsedNameHasNoZero(field: seq<byte>)
    ensures 0 !in ParseName(field)
    ensures 0 in field ==> |ParseName(field)| < |field|
  {
    if field != [] && field[0] != 0 {
      ParsedNameHasNoZero(field[1..]);
      assert field == [field[0]] + field[1..];
    }
  }

  /** A name survives the field exactly if it has at most 19 bytes, none of them zero. */
  lemma NameSurvivesIff(name: seq<byte>)
    ensures ParseName(NameField(name)) == name <==> |name| < NAME_FIELD && 0 !in name
  {
    ParsedNameHasNoZero(NameField(name));
    assert NameField(name)[NAME_FIELD - 1] == 0;
    if |name| < NAME_FIELD && 0 !in name {
      ParseNameUpToZero(name, Zeros(NAME_FIELD - |name|));
      assert name[..|name|] == name;
    }
  }

  // ---- the sender --------------------------------------------------------------------------

  datatype TimestampUnit = Seconds | Milliseconds | Microseconds | Nanoseconds

  function NanosPer(unit: TimestampUnit): nat {
    match unit
    case Seconds => 1_000_000_000
    case Milliseconds => 1_000_000
    case Microseconds => 1_000
    case Nanoseconds => 1
  }

  datatype OrderBookData = OrderBookData(
    symbol: seq<byte>, exchange: seq<byte>, timestamp: nat, unit: TimestampUnit,
    bids: seq<Item>, asks: seq<Item>, pricePrecision: nat, quantityPrecision: nat)

  /** Levels are signed 64-bit, precisions convert, and the timestamp converts without overflow. */
  ghost predicate Sendable(b: OrderBookData) {
    && Convertible(b.pricePrecision, WIRE_PRECISION) && Convertible(b.quantityPrecision, WIRE_PRECISION)
    && IsU64(b.timestamp * NanosPer(b.unit))
    && AllItems(b.bids) && AllItems(b.asks)
  }

  predicate IsItem(x: Item) {
    IsI64(x.price) && IsI64(x.quantity)
  }

  ghost predicate AllItems(xs: seq<Item>) {
    forall i :: 0 <= i < |xs| ==> IsItem(xs[i])
  }

  /** A level at wire precision. */
  function ToWire(x: Item, pricePrecision: nat, quantityPrecision: nat): (y: Item)
    requires Convertible(pricePrecision, WIRE_PRECISION) && Convertible(quantityPrecision, WIRE_PRECISION)
    requires IsItem(x)
    ensures IsItem(y)
  {
    RescaledIsI64(x.price, pricePrecision, WIRE_PRECISION);
    RescaledIsI64(x.quantity, quantityPrecision, WIRE_PRECISION);
    Item(Rescale(x.price, pricePrecision, WIRE_PRECISION), Rescale(x.quantity, quantityPrecision, WIRE_PRECISION))
  }

  function ToWireAll(xs: seq<Item>, pricePrecision: nat, quantityPrecision: nat): (ys: seq<Item>)
    requires Convertible(pricePrecision, WIRE_PRECISION) && Convertible(quantityPrecision, WIRE_PRECISION)
    requires AllItems(xs)
    ensures |ys| == |xs| && AllItems(ys)
  {
    seq(|xs|, i requires 0 <= i < |xs| => ToWire(xs[i], pricePrecision, quantityPrecision))
  }

  function SideItems(b: OrderBookData, isBid: bool): seq<Item> {
    if isBid then b.bids else b.asks
  }

  function FirstItems(xs: seq<Item>): seq<Item> {
    if |xs| <= MAX_ITEMS then xs else xs[..MAX_ITEMS]
  }

  /** The levels a side's packet carries: its first seven, at wire precision. */
  function Carried(b: OrderBookData, isBid: bool): (ys: seq<Item>)
    requires Sendable(b)
    ensures |ys| <= MAX_ITEMS && AllItems(ys)
  {
    ToWireAll(FirstItems(SideItems(b, isBid)), b.pricePrecision, b.quantityPrecision)
  }

  function ItemBytes(x: Item): (bs: seq<byte>)
    requires IsItem(x)
    ensures |bs| == Extent(1)
  {
    ToBE(Unsigned(x.price), 8) + ToBE(Unsigned(x.quantity), 8)
  }

  function Payload(xs: seq<Item>): (bs: seq<byte>)
    requires AllItems(xs)
    ensures |bs| == Extent(|xs|)
  {
    if xs == [] then [] else Payload(xs[..|xs| - 1]) + ItemBytes(xs[|xs| - 1])
  }

  function HeaderBytes(h: Header): (bs: seq<byte>)
    requires |h.symbol| == NAME_FIELD && |h.exchange| == NAME_FIELD
    ensures |bs| == HEADER_SIZE
  {
    [PROTOCOL_VERSION] + ToBE(h.exchangeTimestamp, 8) + ToBE(h.localTimestamp, 8)
      + [h.flags as int] + h.symbol + h.exchange
  }

  /** The header of one side's packet, sent at localTimestamp. */
  function SideHeader(b: OrderBookData, isBid: bool, localTimestamp: nat): Header
    requires Sendable(b)
  {
    Header(b.timestamp * NanosPer(b.unit), localTimestamp,
           Flags(true, ORDER_BOOK, isBid, |Carried(b, isBid)| as bv8), NameField(b.symbol), NameField(b.exchange))
  }

  function PacketBytes(b: OrderBookData, isBid: bool, localTimestamp: nat): seq<byte>
    requires Sendable(b)
  {
    HeaderBytes(SideHeader(b, isBid, localTimestamp)) + Payload(Carried(b, isBid))
  }

  /** Building a packet: the header, then one item after the other. */
  method FromOrderBook(b: OrderBookData, isBid: bool, localTimestamp: nat) returns (bytes: seq<byte>)
    requires Sendable(b)
    ensures bytes == PacketBytes(b, isBid, localTimestamp)
    ensures |bytes| == 58 + 16 * if |SideItems(b, isBid)| > 7 then 7 else |SideItems(b, isBid)|
  {
    var levels := FirstItems(SideItems(b, isBid));
    var count := |levels| as bv8;
    var header := Header(b.timestamp * NanosPer(b.unit), localTimestamp,
                         Flags(true, ORDER_BOOK, isBid, count), NameField(b.symbol), NameField(b.exchange));
    var payload := [];
    ghost var carried := Carried(b, isBid);
    for i := 0 to |levels|
      invariant payload == Payload(carried[..i])
    {
      var item := ToWire(levels[i], b.pricePrecision, b.quantityPrecision);
      assert carried[..i + 1][..i] == carried[..i];
      payload := payload + ItemBytes(item);
    }
    assert carried[..|levels|] == carried;
    bytes := HeaderBytes(header) + payload;
  }

  // ---- the receiver ------------------------------------------------------------------------

  function ParseHeader(data: seq<byte>): Header
    requires |data| >= HEADER_SIZE
  {
    Header(FromBE(data[1..9]), FromBE(data[9..17]), data[17] as bv8, data[18..38], data[38..58])
  }

  function ParseItem(bs: seq<byte>): Item
    requires |bs| == Extent(1)
  {
    Width8();
    Item(Signed(FromBE(bs[..8])), Signed(FromBE(bs[8..])))
  }

  function ParseItems(payload: seq<byte>, count: nat): (xs: seq<Item>)
    requires |payload| >= Extent(count)
    ensures |xs| == count
  {
    if count == 0 then []
    else ParseItems(payload, count - 1) + [ParseItem(payload[Extent(count - 1)..Extent(count)])]
  }

  /** Nothing is parsed from a packet with no items or with fewer bytes than it announces. */
  function ParseLevels(data: seq<byte>): Option<seq<Item>>
    requires |data| >= HEADER_SIZE
  {
    var count := ItemCount(ParseHeader(data).flags);
    if count == 0 || |data| < HEADER_SIZE + Extent(count) then None
    else Some(ParseItems(data[HEADER_SIZE..], count))
  }

  lemma ParseOneMore(payload: seq<byte>, n: nat)
    requires |payload| >= Extent(n + 1)
    ensures ParseItems(payload, n + 1) == ParseItems(payload, n) + [ParseItem(payload[Extent(n)..Extent(n + 1)])]
  {
  }

  /** count items, 16 bytes at a time. */
  method ReadItems(payload: seq<byte>, count: nat) returns (items: seq<Item>)
    requires |payload| >= Extent(count)
    ensures items == ParseItems(payload, count)
  {
    items := [];
    for i := 0 to count
      invariant items == ParseItems(payload, i)
    {
      ParseOneMore(payload, i);
      var offset := Extent(i);
      if offset + Extent(1) > |payload| {
        break;
      }
      items := items + [ParseItem(payload[offset..offset + Extent(1)])];
    }
  }

  method ParseOrderBookLevels(data: seq<byte>) returns (levels: Option<seq<Item>>)
    requires |data| >= HEADER_SIZE
    ensures levels == ParseLevels(data)
  {
    var count := ItemCount(ParseHeader(data).flags);
    if count == 0 || |data| < HEADER_SIZE + Extent(count) {
      return None;
    }
    var items := ReadItems(data[HEADER_SIZE..], count);
    levels := Some(items);
  }

  // ---- round trip --------------------------------------------------------------------------

  lemma ItemRoundTrip(x: Item)
    requires IsItem(x)
    ensures ParseItem(ItemBytes(x)) == x
  {
    Width8();
    BERoundTrip(Unsigned(x.price), 8);
    BERoundTrip(Unsigned(x.quantity), 8);
    assert ItemBytes(x)[..8] == ToBE(Unsigned(x.price), 8);
    assert ItemBytes(x)[8..] == ToBE(Unsigned(x.quantity), 8);
  }

  lemma {:induction false} PayloadRoundTrip(xs: seq<Item>, rest: seq<byte>)
    requires AllItems(xs)
    ensures ParseItems(Payload(xs) + rest, |xs|) == xs
    decreases |xs|
  {
    if xs != [] {
      var n := |xs| - 1;
      var init, last := Payload(xs[..n]), ItemBytes(xs[n]);
      PayloadRoundTrip(xs[..n], last + rest);
      MiddleSlice(init, last, rest);
      ItemRoundTrip(xs[n]);
      ParseOneMore((init + last) + rest, n);
    }
  }

  lemma HeaderRoundTrip(h: Header, rest: seq<byte>)
    requires |h.symbol| == NAME_FIELD && |h.exchange| == NAME_FIELD
    requires IsU64(h.exchangeTimestamp) && IsU64(h.localTimestamp)
    ensures ParseHeader(HeaderBytes(h) + rest) == h
  {
    Width8();
    BERoundTrip(h.exchangeTimestamp, 8);
    BERoundTrip(h.localTimestamp, 8);
    var data := HeaderBytes(h) + rest;
    assert data[1..9] == ToBE(h.exchangeTimestamp, 8);
    assert data[9..17] == ToBE(h.localTimestamp, 8);
    assert data[18..38] == h.symbol;
    assert data[38..58] == h.exchange;
  }

  lemma SideFlags(b: OrderBookData, isBid: bool, localTimestamp: nat)
    requires Sendable(b)
    ensures var f := SideHeader(b, isBid, localTimestamp).flags;
      IsLast(f) && IsBid(f) == isBid && ItemCount(f) == |Carried(b, isBid)|
  {
    CountSurvivesIff(true, ORDER_BOOK, isBid, |Carried(b, isBid)| as bv8);
  }

  lemma LevelsRoundTrip(h: Header, xs: seq<Item>)
    requires |h.symbol| == NAME_FIELD && |h.exchange| == NAME_FIELD
    requires IsU64(h.exchangeTimestamp) && IsU64(h.localTimestamp)
    requires AllItems(xs)
    requires ItemCount(h.flags) == |xs|
    ensures ParseHeader(HeaderBytes(h) + Payload(xs)) == h
    ensures ParseLevels(HeaderBytes(h) + Payload(xs)) == if xs == [] then None else Some(xs)
  {
    HeaderRoundTrip(h, Payload(xs));
    assert (HeaderBytes(h) + Payload(xs))[HEADER_SIZE..] == Payload(xs);
    PayloadRoundTrip(xs, []);
    assert Payload(xs) + [] == Payload(xs);
  }

  /**
    A side's packet is parsed back to its header and to the levels it carries, and to nothing
    exactly if the side was empty.
    */
  lemma PacketRoundTrip(b: OrderBookData, isBid: bool, localTimestamp: nat)
    requires Sendable(b) && IsU64(localTimestamp)
    ensures var data := PacketBytes(b, isBid, localTimestamp);
      && |data| >= HEADER_SIZE && ParseHeader(data) == SideHeader(b, isBid, localTimestamp)
      && ParseLevels(data) == if SideItems(b, isBid) == [] then None else Some(Carried(b, isBid))
  {
    SideFlags(b, isBid, localTimestamp);
    LevelsRoundTrip(SideHeader(b, isBid, localTimestamp), Carried(b, isBid));
  }

  /** A side in strict price order is carried in strict order if no digits are lost, weakly if some are. */
  lemma CarriedStaysSorted(b: OrderBookData, isBid: bool, i: nat, j: nat)
    requires Sendable(b) && i < j < |Carried(b, isBid)|
    requires var xs := SideItems(b, isBid); if isBid then xs[i].price > xs[j].price else xs[i].price < xs[j].price
    requires var xs := SideItems(b, isBid);
      b.pricePrecision <= WIRE_PRECISION ==>
        Fits(xs[i].price, b.pricePrecision, WIRE_PRECISION) && Fits(xs[j].price, b.pricePrecision, WIRE_PRECISION)
    ensures var ys := Carried(b, isBid);
      if b.pricePrecision <= WIRE_PRECISION then
        if isBid then ys[i].price > ys[j].price else ys[i].price < ys[j].price
      else
        if isBid then ys[i].price >= ys[j].price else ys[i].price <= ys[j].price
  {
    var xs, p := SideItems(b, isBid), b.pricePrecision;
    if p <= WIRE_PRECISION {
      GainKeepsOrder(xs[i].price, xs[j].price, p, WIRE_PRECISION);
      GainKeepsOrder(xs[j].price, xs[i].price, p, WIRE_PRECISION);
    } else if isBid {
      LossIsMonotone(xs[j].price, xs[i].price, p, WIRE_PRECISION);
    } else {
      LossIsMonotone(xs[i].price, xs[j].price, p, WIRE_PRECISION);
    }
  }
}
