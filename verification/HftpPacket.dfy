/**
  The variable-length HFTP packet: a packed little-endian header, the symbol, a snapshot flag and
  two counted level lists. Prices and quantities are 64-bit patterns; nothing here rounds.
  */
module HftpPackets {
  import opened Bytes
  import opened Utf8
  import opened Wrappers

  const MAGIC: nat := 0x48465450
  const HEADER_SIZE: nat := 24
  const ORDER_BOOK: byte := 0
  const TRADE: byte := 1
  const TWO_16: nat := 65536

  /** Price and quantity as 64-bit patterns. */
  datatype WireLevel = WireLevel(price: nat, quantity: nat)

  datatype Message = Message(
    sequence: nat, timestamp: int, exchangeId: byte, symbol: seq<byte>, isSnapshot: bool,
    bids: seq<WireLevel>, asks: seq<WireLevel>)

  /**
    What a receiver makes of a packet. Text that is not UTF-8 is an error; an index past the end
    of the buffer panics.
    */
  datatype Outcome =
    | Parsed(sequence: nat, timestamp: int, symbol: seq<byte>, isSnapshot: bool,
             bids: seq<WireLevel>, asks: seq<WireLevel>)
    | Trade(timestamp: int, symbol: seq<byte>, price: nat, quantity: nat, isBuy: bool, id: seq<byte>)
    | TooSmall | BadMagic | BadText | UnknownType | Panicked

  ghost predicate FitsWire(ls: seq<WireLevel>) {
    forall i :: 0 <= i < |ls| ==> IsU64(ls[i].price) && IsU64(ls[i].quantity)
  }

  ghost predicate FieldsFit(m: Message) {
    IsU64(m.sequence) && IsI64(m.timestamp) && FitsWire(m.bids) && FitsWire(m.asks)
  }

  // ---- encoding ----------------------------------------------------------------------------

  function HeaderBytes(m: Message): (bs: seq<byte>)
    requires IsI64(m.timestamp)
    ensures |bs| == HEADER_SIZE
  {
    ToLE(MAGIC, 4) + ToLE(m.sequence, 8) + ToLE(Unsigned(m.timestamp), 8)
      + [m.exchangeId] + [ORDER_BOOK] + ToLE(|m.symbol| % TWO_16, 2)
  }

  function LevelBytes(l: WireLevel): (bs: seq<byte>)
    ensures |bs| == Extent(1)
  {
    ToLE(l.price, 8) + ToLE(l.quantity, 8)
  }

  function LevelsBytes(ls: seq<WireLevel>): (bs: seq<byte>)
    ensures |bs| == Extent(|ls|)
  {
    if ls == [] then [] else LevelsBytes(ls[..|ls| - 1]) + LevelBytes(ls[|ls| - 1])
  }

  /** A counted list; the count is cut to 16 bits. */
  function SideBytes(ls: seq<WireLevel>): seq<byte> {
    ToLE(|ls| % TWO_16, 2) + LevelsBytes(ls)
  }

  function PayloadBytes(m: Message): seq<byte> {
    [if m.isSnapshot then 1 else 0] + (SideBytes(m.bids) + SideBytes(m.asks))
  }

  function PacketBytes(m: Message): seq<byte>
    requires IsI64(m.timestamp)
  {
    HeaderBytes(m) + (m.symbol + PayloadBytes(m))
  }

  method EncodeOrderBook(m: Message) returns (packet: seq<byte>)
    requires IsI64(m.timestamp)
    ensures packet == PacketBytes(m)
  {
    packet := HeaderBytes(m);
    packet := packet + m.symbol;
    packet := packet + [if m.isSnapshot then 1 else 0];
    packet := packet + ToLE(|m.bids| % TWO_16, 2);
    packet := AppendLevels(packet, m.bids);
    packet := packet + ToLE(|m.asks| % TWO_16, 2);
    packet := AppendLevels(packet, m.asks);
    Regrouped(HeaderBytes(m), m.symbol, [if m.isSnapshot then 1 else 0],
              ToLE(|m.bids| % TWO_16, 2), LevelsBytes(m.bids), ToLE(|m.asks| % TWO_16, 2), LevelsBytes(m.asks));
  }

  lemma Regrouped(h: seq<byte>, s: seq<byte>, f: seq<byte>, a: seq<byte>, b: seq<byte>, c: seq<byte>, d: seq<byte>)
    ensures h + s + f + a + b + c + d == h + (s + (f + ((a + b) + (c + d))))
  {
    assert h + s + f + a + b + c + d == h + (s + f + a + b + c + d);
    assert s + f + a + b + c + d == s + (f + a + b + c + d);
    assert f + a + b + c + d == f + (a + b + c + d);
    assert a + b + c + d == (a + b) + (c + d);
  }

  method AppendLevels(packet: seq<byte>, levels: seq<WireLevel>) returns (longer: seq<byte>)
    ensures longer == packet + LevelsBytes(levels)
  {
    longer := packet;
    for i := 0 to |levels|
      invariant longer == packet + LevelsBytes(levels[..i])
    {
      assert levels[..i + 1][..i] == levels[..i];
      longer := longer + ToLE(levels[i].price, 8);
      longer := longer + ToLE(levels[i].quantity, 8);
      assert longer == packet + (LevelsBytes(levels[..i]) + LevelBytes(levels[i]));
    }
    assert levels[..|levels|] == levels;
  }

  // ---- decoding ----------------------------------------------------------------------------

  function ParseLevel(bs: seq<byte>): WireLevel
    requires |bs| == Extent(1)
  {
    WireLevel(FromLE(bs[..8]), FromLE(bs[8..]))
  }

  /** count levels starting at offset. */
  function ParseLevels(data: seq<byte>, offset: nat, count: nat): (ls: seq<WireLevel>)
    requires offset + Extent(count) <= |data|
    ensures |ls| == count
  {
    if count == 0 then []
    else
      ParseLevels(data, offset, count - 1)
        + [ParseLevel(data[offset + Extent(count - 1)..offset + Extent(count)])]
  }

  /** The end of a counted list starting at offset, if the buffer reaches that far. */
  function SideEnd(data: seq<byte>, offset: nat): (end: nat)
    requires offset + 2 <= |data|
    ensures end >= offset + 2
  {
    offset + 2 + Extent(FromLE(data[offset..offset + 2]))
  }

  function ParseSide(data: seq<byte>, offset: nat): seq<WireLevel>
    requires offset + 2 <= |data| && SideEnd(data, offset) <= |data|
  {
    ParseLevels(data, offset + 2, FromLE(data[offset..offset + 2]))
  }

  /** Where the two lists end; 0 if an index would pass the end of the buffer. */
  function PayloadEnd(data: seq<byte>): (end: nat)
    ensures end <= |data|
  {
    if |data| < 3 || SideEnd(data, 1) + 2 > |data| then 0
    else
      var end := SideEnd(data, SideEnd(data, 1));
      if end > |data| then 0 else end
  }

  function ParsePayload(data: seq<byte>, sequence: nat, timestamp: int, symbol: seq<byte>): Outcome {
    if PayloadEnd(data) == 0 then Panicked
    else
      Parsed(sequence, timestamp, symbol, data[0] != 0, ParseSide(data, 1), ParseSide(data, SideEnd(data, 1)))
  }

  /** Price, quantity, side and the id's length, then the id. */
  const TRADE_SIZE: nat := 18

  function ParseTradePayload(data: seq<byte>, timestamp: int, symbol: seq<byte>): Outcome {
    if |data| < TRADE_SIZE || |data| < TRADE_SIZE + data[17] then Panicked
    else
      var id := data[TRADE_SIZE..TRADE_SIZE + data[17]];
      if !IsUtf8(id) then BadText
      else Trade(timestamp, symbol, FromLE(data[..8]), FromLE(data[8..16]), data[16] == 0, id)
  }

  /** The part of the packet behind the symbol. */
  function ProcessPayload(
    messageType: byte, payload: seq<byte>, sequence: nat, timestamp: int, symbol: seq<byte>): Outcome
  {
    if messageType == ORDER_BOOK then ParsePayload(payload, sequence, timestamp, symbol)
    else if messageType == TRADE then ParseTradePayload(payload, timestamp, symbol)
    else UnknownType
  }

  function Process(data: seq<byte>): Outcome {
    if |data| < HEADER_SIZE then TooSmall
    else if FromLE(data[..4]) != MAGIC then BadMagic
    else
      Width8();
      var sequence, timestamp := FromLE(data[4..12]), Signed(FromLE(data[12..20]));
      var symbolEnd := HEADER_SIZE + FromLE(data[22..24]);
      if symbolEnd > |data| then Panicked
      else if !IsUtf8(data[HEADER_SIZE..symbolEnd]) then BadText
      else ProcessPayload(data[21], data[symbolEnd..], sequence, timestamp, data[HEADER_SIZE..symbolEnd])
  }

  method ReadLevels(data: seq<byte>, start: nat, count: nat) returns (ok: bool, levels: seq<WireLevel>, offset: nat)
    requires start <= |data|
    ensures ok <==> start + Extent(count) <= |data|
    ensures ok ==> levels == ParseLevels(data, start, count) && offset == start + Extent(count)
  {
    ok, levels, offset := true, [], start;
    for i := 0 to count
      invariant ok && offset == start + Extent(i) <= |data| && levels == ParseLevels(data, start, i)
    {
      if offset + 8 > |data| {
        return false, [], offset;
      }
      var price := FromLE(data[offset..offset + 8]);
      offset := offset + 8;
      if offset + 8 > |data| {
        return false, [], offset;
      }
      var quantity := FromLE(data[offset..offset + 8]);
      offset := offset + 8;
      ghost var bs := data[start + Extent(i)..start + Extent(i + 1)];
      assert bs[..8] == data[offset - 16..offset - 8] && bs[8..] == data[offset - 8..offset];
      levels := levels + [WireLevel(price, quantity)];
    }
  }

  /** The payload read with a moving offset; consumed is where it ends. */
  method ParseOrderBook(data: seq<byte>, sequence: nat, timestamp: int, symbol: seq<byte>)
    returns (outcome: Outcome, consumed: nat)
    ensures outcome == ParsePayload(data, sequence, timestamp, symbol)
    ensures outcome.Parsed? ==> consumed == PayloadEnd(data)
  {
    consumed := 0;
    if |data| < 3 {
      return Panicked, 0;
    }
    var isSnapshot := data[0] != 0;
    var bidCount := FromLE(data[1..3]);
    var ok, bids, offset := ReadLevels(data, 3, bidCount);
    if !ok || offset + 2 > |data| {
      return Panicked, offset;
    }
    var askCount := FromLE(data[offset..offset + 2]);
    var asks;
    ghost var askStart := offset;
    ok, asks, offset := ReadLevels(data, offset + 2, askCount);
    if !ok {
      return Panicked, offset;
    }
    outcome, consumed := Parsed(sequence, timestamp, symbol, isSnapshot, bids, asks), offset;
  }

  method ParseTrade(data: seq<byte>, timestamp: int, symbol: seq<byte>) returns (outcome: Outcome)
    ensures outcome == ParseTradePayload(data, timestamp, symbol)
  {
    var offset := 0;
    if offset + 8 > |data| {
      return Panicked;
    }
    var price := FromLE(data[offset..offset + 8]);
    offset := offset + 8;
    if offset + 8 > |data| {
      return Panicked;
    }
    var quantity := FromLE(data[offset..offset + 8]);
    offset := offset + 8;
    if offset + 2 > |data| {
      return Panicked;
    }
    var isBuy := data[offset] == 0;
    offset := offset + 1;
    var idLength := data[offset];
    offset := offset + 1;
    if offset + idLength > |data| {
      return Panicked;
    }
    var id := data[offset..offset + idLength];
    outcome := if IsUtf8(id) then Trade(timestamp, symbol, price, quantity, isBuy, id) else BadText;
  }

  /** The sequence number of a packet whose header is accepted. */
  function SequenceOf(data: seq<byte>): Option<nat> {
    if |data| < HEADER_SIZE || FromLE(data[..4]) != MAGIC then None else Some(FromLE(data[4..12]))
  }

  class UdpReceiver {
    var lastSequence: nat

    constructor ()
      ensures lastSequence == 0
    {
      lastSequence := 0;
    }

    /** One packet; lossReported says whether its number did not follow the previous one. */
    method ProcessPacket(data: seq<byte>) returns (outcome: Outcome, lossReported: bool)
      modifies this
      ensures outcome == Process(data)
      ensures lastSequence == NextSequence(old(lastSequence), SequenceOf(data))
      ensures lossReported == ReportsLoss(old(lastSequence), SequenceOf(data))
    {
      if |data| < HEADER_SIZE {
        return TooSmall, false;
      }
      if FromLE(data[..4]) != MAGIC {
        return BadMagic, false;
      }
      Width8();
      var sequence := FromLE(data[4..12]);
      lossReported := sequence > 0 && sequence != lastSequence + 1;
      lastSequence := sequence;
      var symbolEnd := HEADER_SIZE + FromLE(data[22..24]);
      if symbolEnd > |data| {
        return Panicked, lossReported;
      }
      var symbol, payload := data[HEADER_SIZE..symbolEnd], data[symbolEnd..];
      if !IsUtf8(symbol) {
        return BadText, lossReported;
      }
      var timestamp := Signed(FromLE(data[12..20]));
      if data[21] == ORDER_BOOK {
        var parsed, consumed := ParseOrderBook(payload, sequence, timestamp, symbol);
        outcome := parsed;
      } else if data[21] == TRADE {
        outcome := ParseTrade(payload, timestamp, symbol);
      } else {
        outcome := UnknownType;
      }
    }
  }

  function NextSequence(last: nat, sequence: Option<nat>): nat {
    if sequence.Some? then sequence.value else last
  }

  predicate ReportsLoss(last: nat, sequence: Option<nat>) {
    sequence.Some? && sequence.value > 0 && sequence.value != last + 1
  }

  // ---- round trip --------------------------------------------------------------------------

  lemma Width2And4()
    ensures Width(2) == TWO_16 && Width(4) == 0x1_0000_0000
  {
    assert Width(1) == 256 && Width(2) == 0x1_0000 && Width(3) == 0x100_0000;
  }

  lemma LevelRoundTrip(l: WireLevel)
    requires IsU64(l.price) && IsU64(l.quantity)
    ensures ParseLevel(LevelBytes(l)) == l
  {
    Width8();
    LERoundTrip(l.price, 8);
    LERoundTrip(l.quantity, 8);
    assert LevelBytes(l)[..8] == ToLE(l.price, 8);
    assert LevelBytes(l)[8..] == ToLE(l.quantity, 8);
  }

  lemma ParseOneMore(data: seq<byte>, offset: nat, n: nat)
    requires offset + Extent(n + 1) <= |data|
    ensures ParseLevels(data, offset, n + 1)
      == ParseLevels(data, offset, n) + [ParseLevel(data[offset + Extent(n)..offset + Extent(n + 1)])]
  {
  }

  lemma LastSlice(before: seq<byte>, init: seq<byte>, last: seq<byte>, after: seq<byte>)
    ensures before + ((init + last) + after) == before + (init + (last + after))
    ensures (before + ((init + last) + after))[|before| + |init|..|before| + |init| + |last|] == last
  {
    assert (init + last) + after == init + (last + after);
    MiddleSlice(before + init, last, after);
    assert before + (init + (last + after)) == (before + init) + (last + after);
  }

  lemma {:induction false} LevelsRoundTrip(ls: seq<WireLevel>, before: seq<byte>, after: seq<byte>)
    requires FitsWire(ls)
    ensures ParseLevels(before + (LevelsBytes(ls) + after), |before|, |ls|) == ls
    decreases |ls|
  {
    if ls != [] {
      var n := |ls| - 1;
      var init, last := LevelsBytes(ls[..n]), LevelBytes(ls[n]);
      LastSlice(before, init, last, after);
      LevelsRoundTrip(ls[..n], before, last + after);
      LevelRoundTrip(ls[n]);
      ParseOneMore(before + ((init + last) + after), |before|, n);
    }
  }

  lemma SideRoundTrip(ls: seq<WireLevel>, before: seq<byte>, after: seq<byte>)
    requires FitsWire(ls) && |ls| < TWO_16
    ensures var data := before + (SideBytes(ls) + after);
      && |before| + 2 <= |data| && SideEnd(data, |before|) == |before| + |SideBytes(ls)| <= |data|
      && ParseSide(data, |before|) == ls
  {
    var count := ToLE(|ls| % TWO_16, 2);
    var data := before + (SideBytes(ls) + after);
    Width2And4();
    LERoundTrip(|ls|, 2);
    assert data == before + (count + (LevelsBytes(ls) + after));
    MiddleSlice(before, count, LevelsBytes(ls) + after);
    LevelsRoundTrip(ls, before + count, after);
  }

  lemma TailRegrouped(a: seq<byte>, b: seq<byte>, c: seq<byte>)
    ensures (a + b) + (c + []) == a + (b + c)
  {
  }

  lemma TwoSidesRoundTrip(flag: seq<byte>, bids: seq<WireLevel>, asks: seq<WireLevel>)
    requires |flag| == 1 && FitsWire(bids) && FitsWire(asks) && |bids| < TWO_16 && |asks| < TWO_16
    ensures var data := flag + (SideBytes(bids) + SideBytes(asks));
      && 3 <= |data| && SideEnd(data, 1) + 2 <= |data| && SideEnd(data, SideEnd(data, 1)) == |data|
      && ParseSide(data, 1) == bids && ParseSide(data, SideEnd(data, 1)) == asks
  {
    SideRoundTrip(bids, flag, SideBytes(asks));
    SideRoundTrip(asks, flag + SideBytes(bids), []);
    TailRegrouped(flag, SideBytes(bids), SideBytes(asks));
  }

  lemma PayloadRoundTrip(m: Message, symbol: seq<byte>)
    requires FieldsFit(m) && |m.bids| < TWO_16 && |m.asks| < TWO_16
    ensures ParsePayload(PayloadBytes(m), m.sequence, m.timestamp, symbol)
      == Parsed(m.sequence, m.timestamp, symbol, m.isSnapshot, m.bids, m.asks)
    ensures PayloadEnd(PayloadBytes(m)) == |PayloadBytes(m)|
  {
    TwoSidesRoundTrip([if m.isSnapshot then 1 else 0], m.bids, m.asks);
  }

  /** An accepted order book header with these fields. */
  ghost predicate HeaderIs(data: seq<byte>, sequence: nat, timestamp: int, symbolLength: nat)
    requires IsI64(timestamp)
  {
    && |data| >= HEADER_SIZE && FromLE(data[..4]) == MAGIC && FromLE(data[4..12]) == sequence
    && FromLE(data[12..20]) == Unsigned(timestamp)
    && data[21] == ORDER_BOOK && FromLE(data[22..24]) == symbolLength
  }

  lemma HeaderSlices(a: seq<byte>, b: seq<byte>, c: seq<byte>, x: byte, t: byte, d: seq<byte>, rest: seq<byte>)
    requires |a| == 4 && |b| == 8 && |c| == 8 && |d| == 2
    ensures var data := (a + b + c + [x] + [t] + d) + rest;
      data[..4] == a && data[4..12] == b && data[12..20] == c && data[21] == t && data[22..24] == d
  {
  }

  lemma HeaderReads(m: Message, rest: seq<byte>)
    requires FieldsFit(m)
    ensures HeaderIs(HeaderBytes(m) + rest, m.sequence, m.timestamp, |m.symbol| % TWO_16)
  {
    Width8();
    Width2And4();
    LERoundTrip(MAGIC, 4);
    LERoundTrip(m.sequence, 8);
    LERoundTrip(Unsigned(m.timestamp), 8);
    LERoundTrip(|m.symbol| % TWO_16, 2);
    HeaderSlices(ToLE(MAGIC, 4), ToLE(m.sequence, 8), ToLE(Unsigned(m.timestamp), 8),
                 m.exchangeId, ORDER_BOOK, ToLE(|m.symbol| % TWO_16, 2), rest);
  }

  /** Whatever is parsed has 16-bit lengths. */
  lemma ParsedLengthsAreShort(data: seq<byte>)
    requires Process(data).Parsed?
    ensures |Process(data).symbol| < TWO_16 && |Process(data).bids| < TWO_16 && |Process(data).asks| < TWO_16
    ensures IsUtf8(Process(data).symbol)
  {
    Width2And4();
  }

  lemma SplitAfterSymbol(h: seq<byte>, s: seq<byte>, rest: seq<byte>)
    requires |h| == HEADER_SIZE
    ensures var data := h + (s + rest);
      data[HEADER_SIZE..HEADER_SIZE + |s|] == s && data[HEADER_SIZE + |s|..] == rest
  {
  }

  /** Processing an order book packet, given what its header reads as. */
  lemma ProcessReads(data: seq<byte>, sequence: nat, timestamp: int, length: nat)
    requires HEADER_SIZE + length <= |data| && IsI64(timestamp) && HeaderIs(data, sequence, timestamp, length)
    requires IsUtf8(data[HEADER_SIZE..HEADER_SIZE + length])
    ensures Process(data) ==
      ParsePayload(data[HEADER_SIZE + length..], sequence, timestamp, data[HEADER_SIZE..HEADER_SIZE + length])
  {
  }

  lemma ProcessSplits(
    data: seq<byte>, h: seq<byte>, symbol: seq<byte>, payload: seq<byte>, sequence: nat, timestamp: int)
    requires |h| == HEADER_SIZE && data == h + (symbol + payload) && IsUtf8(symbol)
    requires IsI64(timestamp) && HeaderIs(data, sequence, timestamp, |symbol|)
    ensures Process(data) == ParsePayload(payload, sequence, timestamp, symbol)
  {
    SplitAfterSymbol(h, symbol, payload);
    ProcessReads(data, sequence, timestamp, |symbol|);
  }

  lemma PacketHeaderIs(m: Message)
    requires FieldsFit(m) && |m.symbol| < TWO_16
    ensures HeaderIs(PacketBytes(m), m.sequence, m.timestamp, |m.symbol|)
  {
    var length := |m.symbol| % TWO_16;
    assert length == |m.symbol|;
    HeaderReads(m, m.symbol + PayloadBytes(m));
    assert HeaderIs(PacketBytes(m), m.sequence, m.timestamp, length);
  }

  lemma PacketIsItsPayload(m: Message)
    requires FieldsFit(m) && IsUtf8(m.symbol) && |m.symbol| < TWO_16
    ensures Process(PacketBytes(m)) == ParsePayload(PayloadBytes(m), m.sequence, m.timestamp, m.symbol)
  {
    PacketHeaderIs(m);
    ProcessSplits(PacketBytes(m), HeaderBytes(m), m.symbol, PayloadBytes(m), m.sequence, m.timestamp);
  }

  lemma PacketRoundTrip(m: Message)
    requires FieldsFit(m) && IsUtf8(m.symbol)
    requires |m.symbol| < TWO_16 && |m.bids| < TWO_16 && |m.asks| < TWO_16
    ensures Process(PacketBytes(m)) == Parsed(m.sequence, m.timestamp, m.symbol, m.isSnapshot, m.bids, m.asks)
  {
    PacketIsItsPayload(m);
    PayloadRoundTrip(m, m.symbol);
  }

  /**
    A packet is read back as it was written exactly if symbol and lists are shorter than 65536 and
    the symbol is UTF-8, as every string is.
    */
  lemma PacketRoundTripIff(m: Message)
    requires FieldsFit(m)
    ensures Process(PacketBytes(m)) == Parsed(m.sequence, m.timestamp, m.symbol, m.isSnapshot, m.bids, m.asks)
      <==> |m.symbol| < TWO_16 && |m.bids| < TWO_16 && |m.asks| < TWO_16 && IsUtf8(m.symbol)
  {
    var outcome := Process(PacketBytes(m));
    if outcome.Parsed? {
      ParsedLengthsAreShort(PacketBytes(m));
    }
    if |m.symbol| < TWO_16 && |m.bids| < TWO_16 && |m.asks| < TWO_16 && IsUtf8(m.symbol) {
      PacketRoundTrip(m);
    }
  }

  /** A trade laid out as the receiver expects it is read back exactly if its id is UTF-8. */
  lemma TradeReadsIff(t: Outcome, side: byte, rest: seq<byte>)
    requires t.Trade? && IsU64(t.price) && IsU64(t.quantity) && t.isBuy == (side == 0) && |t.id| < 256
    ensures ParseTradePayload(TradeBytes(t, side) + rest, t.timestamp, t.symbol) == t <==> IsUtf8(t.id)
  {
    var data := TradeBytes(t, side) + rest;
    Width8();
    LERoundTrip(t.price, 8);
    LERoundTrip(t.quantity, 8);
    assert data[..8] == ToLE(t.price, 8) && data[8..16] == ToLE(t.quantity, 8);
    assert data[TRADE_SIZE..TRADE_SIZE + |t.id|] == t.id;
  }

  function TradeBytes(t: Outcome, side: byte): seq<byte>
    requires t.Trade? && |t.id| < 256
  {
    ToLE(t.price, 8) + ToLE(t.quantity, 8) + [side] + [|t.id|] + t.id
  }

  /** And then the payload is consumed to its last byte. */
  lemma PayloadIsConsumedExactly(m: Message)
    requires FieldsFit(m) && |m.symbol| < TWO_16 && |m.bids| < TWO_16 && |m.asks| < TWO_16
    ensures PayloadEnd(PacketBytes(m)[HEADER_SIZE + |m.symbol|..]) == |PacketBytes(m)| - HEADER_SIZE - |m.symbol|
  {
    SplitAfterSymbol(HeaderBytes(m), m.symbol, PayloadBytes(m));
    PayloadRoundTrip(m, m.symbol);
  }

  // ---- sequence numbers --------------------------------------------------------------------

  /** The last number after receiving packets with these numbers, 0 before any. */
  function LastNumber(ns: seq<Option<nat>>): nat
    decreases |ns|
  {
    if ns == [] then 0 else NextSequence(LastNumber(ns[..|ns| - 1]), ns[|ns| - 1])
  }

  /** None of the packets is reported as following a loss. */
  predicate NoLossReported(ns: seq<Option<nat>>)
    decreases |ns|
  {
    ns != [] ==>
      NoLossReported(ns[..|ns| - 1]) && !ReportsLoss(LastNumber(ns[..|ns| - 1]), ns[|ns| - 1])
  }

  /** Where the first n packets last started over: behind their last packet numbered 0. */
  function Restart(ns: seq<nat>, n: nat): (k: nat)
    requires n <= |ns|
    ensures k <= n
  {
    if n == 0 then 0 else if ns[n - 1] == 0 then n else Restart(ns, n - 1)
  }

  /** Every packet counts on from the last restart: 1, 2, 3 and so on, until the next 0. */
  ghost predicate CountsOn(ns: seq<nat>, n: nat)
    requires n <= |ns|
  {
    forall i :: 0 <= i < n ==> ns[i] == i + 1 - Restart(ns, i + 1)
  }

  lemma {:induction false} SilentIffCounting(ns: seq<nat>, heard: seq<Option<nat>>, n: nat)
    requires |heard| == |ns| && n <= |ns|
    requires forall i :: 0 <= i < |ns| ==> heard[i] == Some(ns[i])
    ensures NoLossReported(heard[..n]) <==> CountsOn(ns, n)
    ensures LastNumber(heard[..n]) == if n == 0 then 0 else ns[n - 1]
  {
    if n > 0 {
      SilentIffCounting(ns, heard, n - 1);
      assert heard[..n][..n - 1] == heard[..n - 1] && heard[..n][n - 1] == Some(ns[n - 1]);
      CountsOnStep(ns, n - 1);
    }
  }

  lemma CountsOnStep(ns: seq<nat>, n: nat)
    requires n < |ns|
    ensures CountsOn(ns, n + 1) <==>
      CountsOn(ns, n) && (ns[n] == 0 || ns[n] == 1 + if n == 0 then 0 else ns[n - 1])
  {
    if CountsOn(ns, n) && n > 0 {
      assert ns[n - 1] == n - Restart(ns, n);
    }
    if CountsOn(ns, n + 1) {
      assert ns[n] == n + 1 - Restart(ns, n + 1);
    }
  }

  /** The numbers a receiver reads from the encoded updates. */
  function NumbersOf(ms: seq<Message>): (ns: seq<Option<nat>>)
    requires forall i :: 0 <= i < |ms| ==> FieldsFit(ms[i])
    ensures |ns| == |ms|
  {
    seq(|ms|, i requires 0 <= i < |ms| => assert FieldsFit(ms[i]); SequenceOf(PacketBytes(ms[i])))
  }

  lemma EncodedSequence(m: Message)
    requires FieldsFit(m)
    ensures SequenceOf(PacketBytes(m)) == Some(m.sequence)
  {
    HeaderReads(m, m.symbol + PayloadBytes(m));
  }

  /**
    Over any encoded updates, a receiver reports no loss exactly if their numbers count 1, 2, 3 and
    so on from the start and again after each 0. Away from 0, no drop, repetition or swap goes
    unreported.
    */
  lemma SilentIffConsecutive(ms: seq<Message>)
    requires forall i :: 0 <= i < |ms| ==> FieldsFit(ms[i])
    ensures NoLossReported(NumbersOf(ms)) <==> CountsOn(SequencesOf(ms), |ms|)
  {
    var heard := NumbersOf(ms);
    forall i | 0 <= i < |ms| ensures heard[i] == Some(ms[i].sequence) {
      EncodedSequence(ms[i]);
    }
    SilentIffCounting(SequencesOf(ms), heard, |ms|);
    assert heard[..|ms|] == heard;
  }

  function SequencesOf(ms: seq<Message>): (ns: seq<nat>)
    ensures |ns| == |ms|
  {
    seq(|ms|, i requires 0 <= i < |ms| => ms[i].sequence)
  }

  lemma {:induction false} NoRestartWithoutZero(ns: seq<nat>, n: nat)
    requires n <= |ns| && forall i :: 0 <= i < |ns| ==> ns[i] > 0
    ensures Restart(ns, n) == 0
  {
    if n > 0 {
      NoRestartWithoutZero(ns, n - 1);
    }
  }

  /** With positive numbers only, they must be 1, 2, 3 and so on. */
  lemma SilentIffFromOne(ms: seq<Message>)
    requires forall i :: 0 <= i < |ms| ==> FieldsFit(ms[i])
    requires forall i :: 0 <= i < |ms| ==> ms[i].sequence > 0
    ensures NoLossReported(NumbersOf(ms)) <==> forall i :: 0 <= i < |ms| ==> ms[i].sequence == i + 1
  {
    SilentIffConsecutive(ms);
    var ns := SequencesOf(ms);
    forall i | 0 <= i < |ms| ensures Restart(ns, i + 1) == 0 && ns[i] == ms[i].sequence {
      NoRestartWithoutZero(ns, i + 1);
    }
  }

  /** Numbers 1, 2, 0, 1, 2 pass without a report: starting over at 0 is not noticed. */
  lemma ZeroResetsSilently()
    ensures NoLossReported([Some(1), Some(2), Some(0), Some(1), Some(2)])
  {
    var ns := [1, 2, 0, 1, 2];
    var heard := [Some(1), Some(2), Some(0), Some(1), Some(2)];
    assert Restart(ns, 1) == Restart(ns, 2) == 0;
    assert Restart(ns, 3) == Restart(ns, 4) == Restart(ns, 5) == 3;
    SilentIffCounting(ns, heard, 5);
    assert heard[..5] == heard;
  }
}
