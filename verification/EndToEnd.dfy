/**
  From sender to receiver: books flushed as a bids packet and an asks packet, parsed and
  aggregated on the other side.
  */
module EndToEnd {
  import opened Bytes
  import opened BinaryPackets
  import opened PacketLayouts
  import opened Aggregators
  import opened Wrappers

  const MAX_UDP_PACKET_SIZE: nat := 1472
  const NANOS_PER_MICRO: nat := 1000

  /** A partial book is keyed by the exchange of the port it came in on and by the symbol. */
  type Key = (nat, seq<byte>)

  /** A book on its way: its port's exchange and the send times of its two packets. */
  datatype Outgoing = Outgoing(exchange: nat, book: OrderBookData, bidsTime: nat, asksTime: nat)

  /** A packet as the receiver gets it: the exchange of the port and the bytes. */
  datatype Datagram = Datagram(exchange: nat, bytes: seq<byte>)

  datatype Delivered = Delivered(
    exchange: nat, symbol: seq<byte>, timestamp: nat, bids: seq<Item>, asks: seq<Item>)

  // ---- the sender --------------------------------------------------------------------------

  function SidePacket(o: Outgoing, isBid: bool): seq<Datagram>
    requires Sendable(o.book)
  {
    if SideItems(o.book, isBid) == [] then []
    else
      var bytes := PacketBytes(o.book, isBid, if isBid then o.bidsTime else o.asksTime);
      if |bytes| <= MAX_UDP_PACKET_SIZE then [Datagram(o.exchange, bytes)] else []
  }

  /** Bids first, then asks; an empty side sends nothing. */
  function Flushed(o: Outgoing): seq<Datagram>
    requires Sendable(o.book)
  {
    SidePacket(o, true) + SidePacket(o, false)
  }

  ghost predicate AllSendable(os: seq<Outgoing>) {
    forall i :: 0 <= i < |os| ==>
      Sendable(os[i].book) && IsU64(os[i].bidsTime) && IsU64(os[i].asksTime)
  }

  function FlushedAll(os: seq<Outgoing>): seq<Datagram>
    requires AllSendable(os)
  {
    if os == [] then [] else FlushedAll(os[..|os| - 1]) + Flushed(os[|os| - 1])
  }

  // ---- the receiver ------------------------------------------------------------------------

  datatype Receiver = Receiver(partials: map<Key, Partial<seq<Item>>>, delivered: seq<Delivered>)

  const IDLE := Receiver(map[], [])

  /** A parsed packet and its exchange timestamp in nanoseconds. */
  datatype Parsed = Parsed(packet: Packet<Key, seq<Item>>, nanos: nat)

  /** Too short a packet, or one without levels, is dropped. */
  function Parse(d: Datagram): Option<Parsed> {
    if |d.bytes| < HEADER_SIZE then None
    else
      var header := ParseHeader(d.bytes);
      match ParseLevels(d.bytes)
      case None => None
      case Some(levels) =>
        var key := (d.exchange, ParseName(header.symbol));
        Some(Parsed(Packet(key, IsBid(header.flags), levels, IsLast(header.flags)), header.exchangeTimestamp))
  }

  function DeliveredAs(x: Parsed, pair: Pair<seq<Item>>): Delivered {
    Delivered(x.packet.key.0, x.packet.key.1, x.nanos / NANOS_PER_MICRO, pair.bids, pair.asks)
  }

  function Feed(r: Receiver, x: Parsed): Receiver {
    var pair := Emission(r.partials, x.packet);
    Receiver(After(r.partials, x.packet),
             if pair.Some? then r.delivered + [DeliveredAs(x, pair.value)] else r.delivered)
  }

  function Receive(r: Receiver, d: Datagram): Receiver {
    var x := Parse(d);
    if x.Some? then Feed(r, x.value) else r
  }

  function ReceiveAll(r: Receiver, ds: seq<Datagram>): Receiver
    decreases |ds|
  {
    if ds == [] then r else Receive(ReceiveAll(r, ds[..|ds| - 1]), ds[|ds| - 1])
  }

  /** The handler's order book branch: what it leaves in the aggregator and what it sends on. */
  method ReceiveDatagram(aggregator: OrderBookAggregator<Key, seq<Item>>, d: Datagram)
    returns (update: Option<Delivered>)
    modifies aggregator
    ensures Receiver(aggregator.partialBooks, if update.Some? then [update.value] else [])
      == Receive(Receiver(old(aggregator.partialBooks), []), d)
  {
    if |d.bytes| < HEADER_SIZE {
      return None;
    }
    var header := ParseHeader(d.bytes);
    var levels := ParseOrderBookLevels(d.bytes);
    if levels.None? {
      return None;
    }
    var key := (d.exchange, ParseName(header.symbol));
    var pair := aggregator.Handle(Packet(key, IsBid(header.flags), levels.value, IsLast(header.flags)));
    if pair.None? {
      return None;
    }
    update := Some(Delivered(d.exchange, key.1, header.exchangeTimestamp / NANOS_PER_MICRO,
                             pair.value.bids, pair.value.asks));
  }

  // ---- the round trip ----------------------------------------------------------------------

  /** What the receiver should make of a book: both sides' first seven levels at wire precision. */
  function Expected(o: Outgoing): Delivered
    requires Sendable(o.book)
  {
    Delivered(o.exchange, o.book.symbol, o.book.timestamp * NanosPer(o.book.unit) / NANOS_PER_MICRO,
              Carried(o.book, true), Carried(o.book, false))
  }

  /** Both sides have levels, and the symbol fits its field. */
  ghost predicate TwoSided(o: Outgoing) {
    && o.book.bids != [] && o.book.asks != []
    && |o.book.symbol| < NAME_FIELD && 0 !in o.book.symbol
  }

  lemma PacketsAlwaysFit(o: Outgoing, isBid: bool)
    requires Sendable(o.book)
    ensures |PacketBytes(o.book, isBid, if isBid then o.bidsTime else o.asksTime)| <= MAX_UDP_PACKET_SIZE
  {
    assert |Payload(Carried(o.book, isBid))| <= Extent(MAX_ITEMS);
  }

  /** A book goes out as one packet for each side that has levels, bids first; the size check stops none. */
  lemma BookGoesOut(o: Outgoing)
    requires Sendable(o.book)
    ensures var ds, bids, asks := Flushed(o), o.book.bids != [], o.book.asks != [];
      && |ds| == (if bids then 1 else 0) + (if asks then 1 else 0)
      && (bids ==> ds[0] == Datagram(o.exchange, PacketBytes(o.book, true, o.bidsTime)))
      && (asks ==> ds[|ds| - 1] == Datagram(o.exchange, PacketBytes(o.book, false, o.asksTime)))
      && forall i :: 0 <= i < |ds| ==> |ds[i].bytes| <= 170
  {
    PacketsAlwaysFit(o, true);
    PacketsAlwaysFit(o, false);
    SidePacketLayout(o.book, true, o.bidsTime);
    SidePacketLayout(o.book, false, o.asksTime);
  }

  function SideParsed(o: Outgoing, isBid: bool): Parsed
    requires Sendable(o.book)
  {
    Parsed(Packet((o.exchange, ParseName(NameField(o.book.symbol))), isBid, Carried(o.book, isBid), true),
           o.book.timestamp * NanosPer(o.book.unit))
  }

  /** How the receiver reads a side's packet. */
  lemma SidePacketReads(o: Outgoing, isBid: bool)
    requires Sendable(o.book) && IsU64(o.bidsTime) && IsU64(o.asksTime)
    requires SideItems(o.book, isBid) != []
    ensures |SidePacket(o, isBid)| == 1 && Parse(SidePacket(o, isBid)[0]) == Some(SideParsed(o, isBid))
  {
    PacketsAlwaysFit(o, isBid);
    PacketRoundTrip(o.book, isBid, if isBid then o.bidsTime else o.asksTime);
    SideFlags(o.book, isBid, if isBid then o.bidsTime else o.asksTime);
  }

  /** Bids then asks of one key, with nothing pending, complete one pair and leave nothing behind. */
  lemma TwoSidesComplete(r: Receiver, x: Parsed, y: Parsed)
    requires r.partials == map[] && x.packet.key == y.packet.key
    requires x.packet.isBid && !y.packet.isBid && y.packet.isLast
    ensures Feed(Feed(r, x), y) ==
      Receiver(map[], r.delivered + [DeliveredAs(y, Pair(x.packet.levels, y.packet.levels))])
  {
    var half := Feed(r, x);
    assert half.partials == map[x.packet.key := Partial(Some(x.packet.levels), None)];
    assert Stored(half.partials, y.packet) - {y.packet.key} == map[];
  }

  lemma ReceiveTwo(r: Receiver, d: Datagram, e: Datagram)
    ensures ReceiveAll(r, [d]) == Receive(r, d)
    ensures ReceiveAll(r, [d, e]) == Receive(Receive(r, d), e)
  {
    assert [d][..0] == [] && ReceiveAll(r, [d]) == Receive(r, d);
    assert [d, e][..1] == [d];
  }

  lemma BookArrives(r: Receiver, o: Outgoing)
    requires Sendable(o.book) && IsU64(o.bidsTime) && IsU64(o.asksTime)
    requires o.book.bids != [] && o.book.asks != [] && r.partials == map[]
    ensures IsDelivery(o, Expected(o))
    ensures ReceiveAll(r, Flushed(o)) ==
      Receiver(map[], r.delivered + [Expected(o).(symbol := ParseName(NameField(o.book.symbol)))])
  {
    ExpectedIsDelivery(o);
    SidePacketReads(o, true);
    SidePacketReads(o, false);
    assert Flushed(o) == [SidePacket(o, true)[0], SidePacket(o, false)[0]];
    ReceiveTwo(r, SidePacket(o, true)[0], SidePacket(o, false)[0]);
    TwoSidesComplete(r, SideParsed(o, true), SideParsed(o, false));
  }

  lemma OneSideCompletesNothing(x: Parsed)
    ensures Feed(IDLE, x).delivered == []
  {
    assert PartialOf(Stored(IDLE.partials, x.packet), x.packet.key)
      == WithLevels(Partial(None, None), x.packet.isBid, x.packet.levels);
  }

  /** One side alone completes nothing. */
  lemma OneSideWaits(o: Outgoing)
    requires Sendable(o.book) && IsU64(o.bidsTime) && IsU64(o.asksTime)
    requires o.book.bids == [] || o.book.asks == []
    ensures ReceiveAll(IDLE, Flushed(o)).delivered == []
  {
    if o.book.bids == [] && o.book.asks == [] {
      assert Flushed(o) == [];
    } else {
      var isBid := o.book.asks == [];
      SidePacketReads(o, isBid);
      assert Flushed(o) == [SidePacket(o, isBid)[0]];
      ReceiveTwo(IDLE, SidePacket(o, isBid)[0], SidePacket(o, isBid)[0]);
      OneSideCompletesNothing(SideParsed(o, isBid));
    }
  }

  /** A book arrives as it was meant to exactly if it has both sides and its symbol fits the field. */
  lemma ArrivesIntactIff(o: Outgoing)
    requires Sendable(o.book) && IsU64(o.bidsTime) && IsU64(o.asksTime)
    ensures ReceiveAll(IDLE, Flushed(o)).delivered == [Expected(o)] <==> TwoSided(o)
  {
    var arrived := ReceiveAll(IDLE, Flushed(o)).delivered;
    var name := ParseName(NameField(o.book.symbol));
    NameSurvivesIff(o.book.symbol);
    if o.book.bids != [] && o.book.asks != [] {
      BookArrives(IDLE, o);
      assert arrived == [Expected(o).(symbol := name)];
      RenamedIff(Expected(o), name);
    } else {
      OneSideWaits(o);
      assert arrived == [];
    }
  }

  lemma RenamedIff(d: Delivered, name: seq<byte>)
    ensures [d.(symbol := name)] == [d] <==> name == d.symbol
  {
    assert [d.(symbol := name)][0] == d.(symbol := name) && [d][0] == d;
  }

  lemma {:induction false} ReceiveAllAppend(r: Receiver, a: seq<Datagram>, b: seq<Datagram>)
    ensures ReceiveAll(r, a + b) == ReceiveAll(ReceiveAll(r, a), b)
    decreases |b|
  {
    if b == [] {
      assert a + b == a;
    } else {
      assert (a + b)[..|a + b| - 1] == a + b[..|b| - 1];
      ReceiveAllAppend(r, a, b[..|b| - 1]);
    }
  }

  function ExpectedAll(os: seq<Outgoing>): seq<Delivered>
    requires AllSendable(os)
  {
    if os == [] then [] else ExpectedAll(os[..|os| - 1]) + [Expected(os[|os| - 1])]
  }

  /**
    Sent in order and delivered without loss, every two-sided book arrives as exactly one update:
    its first seven levels per side at 10^8, its symbol, and its exchange timestamp in microseconds.
    */
  lemma {:induction false} EveryBookArrivesOnce(os: seq<Outgoing>)
    requires AllSendable(os) && forall i :: 0 <= i < |os| ==> TwoSided(os[i])
    ensures ReceiveAll(IDLE, FlushedAll(os)) == Receiver(map[], ExpectedAll(os))
    ensures |ExpectedAll(os)| == |os|
    ensures forall k :: 0 <= k < |os| ==> IsDelivery(os[k], ExpectedAll(os)[k])
    decreases |os|
  {
    forall k | 0 <= k < |os| ensures |ExpectedAll(os)| == |os| && IsDelivery(os[k], ExpectedAll(os)[k]) {
      ExpectedAllAreDeliveries(os, k);
    }
    if os != [] {
      var before, o := os[..|os| - 1], os[|os| - 1];
      EveryBookArrivesOnce(before);
      ReceiveAllAppend(IDLE, FlushedAll(before), Flushed(o));
      BookArrives(Receiver(map[], ExpectedAll(before)), o);
      NameSurvivesIff(o.book.symbol);
    }
  }

  // ---- many streams ------------------------------------------------------------------------

  /** The datagrams a choice of keys is concerned with. */
  function Concerning(keep: Key -> bool, ds: seq<Datagram>): seq<Datagram>
    decreases |ds|
  {
    if ds == [] then []
    else
      var d := ds[|ds| - 1];
      Concerning(keep, ds[..|ds| - 1])
        + if |d.bytes| >= HEADER_SIZE && keep((d.exchange, ParseName(ParseHeader(d.bytes).symbol))) then [d] else []
  }

  function DeliveredTo(keep: Key -> bool, us: seq<Delivered>): seq<Delivered>
    decreases |us|
  {
    if us == [] then []
    else
      var u := us[|us| - 1];
      DeliveredTo(keep, us[..|us| - 1]) + if keep((u.exchange, u.symbol)) then [u] else []
  }

  lemma DeliveredOneMore(keep: Key -> bool, us: seq<Delivered>, u: Delivered)
    ensures DeliveredTo(keep, us + [u]) == DeliveredTo(keep, us) + if keep((u.exchange, u.symbol)) then [u] else []
  {
    assert (us + [u])[..|us|] == us;
  }

  /** The receiver that sees everything, looked at through the chosen keys, is the one that sees only theirs. */
  ghost predicate SameFor(keep: Key -> bool, all: Receiver, own: Receiver) {
    && (forall k :: keep(k) ==> PartialOf(all.partials, k) == PartialOf(own.partials, k))
    && DeliveredTo(keep, all.delivered) == own.delivered
  }

  lemma FeedForeign(keep: Key -> bool, all: Receiver, own: Receiver, x: Parsed)
    requires SameFor(keep, all, own) && !keep(x.packet.key)
    ensures SameFor(keep, Feed(all, x), own)
  {
    var pair := Emission(all.partials, x.packet);
    if pair.Some? {
      DeliveredOneMore(keep, all.delivered, DeliveredAs(x, pair.value));
    }
  }

  lemma FeedOwn(keep: Key -> bool, all: Receiver, own: Receiver, x: Parsed)
    requires SameFor(keep, all, own) && keep(x.packet.key)
    ensures SameFor(keep, Feed(all, x), Feed(own, x))
  {
    var pair := Emission(all.partials, x.packet);
    assert pair == Emission(own.partials, x.packet);
    if pair.Some? {
      DeliveredOneMore(keep, all.delivered, DeliveredAs(x, pair.value));
    }
  }

  lemma {:induction false} StreamsFlowApart(keep: Key -> bool, ds: seq<Datagram>)
    ensures SameFor(keep, ReceiveAll(IDLE, ds), ReceiveAll(IDLE, Concerning(keep, ds)))
    decreases |ds|
  {
    if ds != [] {
      var n := |ds| - 1;
      var all, own := ReceiveAll(IDLE, ds[..n]), ReceiveAll(IDLE, Concerning(keep, ds[..n]));
      StreamsFlowApart(keep, ds[..n]);
      var before, after := Concerning(keep, ds[..n]), Concerning(keep, ds);
      if after == before + [ds[n]] {
        assert after[..|after| - 1] == before;
      } else {
        assert after == before;
      }
      var x := Parse(ds[n]);
      if x.Some? {
        if keep(x.value.packet.key) {
          FeedOwn(keep, all, own, x.value);
        } else {
          FeedForeign(keep, all, own, x.value);
        }
      }
    }
  }

  /**
    Any choice of keys, such as those of one port or a single symbol's: if what arrives for them is
    a stream sent in order without loss, in any interleaving with anything else that arrives, lost
    or damaged as it may be, then what is delivered for them is that stream's books, each once.
    */
  lemma EveryStreamArrives(keep: Key -> bool, ds: seq<Datagram>, os: seq<Outgoing>)
    requires AllSendable(os) && forall i :: 0 <= i < |os| ==> TwoSided(os[i])
    requires Concerning(keep, ds) == FlushedAll(os)
    ensures DeliveredTo(keep, ReceiveAll(IDLE, ds).delivered) == ExpectedAll(os)
  {
    StreamsFlowApart(keep, ds);
    EveryBookArrivesOnce(os);
  }

  // ---- what is delivered, in numbers ---------------------------------------------------------

  /** A timestamp in microseconds. */
  function InMicros(timestamp: nat, unit: TimestampUnit): nat {
    match unit
    case Seconds => timestamp * 1_000_000
    case Milliseconds => timestamp * 1000
    case Microseconds => timestamp
    case Nanoseconds => timestamp / 1000
  }

  lemma MicrosOf(timestamp: nat, unit: TimestampUnit)
    ensures timestamp * NanosPer(unit) / NANOS_PER_MICRO == InMicros(timestamp, unit)
  {
  }

  /** d is the book o, with its own symbol and time, and the first seven levels of either side at 10^8. */
  ghost predicate IsDelivery(o: Outgoing, d: Delivered) {
    && d.exchange == o.exchange && d.symbol == o.book.symbol
    && d.timestamp == InMicros(o.book.timestamp, o.book.unit)
    && AreFirstLevels(o.book, o.book.bids, d.bids) && AreFirstLevels(o.book, o.book.asks, d.asks)
  }

  lemma ExpectedIsDelivery(o: Outgoing)
    requires Sendable(o.book)
    ensures IsDelivery(o, Expected(o))
  {
    MicrosOf(o.book.timestamp, o.book.unit);
    CarriedAreFirstLevels(o.book, true);
    CarriedAreFirstLevels(o.book, false);
  }

  lemma {:induction false} ExpectedAllAreDeliveries(os: seq<Outgoing>, k: nat)
    requires AllSendable(os) && k < |os|
    ensures |ExpectedAll(os)| == |os| && IsDelivery(os[k], ExpectedAll(os)[k])
    decreases |os|
  {
    var n := |os| - 1;
    ExpectedCount(os[..n]);
    if k == n {
      ExpectedIsDelivery(os[n]);
    } else {
      ExpectedAllAreDeliveries(os[..n], k);
    }
  }

  lemma {:induction false} ExpectedCount(os: seq<Outgoing>)
    requires AllSendable(os)
    ensures |ExpectedAll(os)| == |os|
    decreases |os|
  {
    if os != [] {
      ExpectedCount(os[..|os| - 1]);
    }
  }

  /**
    The k-th book of a stream sent in order without loss is the k-th one delivered: the same symbol,
    its timestamp in microseconds, and of either side the first seven levels, each price and quantity
    brought to 10^8, whatever else arrives in between.
    */
  lemma DeliveredInOrder(keep: Key -> bool, ds: seq<Datagram>, os: seq<Outgoing>, k: nat)
    requires AllSendable(os) && forall i :: 0 <= i < |os| ==> TwoSided(os[i])
    requires Concerning(keep, ds) == FlushedAll(os) && k < |os|
    ensures var delivered := DeliveredTo(keep, ReceiveAll(IDLE, ds).delivered);
      |delivered| == |os| && IsDelivery(os[k], delivered[k])
  {
    EveryStreamArrives(keep, ds, os);
    ExpectedAllAreDeliveries(os, k);
  }

  /** A datagram is used exactly if it is long enough and holds levels; what it says is in these bytes. */
  lemma DatagramFields(d: Datagram)
    ensures Parse(d).Some? <==> |d.bytes| >= 58 && ParseLevels(d.bytes).Some?
    ensures Parse(d).Some? ==>
      var x, f := Parse(d).value, d.bytes[17] as bv8;
      && x.packet.key == (d.exchange, ParseName(d.bytes[18..38])) && x.nanos == FromBE(d.bytes[1..9])
      && x.packet.isLast == (f >= 128) && x.packet.isBid == (f / 8 % 2 == 1)
      && x.packet.levels == ParseLevels(d.bytes).value
  {
    if |d.bytes| >= 58 {
      FlagFields(d.bytes[17] as bv8);
    }
  }
}
