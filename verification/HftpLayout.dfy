/**
  The HFTP packet byte by byte: where every field stands, which bytes give which outcome, and that a
  packet cut short is never taken for a whole one.
  */
module HftpLayouts {
  import opened Bytes
  import opened Utf8
  import opened Wrappers
  import opened HftpPackets

  // ---- layout ------------------------------------------------------------------------------

  lemma MagicBytes()
    ensures ToLE(MAGIC, 4) == [0x50, 0x54, 0x46, 0x48]
  {
    assert ToLE(MAGIC, 4) == [0x50] + ToLE(0x48_4654, 3);
    assert ToLE(0x48_4654, 3) == [0x54] + ToLE(0x4846, 2);
    assert ToLE(0x4846, 2) == [0x46] + ToLE(0x48, 1);
    assert ToLE(0x48, 1) == [0x48] + ToLE(0, 0);
  }

  /** The 24 bytes of the header. */
  lemma HeaderLayout(m: Message)
    requires IsI64(m.timestamp)
    ensures var h := HeaderBytes(m);
      && |h| == 24 && h[..4] == [0x50, 0x54, 0x46, 0x48]
      && h[4..12] == ToLE(m.sequence, 8) && h[12..20] == ToLE(Unsigned(m.timestamp), 8)
      && h[20] == m.exchangeId && h[21] == 0 && h[22..24] == ToLE(|m.symbol| % 65536, 2)
  {
    MagicBytes();
    HeaderSlices(ToLE(MAGIC, 4), ToLE(m.sequence, 8), ToLE(Unsigned(m.timestamp), 8),
                 m.exchangeId, ORDER_BOOK, ToLE(|m.symbol| % TWO_16, 2), []);
    assert HeaderBytes(m) + [] == HeaderBytes(m);
  }

  /** One side: a 16-bit count, then 16 bytes a level, price first. */
  lemma {:induction false} LevelsLayout(ls: seq<WireLevel>, i: nat)
    requires i < |ls|
    ensures |LevelsBytes(ls)| == 16 * |ls|
    ensures LevelsBytes(ls)[16 * i..16 * i + 8] == ToLE(ls[i].price, 8)
    ensures LevelsBytes(ls)[16 * i + 8..16 * i + 16] == ToLE(ls[i].quantity, 8)
    decreases |ls|
  {
    var n := |ls| - 1;
    var init, last := LevelsBytes(ls[..n]), LevelBytes(ls[n]);
    assert LevelsBytes(ls) == init + last;
    if i < n {
      LevelsLayout(ls[..n], i);
      assert LevelsBytes(ls)[16 * i..16 * i + 8] == init[16 * i..16 * i + 8];
      assert LevelsBytes(ls)[16 * i + 8..16 * i + 16] == init[16 * i + 8..16 * i + 16];
    } else {
      assert LevelsBytes(ls)[16 * i..16 * i + 8] == last[..8];
      assert LevelsBytes(ls)[16 * i + 8..16 * i + 16] == last[8..];
    }
  }

  lemma SlicesOfFive(h: seq<byte>, s: seq<byte>, f: byte, a: seq<byte>, b: seq<byte>, c: seq<byte>, d: seq<byte>)
    requires |a| == 2 && |c| == 2
    ensures var data := h + (s + ([f] + ((a + b) + (c + d))));
      var p := |h| + |s|; var q := p + 3 + |b|;
      && |data| == q + 2 + |d| && data[..|h|] == h && data[|h|..p] == s && data[p] == f
      && data[p + 1..p + 3] == a && data[p + 3..q] == b && data[q..q + 2] == c && data[q + 2..] == d
  {
    var ab, cd := a + b, c + d;
    var tail := [f] + (ab + cd);
    var data := h + (s + tail);
    var p := |h| + |s|;
    assert data[p..] == tail;
    assert tail[1..] == ab + cd;
    assert data[p + 1..] == ab + cd;
    assert data[p + 1..p + 3] == a && data[p + 3..p + 3 + |b|] == b;
    assert data[p + 3 + |b|..] == cd;
  }

  /** The whole packet. */
  lemma PacketLayout(m: Message)
    requires IsI64(m.timestamp)
    ensures var data := PacketBytes(m);
      var p := 24 + |m.symbol|; var q := p + 3 + 16 * |m.bids|;
      && |data| == q + 2 + 16 * |m.asks| && data[..24] == HeaderBytes(m) && data[24..p] == m.symbol
      && data[p] == (if m.isSnapshot then 1 else 0)
      && data[p + 1..p + 3] == ToLE(|m.bids| % 65536, 2) && data[p + 3..q] == LevelsBytes(m.bids)
      && data[q..q + 2] == ToLE(|m.asks| % 65536, 2) && data[q + 2..] == LevelsBytes(m.asks)
  {
    SlicesOfFive(HeaderBytes(m), m.symbol, if m.isSnapshot then 1 else 0,
                 ToLE(|m.bids| % TWO_16, 2), LevelsBytes(m.bids), ToLE(|m.asks| % TWO_16, 2), LevelsBytes(m.asks));
  }

  // ---- outcomes ----------------------------------------------------------------------------

  /** The header is there and starts with the magic number. */
  predicate Accepted(data: seq<byte>) {
    |data| >= 24 && FromLE(data[..4]) == 0x4846_5450
  }

  function SymbolLength(data: seq<byte>): nat
    requires |data| >= 24
  {
    FromLE(data[22..24])
  }

  /** Symbol and text check passed; what is left is up to the payload. */
  predicate ReachesPayload(data: seq<byte>) {
    Accepted(data) && 24 + SymbolLength(data) <= |data| && IsUtf8(data[24..24 + SymbolLength(data)])
  }

  /** Which packets fail where, ahead of the payload. */
  lemma OutcomesAhead(data: seq<byte>)
    ensures Process(data) == TooSmall <==> |data| < 24
    ensures Process(data) == BadMagic <==> |data| >= 24 && FromLE(data[..4]) != 0x4846_5450
    ensures Accepted(data) && 24 + SymbolLength(data) > |data| ==> Process(data) == Panicked
    ensures Accepted(data) && 24 + SymbolLength(data) <= |data| && !ReachesPayload(data) ==> Process(data) == BadText
    ensures Process(data) == UnknownType <==> ReachesPayload(data) && data[21] > 1
  {
  }

  /** An order book payload panics exactly if its lists do not fit; a trade's if its id does not. */
  lemma OutcomesOfPayload(data: seq<byte>)
    requires ReachesPayload(data)
    ensures var payload := data[24 + SymbolLength(data)..];
      && (data[21] == 0 ==> (Process(data) == Panicked <==> PayloadEnd(payload) == 0))
      && (data[21] == 0 ==> (Process(data).Parsed? <==> PayloadEnd(payload) != 0))
      && (Process(data).Parsed? ==> Process(data).isSnapshot == (payload[0] != 0))
      && (data[21] == 1 ==> (Process(data) == Panicked <==> |payload| < 18 || |payload| < payload[17] as nat + 18))
      && (data[21] == 1 ==> (Process(data).Trade? <==>
           |payload| >= 18 && |payload| >= payload[17] as nat + 18 && IsUtf8(payload[18..payload[17] as nat + 18])))
  {
  }

  /** The lists fit exactly if the buffer reaches as far as their two counts say. */
  lemma ListsFitIff(payload: seq<byte>)
    ensures PayloadEnd(payload) != 0 <==>
      && |payload| >= 3 && |payload| >= 3 + 16 * FromLE(payload[1..3]) + 2
      && var q := 3 + 16 * FromLE(payload[1..3]); |payload| >= q + 2 + 16 * FromLE(payload[q..q + 2])
  {
  }

  lemma PrefixSlice(data: seq<byte>, n: nat, lo: nat, hi: nat)
    requires lo <= hi <= n <= |data|
    ensures data[..n][lo..hi] == data[lo..hi]
  {
  }

  /** The lists of a payload that ends with them do not fit a shorter one. */
  lemma ShorterListsDoNotFit(payload: seq<byte>, n: nat)
    requires PayloadEnd(payload) == |payload| && n < |payload|
    ensures PayloadEnd(payload[..n]) == 0
  {
    ListsFitIff(payload);
    ListsFitIff(payload[..n]);
    if n >= 3 {
      PrefixSlice(payload, n, 1, 3);
      var q := 3 + 16 * FromLE(payload[1..3]);
      if n >= q + 2 {
        PrefixSlice(payload, n, q, q + 2);
      }
    }
  }

  lemma SameHeader(data: seq<byte>, n: nat)
    requires 24 <= n <= |data|
    ensures data[..n][..4] == data[..4] && data[..n][21] == data[21] && data[..n][22..24] == data[22..24]
  {
  }

  lemma CutInSymbol(data: seq<byte>, n: nat)
    requires Accepted(data) && 24 <= n < 24 + SymbolLength(data) && n <= |data|
    ensures Process(data[..n]) == Panicked
  {
    SameHeader(data, n);
    OutcomesAhead(data[..n]);
  }

  lemma CutInPayload(data: seq<byte>, n: nat)
    requires ReachesPayload(data) && data[21] == 0 && 24 + SymbolLength(data) <= n < |data|
    requires PayloadEnd(data[24 + SymbolLength(data)..]) == |data| - 24 - SymbolLength(data)
    ensures Process(data[..n]) == Panicked
  {
    var p := 24 + SymbolLength(data);
    SameHeader(data, n);
    PrefixSlice(data, n, 24, p);
    assert data[..n][p..] == data[p..][..n - p];
    ShorterListsDoNotFit(data[p..], n - p);
    OutcomesOfPayload(data[..n]);
  }

  lemma EncodedReachesPayload(m: Message)
    requires FieldsFit(m) && IsUtf8(m.symbol) && |m.symbol| < TWO_16
    ensures ReachesPayload(PacketBytes(m)) && PacketBytes(m)[21] == 0
    ensures SymbolLength(PacketBytes(m)) == |m.symbol| && PacketBytes(m)[24 + |m.symbol|..] == PayloadBytes(m)
  {
    PacketHeaderIs(m);
    SplitAfterSymbol(HeaderBytes(m), m.symbol, PayloadBytes(m));
  }

  /** A packet cut anywhere is too small, or makes the receiver panic; it is never parsed. */
  lemma CutShortIsNeverParsed(m: Message, n: nat)
    requires FieldsFit(m) && IsUtf8(m.symbol)
    requires |m.symbol| < TWO_16 && |m.bids| < TWO_16 && |m.asks| < TWO_16
    requires n < |PacketBytes(m)|
    ensures Process(PacketBytes(m)[..n]) == if n < 24 then TooSmall else Panicked
  {
    EncodedReachesPayload(m);
    PayloadRoundTrip(m, m.symbol);
    if n < 24 {
      OutcomesAhead(PacketBytes(m)[..n]);
    } else if n < 24 + |m.symbol| {
      CutInSymbol(PacketBytes(m), n);
    } else {
      CutInPayload(PacketBytes(m), n);
    }
  }

  // ---- trades ------------------------------------------------------------------------------

  /** The header a trade would carry. */
  function TradeHeader(sequence: nat, timestamp: int, exchangeId: byte, symbolLength: nat): seq<byte>
    requires IsI64(timestamp) && symbolLength < TWO_16
  {
    ToLE(MAGIC, 4) + ToLE(sequence, 8) + ToLE(Unsigned(timestamp), 8) + [exchangeId] + [1] + ToLE(symbolLength, 2)
  }

  lemma TradeHeaderReads(sequence: nat, timestamp: int, exchangeId: byte, symbolLength: nat, rest: seq<byte>)
    requires IsI64(timestamp) && symbolLength < TWO_16
    ensures var data := TradeHeader(sequence, timestamp, exchangeId, symbolLength) + rest;
      && |data| >= 24 && FromLE(data[..4]) == MAGIC && data[21] == 1
      && FromLE(data[12..20]) == Unsigned(timestamp) && FromLE(data[22..24]) == symbolLength
  {
    Width8();
    Width2And4();
    LERoundTrip(MAGIC, 4);
    LERoundTrip(Unsigned(timestamp), 8);
    LERoundTrip(symbolLength, 2);
    HeaderSlices(ToLE(MAGIC, 4), ToLE(sequence, 8), ToLE(Unsigned(timestamp), 8),
                 exchangeId, 1, ToLE(symbolLength, 2), rest);
  }

  /** Where a trade's header stands. */
  lemma TradeHeaderLayout(sequence: nat, timestamp: int, exchangeId: byte, symbolLength: nat)
    requires IsI64(timestamp) && symbolLength < TWO_16
    ensures var h := TradeHeader(sequence, timestamp, exchangeId, symbolLength);
      && |h| == 24 && h[..4] == [0x50, 0x54, 0x46, 0x48]
      && h[4..12] == ToLE(sequence, 8) && h[12..20] == ToLE(Unsigned(timestamp), 8)
      && h[20] == exchangeId && h[21] == 1 && h[22..24] == ToLE(symbolLength, 2)
  {
    MagicBytes();
    HeaderSlices(ToLE(MAGIC, 4), ToLE(sequence, 8), ToLE(Unsigned(timestamp), 8),
                 exchangeId, 1, ToLE(symbolLength, 2), []);
    var h := TradeHeader(sequence, timestamp, exchangeId, symbolLength);
    assert h + [] == h;
  }

  /** Where a trade's price, quantity, side and id stand behind the symbol. */
  lemma TradeLayout(t: Outcome, side: byte)
    requires t.Trade? && |t.id| < 256
    ensures var data := TradeBytes(t, side);
      && |data| == 18 + |t.id| && data[..8] == ToLE(t.price, 8) && data[8..16] == ToLE(t.quantity, 8)
      && data[16] == side && data[17] == |t.id| && data[18..] == t.id
  {
  }

  lemma TradeIsProcessed(data: seq<byte>, timestamp: int, length: nat)
    requires |data| >= 24 + length && IsI64(timestamp) && IsUtf8(data[24..24 + length])
    requires FromLE(data[..4]) == MAGIC && data[21] == 1
    requires FromLE(data[12..20]) == Unsigned(timestamp) && FromLE(data[22..24]) == length
    ensures Process(data) == ParseTradePayload(data[24 + length..], timestamp, data[24..24 + length])
  {
  }

  lemma TradeReaches(h: seq<byte>, symbol: seq<byte>, payload: seq<byte>, timestamp: int)
    requires |h| == 24 && IsI64(timestamp) && IsUtf8(symbol)
    requires var data := h + (symbol + payload);
      && FromLE(data[..4]) == MAGIC && data[21] == 1
      && FromLE(data[12..20]) == Unsigned(timestamp) && FromLE(data[22..24]) == |symbol|
    ensures Process(h + (symbol + payload)) == ParseTradePayload(payload, timestamp, symbol)
  {
    SplitAfterSymbol(h, symbol, payload);
    TradeIsProcessed(h + (symbol + payload), timestamp, |symbol|);
  }

  /** A packet of type 1 reaches the trade parser and is read back whole, exactly if its id is UTF-8. */
  lemma TradePacketReadsIff(sequence: nat, exchangeId: byte, t: Outcome, side: byte)
    requires t.Trade? && IsU64(t.price) && IsU64(t.quantity) && t.isBuy == (side == 0) && |t.id| < 256
    requires IsI64(t.timestamp) && IsUtf8(t.symbol) && |t.symbol| < TWO_16
    ensures var data := TradeHeader(sequence, t.timestamp, exchangeId, |t.symbol|) + (t.symbol + TradeBytes(t, side));
      Process(data) == t <==> IsUtf8(t.id)
  {
    var h, payload := TradeHeader(sequence, t.timestamp, exchangeId, |t.symbol|), TradeBytes(t, side);
    TradeHeaderReads(sequence, t.timestamp, exchangeId, |t.symbol|, t.symbol + payload);
    TradeReaches(h, t.symbol, payload, t.timestamp);
    TradeReadsIff(t, side, []);
    assert payload + [] == payload;
  }

  // ---- rejected packets and the sequence numbers ---------------------------------------------

  /** The numbers that were read at all. */
  function Read(ns: seq<Option<nat>>): seq<Option<nat>>
    decreases |ns|
  {
    if ns == [] then []
    else Read(ns[..|ns| - 1]) + if ns[|ns| - 1].Some? then [ns[|ns| - 1]] else []
  }

  /** A packet that is too small or has the wrong magic number leaves no trace in the loss detection. */
  lemma {:induction false} RejectedDoNotCount(ns: seq<Option<nat>>)
    ensures LastNumber(ns) == LastNumber(Read(ns)) && (NoLossReported(ns) <==> NoLossReported(Read(ns)))
    decreases |ns|
  {
    if ns != [] {
      var before := Read(ns[..|ns| - 1]);
      RejectedDoNotCount(ns[..|ns| - 1]);
      if ns[|ns| - 1].Some? {
        assert Read(ns)[..|before|] == before;
      } else {
        assert Read(ns) == before;
      }
    }
  }
}
