/**
  Three implementations, one meaning: the array book, the builder's retain/push/sort book and
  the map-backed book list the same levels after every stream all three can represent.
  */
module ThreeBooks {
  import opened Levels
  import opened MarketTypes
  import opened MergedBook
  import opened OptimizedOrderBooks
  import opened FastOrderBooks
  import opened DepthExactness

  /** An array update carries at most this many levels per side; the rest are dropped. */
  const MAX_UPDATE_LEVELS: nat := 10

  function ConvertUpdate(symbolId: nat, u: OrderBookUpdate): FastUpdate {
    FastUpdate(symbolId, u.updateId, Take(u.bids, MAX_UPDATE_LEVELS), Take(u.asks, MAX_UPDATE_LEVELS), u.isSnapshot)
  }

  /** What a conversion keeps: ids and flag, and the first ten levels of either side. */
  lemma ConversionKeeps(symbolId: nat, u: OrderBookUpdate, i: nat)
    ensures var f := ConvertUpdate(symbolId, u);
      && f.symbolId == symbolId && f.updateId == u.updateId && f.isSnapshot == u.isSnapshot
      && |f.bids| == (if |u.bids| > 10 then 10 else |u.bids|) && |f.asks| == (if |u.asks| > 10 then 10 else |u.asks|)
      && (i < |f.bids| ==> f.bids[i] == u.bids[i]) && (i < |f.asks| ==> f.asks[i] == u.asks[i])
  {
  }

  function ConvertAll(symbolId: nat, us: seq<OrderBookUpdate>): seq<FastUpdate> {
    seq(|us|, i requires 0 <= i < |us| => ConvertUpdate(symbolId, us[i]))
  }

  /** All levels of one side of a stream, in application order. */
  function StreamLevels(s: Side, us: seq<OrderBookUpdate>): seq<Level>
    decreases |us|
  {
    if us == [] then [] else StreamLevels(s, us[..|us| - 1]) + UpdateSide(s, us[|us| - 1])
  }

  /** No snapshots. */
  ghost predicate Incremental(us: seq<OrderBookUpdate>) {
    forall i :: 0 <= i < |us| ==> !us[i].isSnapshot
  }

  /** What an array update can carry: increasing positive ids and few levels per side. */
  ghost predicate Convertible(us: seq<OrderBookUpdate>) {
    && (forall i :: 0 <= i < |us| ==> us[i].updateId > 0)
    && (forall i, j :: 0 <= i < j < |us| ==> us[i].updateId < us[j].updateId)
    && (forall i :: 0 <= i < |us| ==> |us[i].bids| <= MAX_UPDATE_LEVELS && |us[i].asks| <= MAX_UPDATE_LEVELS)
  }

  /** A map book after one batch per update of a stream. */
  function AfterBatches(us: seq<OrderBookUpdate>): MapBook
    decreases |us|
  {
    if us == [] then EMPTY_MAP_BOOK
    else AfterBatch(AfterBatches(us[..|us| - 1]), us[|us| - 1].bids, us[|us| - 1].asks)
  }

  /** The unbounded side never holds more than MAX_DEPTH levels along the way. */
  ghost predicate Fits(s: Side, levels: seq<Level>) {
    forall n :: 0 <= n <= |levels| ==> |ApplyLevels(s, [], levels[..n])| <= MAX_DEPTH
  }

  ghost predicate Increasing(us: seq<FastUpdate>) {
    && (forall i :: 0 <= i < |us| ==> us[i].updateId > 0)
    && (forall i, j :: 0 <= i < j < |us| ==> us[i].updateId < us[j].updateId)
  }

  lemma IncreasingPrefix(us: seq<FastUpdate>)
    requires Increasing(us) && us != []
    ensures Increasing(us[..|us| - 1]) && Advances(us, |us| - 1)
  {
  }

  lemma AdvancingLast(us: seq<FastUpdate>)
    requires us != [] && Advances(us, |us| - 1) && Advancing(us[..|us| - 1]) == us[..|us| - 1]
    ensures Advancing(us) == us
  {
  }

  lemma {:induction false} IncreasingIdsAllAdvance(us: seq<FastUpdate>)
    requires Increasing(us)
    ensures Advancing(us) == us
    decreases |us|
  {
    if us != [] {
      IncreasingPrefix(us);
      IncreasingIdsAllAdvance(us[..|us| - 1]);
      AdvancingLast(us);
    }
  }

  lemma {:induction false} ConversionKeepsLevels(s: Side, symbolId: nat, us: seq<OrderBookUpdate>)
    requires forall i :: 0 <= i < |us| ==> |us[i].bids| <= MAX_UPDATE_LEVELS && |us[i].asks| <= MAX_UPDATE_LEVELS
    ensures AllLevels(s, ConvertAll(symbolId, us)) == StreamLevels(s, us)
    decreases |us|
  {
    if us != [] {
      ConversionKeepsLevels(s, symbolId, us[..|us| - 1]);
      assert ConvertAll(symbolId, us)[..|us| - 1] == ConvertAll(symbolId, us[..|us| - 1]);
    }
  }

  /** Where the builder's side after a stream differs from the unbounded book: prices last written negative. */
  lemma {:induction false} BuilderLookup(s: Side, us: seq<OrderBookUpdate>, p: int)
    requires Incremental(us)
    ensures var side, writes := AsMap(SideLevels(s, ApplyAllToBook(NEW_BOOK, us))), LastWrites(StreamLevels(s, us));
      && (p in side <==> p in writes && writes[p] > 0)
      && (p in side ==> side[p] == writes[p])
    decreases |us|
  {
    if us != [] {
      var before, u := us[..|us| - 1], us[|us| - 1];
      var side := SideLevels(s, ApplyAllToBook(NEW_BOOK, before));
      BuilderLookup(s, before, p);
      BuilderIsSorted(s, before);
      MergeStaysDistinct(side, UpdateSide(s, u));
      SortMeaning(s, MergeLevels(side, UpdateSide(s, u)));
      MergeLookup(side, UpdateSide(s, u), p);
      LastWritesAppend(StreamLevels(s, before), UpdateSide(s, u));
    }
  }

  lemma {:induction false} BuilderIsSorted(s: Side, us: seq<OrderBookUpdate>)
    requires Incremental(us)
    ensures Sorted(s, SideLevels(s, ApplyAllToBook(NEW_BOOK, us)))
    decreases |us|
  {
    if us != [] {
      var before, u := us[..|us| - 1], us[|us| - 1];
      var side := SideLevels(s, ApplyAllToBook(NEW_BOOK, before));
      BuilderIsSorted(s, before);
      MergeStaysDistinct(side, UpdateSide(s, u));
      SortMeaning(s, MergeLevels(side, UpdateSide(s, u)));
    }
  }

  /** A price last written negative is in the book but not with the builder; every other price agrees. */
  lemma BuilderAgreesAt(s: Side, us: seq<OrderBookUpdate>, p: int)
    requires Incremental(us)
    ensures var levels := StreamLevels(s, us);
      var side, book := AsMap(SideLevels(s, ApplyAllToBook(NEW_BOOK, us))), SetLevels(map[], levels);
      if p in LastWrites(levels) && LastWrites(levels)[p] < 0 then p in book && p !in side
      else (p in side <==> p in book) && (p in side ==> side[p] == book[p])
  {
    BuilderLookup(s, us, p);
    SetLevelsLookup(map[], StreamLevels(s, us), p);
  }

  lemma BuilderMapIff(s: Side, us: seq<OrderBookUpdate>)
    requires Incremental(us)
    ensures AsMap(SideLevels(s, ApplyAllToBook(NEW_BOOK, us))) == SetLevels(map[], StreamLevels(s, us)) <==>
      AllNonNegative(LastWrites(StreamLevels(s, us)))
  {
    var writes := LastWrites(StreamLevels(s, us));
    var side, book := AsMap(SideLevels(s, ApplyAllToBook(NEW_BOOK, us))), SetLevels(map[], StreamLevels(s, us));
    if AllNonNegative(writes) {
      forall p ensures (p in side <==> p in book) && (p in side ==> side[p] == book[p]) {
        BuilderAgreesAt(s, us, p);
      }
      assert side == book;
    } else {
      var p :| p in writes && writes[p] < 0;
      BuilderAgreesAt(s, us, p);
      assert p in book && p !in side;
    }
  }

  /**
    After any stream without snapshots the builder's side is the unbounded book exactly if no
    price's last quantity is negative: the builder drops what is not positive, the book only zero.
    */
  lemma BuilderListsTheBookIff(s: Side, us: seq<OrderBookUpdate>)
    requires Incremental(us)
    ensures SideLevels(s, ApplyAllToBook(NEW_BOOK, us)) == ApplyLevels(s, [], StreamLevels(s, us)) <==>
      AllNonNegative(LastWrites(StreamLevels(s, us)))
  {
    var built, listed := SideLevels(s, ApplyAllToBook(NEW_BOOK, us)), ApplyLevels(s, [], StreamLevels(s, us));
    BuilderMapIff(s, us);
    BuilderIsSorted(s, us);
    ApplyLevelsMeaning(s, [], StreamLevels(s, us));
    if AsMap(built) == AsMap(listed) {
      ListingUnique(s, built, listed);
    }
  }

  lemma FastListsTheBook(s: Side, symbolId: nat, us: seq<OrderBookUpdate>)
    requires Convertible(us) && Fits(s, StreamLevels(s, us))
    ensures BookSide(s, ApplyUpdates(EMPTY_BOOK, ConvertAll(symbolId, us))) == ApplyLevels(s, [], StreamLevels(s, us))
  {
    IncreasingIdsAllAdvance(ConvertAll(symbolId, us));
    BookFromAccepted(s, ConvertAll(symbolId, us));
    ConversionKeepsLevels(s, symbolId, us);
    NeverFullMeansExact(s, StreamLevels(s, us));
  }

  lemma NegatedAppend(a: seq<Level>, b: seq<Level>)
    ensures Negated(a + b) == Negated(a) + Negated(b)
  {
  }

  /** One batch per update amounts to setting all levels of the stream in order. */
  lemma {:induction false} BatchesSetTheStream(us: seq<OrderBookUpdate>)
    ensures AfterBatches(us) ==
      MapBook(SetLevels(map[], Negated(StreamLevels(Bid, us))), SetLevels(map[], StreamLevels(Ask, us)), |us|)
    decreases |us|
  {
    if us != [] {
      var before, u := us[..|us| - 1], us[|us| - 1];
      BatchesSetTheStream(before);
      NegatedAppend(StreamLevels(Bid, before), u.bids);
      SetLevelsAppend(map[], Negated(StreamLevels(Bid, before)), Negated(u.bids));
      SetLevelsAppend(map[], StreamLevels(Ask, before), u.asks);
    }
  }

  /** After any stream at all, the map book serves the first n levels of the unbounded book. */
  lemma MapListsTheBook(s: Side, us: seq<OrderBookUpdate>, n: nat)
    ensures TopOf(s, AfterBatches(us), n) == Take(ApplyLevels(s, [], StreamLevels(s, us)), n)
  {
    BatchesSetTheStream(us);
    IterationListsTheBook(StreamLevels(s, us));
  }

  /** So do the best levels asked of a map book object that went through the stream. */
  lemma ObjectServesTheBook(book: OptimizedOrderBook, us: seq<OrderBookUpdate>, n: nat)
    requires book.Value() == AfterBatches(us)
    ensures book.TopBids(n) == Take(ApplyLevels(Bid, [], StreamLevels(Bid, us)), n)
    ensures book.TopAsks(n) == Take(ApplyLevels(Ask, [], StreamLevels(Ask, us)), n)
  {
    MapListsTheBook(Bid, us, n);
    MapListsTheBook(Ask, us, n);
  }

  /**
    One side of the three books after the same stream: array book and map book hold the same
    levels in the same order, and the builder does exactly if no price's last quantity is negative.
    */
  lemma ThreeImplementationsAgree(s: Side, symbolId: nat, us: seq<OrderBookUpdate>, n: nat)
    requires Incremental(us) && Convertible(us) && Fits(s, StreamLevels(s, us))
    ensures var fast := BookSide(s, ApplyUpdates(EMPTY_BOOK, ConvertAll(symbolId, us)));
      var built := SideLevels(s, ApplyAllToBook(NEW_BOOK, us));
      && Sorted(s, fast) && TopOf(s, AfterBatches(us), n) == Take(fast, n)
      && (built == fast <==> AllNonNegative(LastWrites(StreamLevels(s, us))))
  {
    FastListsTheBook(s, symbolId, us);
    MapListsTheBook(s, us, n);
    BuilderListsTheBookIff(s, us);
    ApplyLevelsMeaning(s, [], StreamLevels(s, us));
  }

  /** The same for one increment on any sorted side. */
  lemma NegativeQuantitySeparates(s: Side, ls: seq<Level>, us: seq<Level>)
    requires Sorted(s, ls)
    ensures SortLevels(s, MergeLevels(ls, us)) == ApplyLevels(s, ls, us) <==> AllNonNegative(LastWrites(us))
  {
    MergeStaysDistinct(ls, us);
    SortMeaning(s, MergeLevels(ls, us));
    ApplyLevelsMeaning(s, ls, us);
    MergeIsSetIff(ls, us);
    if AsMap(MergeLevels(ls, us)) == SetLevels(AsMap(ls), us) {
      ListingUnique(s, SortLevels(s, MergeLevels(ls, us)), ApplyLevels(s, ls, us));
    }
  }

  const SHORT_SALE := OrderBookUpdate(0, [Level(100, -1)], [], false, 1, 0)

  lemma ShortSaleLevels()
    ensures StreamLevels(Bid, [SHORT_SALE]) == [Level(100, -1)]
    ensures ApplyLevels(Bid, [], [Level(100, -1)]) == [Level(100, -1)]
    ensures Fits(Bid, [Level(100, -1)])
  {
    assert [SHORT_SALE][..0] == [];
    assert StreamLevels(Bid, [SHORT_SALE]) == [] + SHORT_SALE.bids;
    var levels := [Level(100, -1)];
    assert levels[..0] == [] && levels[..1] == levels;
  }

  lemma BuilderDropsShortSale()
    ensures ApplyAllToBook(NEW_BOOK, [SHORT_SALE]).bids == []
  {
    assert [SHORT_SALE][..0] == [];
    assert MergeLevels([], SHORT_SALE.bids) == [] by {
      assert SHORT_SALE.bids[..0] == [];
    }
  }

  lemma ArrayKeepsShortSale()
    ensures ApplyUpdates(EMPTY_BOOK, ConvertAll(0, [SHORT_SALE])).bids == [Level(100, -1)]
  {
    ShortSaleLevels();
    FastListsTheBook(Bid, 0, [SHORT_SALE]);
    var book := ApplyUpdates(EMPTY_BOOK, ConvertAll(0, [SHORT_SALE]));
    assert BookSide(Bid, book) == book.bids;
  }

  /** The books do part: a single new level of quantity -1 is dropped by the builder alone. */
  lemma NegativeQuantityParts()
    ensures ApplyAllToBook(NEW_BOOK, [SHORT_SALE]).bids == []
    ensures ApplyUpdates(EMPTY_BOOK, ConvertAll(0, [SHORT_SALE])).bids == [Level(100, -1)]
    ensures TopOf(Bid, AfterBatches([SHORT_SALE]), 20) == [Level(100, -1)]
  {
    BuilderDropsShortSale();
    ArrayKeepsShortSale();
    ShortSaleLevels();
    MapListsTheBook(Bid, [SHORT_SALE], 20);
  }
}
