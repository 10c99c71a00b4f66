/**
  The map-backed order book: bids under negated ticks so that ascending key order is
  best-first on both sides.
  */
module OptimizedOrderBooks {
  import opened Levels

  lemma EmptyOrSomeKey(m: map<int, int>)
    ensures m == map[] || exists k :: k in m
  {
    if forall k :: k !in m {
      assert m == map[];
    }
  }

  lemma {:induction false} LeastKeyExists(m: map<int, int>)
    requires m != map[]
    ensures exists k :: k in m && forall j :: j in m ==> k <= j
    decreases |m|
  {
    EmptyOrSomeKey(m);
    var k: int :| k in m;
    var rest := m - {k};
    if rest == map[] {
      assert forall j :: j in m ==> j == k || j in rest;
    } else {
      LeastKeyExists(rest);
      var l :| l in rest && forall j :: j in rest ==> l <= j;
      var least := if k < l then k else l;
      assert forall j :: j in m ==> j == k || j in rest;
      assert least in m && forall j :: j in m ==> least <= j;
    }
  }

  function LeastKey(m: map<int, int>): (k: int)
    requires m != map[]
    ensures k in m && forall j :: j in m ==> k <= j
  {
    LeastKeyExists(m);
    var k :| k in m && forall j :: j in m ==> k <= j;
    k
  }

  /** A level whose price is below every key of a listed map goes in front of the listing. */
  lemma PrependLeast(k: int, q: int, ls: seq<Level>)
    requires Sorted(Ask, ls) && forall j :: j in AsMap(ls) ==> k < j
    ensures Sorted(Ask, [Level(k, q)] + ls)
    ensures AsMap([Level(k, q)] + ls) == AsMap(ls)[k := q]
  {
    forall i | 0 <= i < |ls| ensures k < ls[i].price {
      PresentAt(Ask, ls, i);
    }
    assert ([Level(k, q)] + ls)[1..] == ls;
  }

  /** Iteration order of the map: entries by ascending key. */
  function Ascending(m: map<int, int>): (ls: seq<Level>)
    ensures Sorted(Ask, ls) && AsMap(ls) == m
    decreases |m|
  {
    if m == map[] then []
    else
      var k := LeastKey(m);
      var ls := Ascending(m - {k});
      PrependLeast(k, m[k], ls);
      assert (m - {k})[k := m[k]] == m;
      [Level(k, m[k])] + ls
  }

  /** The same levels with every price negated. */
  function Negated(ls: seq<Level>): seq<Level> {
    seq(|ls|, i requires 0 <= i < |ls| => Level(-ls[i].price, ls[i].qty))
  }

  lemma NegatedTwice(ls: seq<Level>)
    ensures Negated(Negated(ls)) == ls
  {
  }

  lemma {:induction false} UpsertMirrors(ls: seq<Level>, p: int, q: int)
    ensures Upsert(Ask, Negated(ls), -p, q) == Negated(Upsert(Bid, ls, p, q))
  {
    if ls != [] {
      UpsertMirrors(ls[1..], p, q);
      assert Negated(ls)[1..] == Negated(ls[1..]);
    }
  }

  lemma {:induction false} DeleteMirrors(ls: seq<Level>, p: int)
    ensures Delete(Negated(ls), -p) == Negated(Delete(ls, p))
  {
    if ls != [] {
      DeleteMirrors(ls[1..], p);
      assert Negated(ls)[1..] == Negated(ls[1..]);
    }
  }

  /** The ask side run on negated prices is the mirror image of the bid side. */
  lemma {:induction false} ApplyLevelsMirrors(ls: seq<Level>, us: seq<Level>)
    ensures ApplyLevels(Ask, Negated(ls), Negated(us)) == Negated(ApplyLevels(Bid, ls, us))
    decreases |us|
  {
    if us != [] {
      var n := |us| - 1;
      ApplyLevelsMirrors(ls, us[..n]);
      assert Negated(us)[..n] == Negated(us[..n]);
      UpsertMirrors(ApplyLevels(Bid, ls, us[..n]), us[n].price, us[n].qty);
      DeleteMirrors(ApplyLevels(Bid, ls, us[..n]), us[n].price);
    }
  }

  /** The value of a map book; bids is keyed by negated ticks. */
  datatype MapBook = MapBook(bids: map<int, int>, asks: map<int, int>, updateCount: nat)

  const EMPTY_MAP_BOOK := MapBook(map[], map[], 0)

  /** One batch: all bid updates in order, then all ask updates in order. */
  function AfterBatch(b: MapBook, bidUpdates: seq<Level>, askUpdates: seq<Level>): MapBook {
    MapBook(SetLevels(b.bids, Negated(bidUpdates)), SetLevels(b.asks, askUpdates), b.updateCount + 1)
  }

  /** The first n entries of an iteration, with true prices. */
  function TopOf(s: Side, b: MapBook, n: nat): seq<Level> {
    Take(if s.Bid? then Negated(Ascending(b.bids)) else Ascending(b.asks), n)
  }

  class OptimizedOrderBook {
    var bids: map<int, int>
    var asks: map<int, int>
    var updateCount: nat

    function Value(): MapBook
      reads this
    {
      MapBook(bids, asks, updateCount)
    }

    constructor ()
      ensures Value() == EMPTY_MAP_BOOK
    {
      bids, asks, updateCount := map[], map[], 0;
    }

    method UpdateBid(ticks: int, quantity: int)
      modifies `bids
      ensures bids == SetLevel(old(bids), Level(-ticks, quantity))
    {
      if quantity == 0 {
        bids := bids - {-ticks};
      } else {
        bids := bids[-ticks := quantity];
      }
    }

    method UpdateAsk(ticks: int, quantity: int)
      modifies `asks
      ensures asks == SetLevel(old(asks), Level(ticks, quantity))
    {
      if quantity == 0 {
        asks := asks - {ticks};
      } else {
        asks := asks[ticks := quantity];
      }
    }

    method BatchUpdate(bidUpdates: seq<Level>, askUpdates: seq<Level>)
      modifies this
      ensures Value() == AfterBatch(old(Value()), bidUpdates, askUpdates)
    {
      for i := 0 to |bidUpdates|
        invariant unchanged(`asks, `updateCount)
        invariant bids == SetLevels(old(bids), Negated(bidUpdates[..i]))
      {
        assert Negated(bidUpdates[..i + 1])[..i] == Negated(bidUpdates[..i]);
        UpdateBid(bidUpdates[i].price, bidUpdates[i].qty);
      }
      assert bidUpdates[..|bidUpdates|] == bidUpdates;
      for i := 0 to |askUpdates|
        invariant bids == SetLevels(old(bids), Negated(bidUpdates)) && unchanged(`updateCount)
        invariant asks == SetLevels(old(asks), askUpdates[..i])
      {
        assert askUpdates[..i + 1][..i] == askUpdates[..i];
        UpdateAsk(askUpdates[i].price, askUpdates[i].qty);
      }
      assert askUpdates[..|askUpdates|] == askUpdates;
      updateCount := updateCount + 1;
    }

    function TopBids(n: nat): seq<Level>
      reads this
    {
      TopOf(Bid, Value(), n)
    }

    function TopAsks(n: nat): seq<Level>
      reads this
    {
      TopOf(Ask, Value(), n)
    }
  }

  /** Iterating the maps of a fresh book after any run of levels lists the unbounded book. */
  lemma IterationListsTheBook(us: seq<Level>)
    ensures Negated(Ascending(SetLevels(map[], Negated(us)))) == ApplyLevels(Bid, [], us)
    ensures Ascending(SetLevels(map[], us)) == ApplyLevels(Ask, [], us)
  {
    ApplyLevelsMeaning(Ask, [], us);
    ListingUnique(Ask, Ascending(SetLevels(map[], us)), ApplyLevels(Ask, [], us));
    ApplyLevelsMeaning(Ask, [], Negated(us));
    ListingUnique(Ask, Ascending(SetLevels(map[], Negated(us))), ApplyLevels(Ask, [], Negated(us)));
    assert Negated([]) == [];
    ApplyLevelsMirrors([], us);
    NegatedTwice(ApplyLevels(Bid, [], us));
  }
}
