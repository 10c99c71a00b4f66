/**
  How the order book builder applies an update: a snapshot replaces both sides as sent; an
  increment drops every level at each listed price, appends the new one if its quantity is
  positive, and finally sorts.
  */
module MergedBook {
  import opened Levels
  import opened MarketTypes

  function RetainOthers(ls: seq<Level>, p: int): seq<Level> {
    if ls == [] then []
    else (if ls[0].price != p then [ls[0]] else []) + RetainOthers(ls[1..], p)
  }

  function MergeLevel(ls: seq<Level>, u: Level): seq<Level> {
    RetainOthers(ls, u.price) + if u.qty > 0 then [u] else []
  }

  function MergeLevels(ls: seq<Level>, us: seq<Level>): seq<Level>
    decreases |us|
  {
    if us == [] then ls else MergeLevel(MergeLevels(ls, us[..|us| - 1]), us[|us| - 1])
  }

  /** Stable sort, best price first. */
  function SortLevels(s: Side, ls: seq<Level>): seq<Level> {
    if ls == [] then [] else InsertLevel(s, ls[0], SortLevels(s, ls[1..]))
  }

  function InsertLevel(s: Side, x: Level, ls: seq<Level>): seq<Level> {
    if ls == [] || !Better(s, ls[0].price, x.price) then [x] + ls
    else [ls[0]] + InsertLevel(s, x, ls[1..])
  }

  function ApplySide(s: Side, ls: seq<Level>, u: OrderBookUpdate): seq<Level> {
    if u.isSnapshot then UpdateSide(s, u) else SortLevels(s, MergeLevels(ls, UpdateSide(s, u)))
  }

  function ApplyToBook(b: OrderBook, u: OrderBookUpdate): OrderBook {
    OrderBook(u.timestamp, ApplySide(Bid, b.bids, u), ApplySide(Ask, b.asks, u),
              u.updateId, b.updateCount + 1)
  }

  function ApplyAllToBook(b: OrderBook, us: seq<OrderBookUpdate>): OrderBook
    decreases |us|
  {
    if us == [] then b else ApplyToBook(ApplyAllToBook(b, us[..|us| - 1]), us[|us| - 1])
  }

  ghost predicate Distinct(ls: seq<Level>) {
    forall i, j :: 0 <= i < j < |ls| ==> ls[i].price != ls[j].price
  }

  ghost predicate NonNegative(ls: seq<Level>) {
    forall i :: 0 <= i < |ls| ==> ls[i].qty >= 0
  }

  ghost predicate AllNonNegative(m: map<int, int>) {
    forall p :: p in m ==> m[p] >= 0
  }

  lemma {:induction false} RetainMeaning(ls: seq<Level>, p: int)
    ensures AsMap(RetainOthers(ls, p)) == AsMap(ls) - {p}
    ensures forall i :: 0 <= i < |RetainOthers(ls, p)| ==> RetainOthers(ls, p)[i].price != p
  {
    if ls != [] {
      var rest := RetainOthers(ls[1..], p);
      RetainMeaning(ls[1..], p);
      if ls[0].price == p {
        assert RetainOthers(ls, p) == rest;
      } else {
        assert RetainOthers(ls, p)[1..] == rest;
      }
    }
  }

  lemma {:induction false} RetainDistinct(ls: seq<Level>, p: int)
    requires Distinct(ls)
    ensures Distinct(RetainOthers(ls, p))
    ensures forall x :: x in RetainOthers(ls, p) ==> x in ls
  {
    if ls != [] {
      RetainDistinct(ls[1..], p);
      var rest := RetainOthers(ls[1..], p);
      forall i | 0 <= i < |rest| ensures rest[i].price != ls[0].price {
        assert rest[i] in ls[1..];
      }
    }
  }

  lemma {:induction false} AppendMeaning(ls: seq<Level>, x: Level)
    requires forall i :: 0 <= i < |ls| ==> ls[i].price != x.price
    ensures AsMap(ls + [x]) == AsMap(ls)[x.price := x.qty]
  {
    if ls == [] {
      assert ls + [x] == [x];
    } else {
      assert (ls + [x])[1..] == ls[1..] + [x];
      AppendMeaning(ls[1..], x);
    }
  }

  lemma {:induction false} MergeStaysDistinct(ls: seq<Level>, us: seq<Level>)
    requires Distinct(ls)
    ensures Distinct(MergeLevels(ls, us))
    decreases |us|
  {
    if us != [] {
      var before := MergeLevels(ls, us[..|us| - 1]);
      MergeStaysDistinct(ls, us[..|us| - 1]);
      RetainMeaning(before, us[|us| - 1].price);
      RetainDistinct(before, us[|us| - 1].price);
    }
  }

  /** Retain-and-push keeps only what is positive. */
  lemma {:induction false} MergeLookup(ls: seq<Level>, us: seq<Level>, p: int)
    ensures var m := AsMap(MergeLevels(ls, us));
      && (p in m <==> if p in LastWrites(us) then LastWrites(us)[p] > 0 else p in AsMap(ls))
      && (p in m ==> m[p] == if p in LastWrites(us) then LastWrites(us)[p] else AsMap(ls)[p])
    decreases |us|
  {
    if us != [] {
      var u := us[|us| - 1];
      var before := MergeLevels(ls, us[..|us| - 1]);
      MergeLookup(ls, us[..|us| - 1], p);
      RetainMeaning(before, u.price);
      if u.qty > 0 {
        AppendMeaning(RetainOthers(before, u.price), u);
      } else {
        assert MergeLevel(before, u) == RetainOthers(before, u.price);
      }
    }
  }

  /** A price last written negative is set but not kept; every other price agrees. */
  lemma MergeAgreesAt(ls: seq<Level>, us: seq<Level>, p: int)
    ensures var merged, levels := AsMap(MergeLevels(ls, us)), SetLevels(AsMap(ls), us);
      if p in LastWrites(us) && LastWrites(us)[p] < 0 then p in levels && p !in merged
      else (p in merged <==> p in levels) && (p in merged ==> merged[p] == levels[p])
  {
    MergeLookup(ls, us, p);
    SetLevelsLookup(AsMap(ls), us, p);
  }

  /** Retain-and-push means setting the levels exactly if no price ends up written negative. */
  lemma MergeIsSetIff(ls: seq<Level>, us: seq<Level>)
    ensures AsMap(MergeLevels(ls, us)) == SetLevels(AsMap(ls), us) <==> AllNonNegative(LastWrites(us))
  {
    var merged, levels := AsMap(MergeLevels(ls, us)), SetLevels(AsMap(ls), us);
    if AllNonNegative(LastWrites(us)) {
      forall p ensures (p in merged <==> p in levels) && (p in merged ==> merged[p] == levels[p]) {
        MergeAgreesAt(ls, us, p);
      }
      assert merged == levels;
    } else {
      var p :| p in LastWrites(us) && LastWrites(us)[p] < 0;
      MergeAgreesAt(ls, us, p);
      assert p in levels && p !in merged;
    }
  }

  lemma {:induction false} InsertLevelMeaning(s: Side, x: Level, ls: seq<Level>)
    requires Sorted(s, ls) && forall i :: 0 <= i < |ls| ==> ls[i].price != x.price
    ensures AsMap(InsertLevel(s, x, ls)) == AsMap(ls)[x.price := x.qty]
    ensures Sorted(s, InsertLevel(s, x, ls))
    ensures forall y :: y in InsertLevel(s, x, ls) <==> y == x || y in ls
  {
    if ls != [] && Better(s, ls[0].price, x.price) {
      InsertLevelMeaning(s, x, ls[1..]);
      var rest := InsertLevel(s, x, ls[1..]);
      forall i | 0 <= i < |rest| ensures Better(s, ls[0].price, rest[i].price) {
        assert rest[i] == x || rest[i] in ls[1..];
      }
      assert ls == [ls[0]] + ls[1..];
    }
  }

  lemma {:induction false} SortMeaning(s: Side, ls: seq<Level>)
    requires Distinct(ls)
    ensures Sorted(s, SortLevels(s, ls))
    ensures AsMap(SortLevels(s, ls)) == AsMap(ls)
    ensures forall y :: y in SortLevels(s, ls) <==> y in ls
  {
    if ls != [] {
      SortMeaning(s, ls[1..]);
      var rest := SortLevels(s, ls[1..]);
      forall i | 0 <= i < |rest| ensures rest[i].price != ls[0].price {
        assert rest[i] in ls[1..];
      }
      InsertLevelMeaning(s, ls[0], rest);
      assert ls == [ls[0]] + ls[1..];
    }
  }

  lemma {:induction false} LastWritesAreWrites(us: seq<Level>)
    requires NonNegative(us)
    ensures AllNonNegative(LastWrites(us))
    decreases |us|
  {
    if us != [] {
      LastWritesAreWrites(us[..|us| - 1]);
    }
  }

  /** One increment on a sorted side: sorted again, and every listed price set. */
  lemma IncrementMeaning(s: Side, ls: seq<Level>, us: seq<Level>)
    requires Sorted(s, ls) && NonNegative(us)
    ensures Sorted(s, SortLevels(s, MergeLevels(ls, us)))
    ensures AsMap(SortLevels(s, MergeLevels(ls, us))) == SetLevels(AsMap(ls), us)
  {
    LastWritesAreWrites(us);
    MergeIsSetIff(ls, us);
    MergeStaysDistinct(ls, us);
    SortMeaning(s, MergeLevels(ls, us));
  }

  /** A book carries the last update's id and time, and counts the updates. */
  lemma {:induction false} BookCarriesTheLast(b: OrderBook, us: seq<OrderBookUpdate>)
    ensures ApplyAllToBook(b, us).updateCount == b.updateCount + |us|
    ensures us != [] ==>
      && ApplyAllToBook(b, us).timestamp == us[|us| - 1].timestamp
      && ApplyAllToBook(b, us).lastUpdateId == us[|us| - 1].updateId
    decreases |us|
  {
    if us != [] {
      BookCarriesTheLast(b, us[..|us| - 1]);
    }
  }

  /** A snapshot leaves nothing of the book before it. */
  lemma SnapshotReplaces(b: OrderBook, c: OrderBook, u: OrderBookUpdate)
    requires u.isSnapshot
    ensures ApplyToBook(b, u).bids == u.bids == ApplyToBook(c, u).bids
    ensures ApplyToBook(b, u).asks == u.asks == ApplyToBook(c, u).asks
  {
  }
}
