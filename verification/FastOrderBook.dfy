/**
  The fixed-capacity order book of the HFT processor: two arrays of MAX_DEPTH slots,
  shifted in place, and the list functions that say what every shift amounts to.
  */
module FastOrderBooks {
  import opened Levels

  const MAX_DEPTH: nat := 20

  /** An update as it travels through a ring; only the live prefix of each side is kept. */
  datatype FastUpdate = FastUpdate(
    symbolId: nat, updateId: nat, bids: seq<Level>, asks: seq<Level>, isSnapshot: bool)

  /** The value of a book: the live prefixes of its arrays and its counters. */
  datatype Book = Book(bids: seq<Level>, asks: seq<Level>, lastUpdateId: nat, updateCount: nat)

  const EMPTY_BOOK := Book([], [], 0, 0)

  /** One level of an update on a side that keeps only its best MAX_DEPTH levels. */
  function KeepBest(s: Side, ls: seq<Level>, u: Level): seq<Level> {
    if u.qty == 0 then Delete(ls, u.price) else Take(Upsert(s, ls, u.price, u.qty), MAX_DEPTH)
  }

  function KeepBestAll(s: Side, ls: seq<Level>, us: seq<Level>): seq<Level>
    decreases |us|
  {
    if us == [] then ls else KeepBest(s, KeepBestAll(s, ls, us[..|us| - 1]), us[|us| - 1])
  }

  /** Applying one update: an id that does not advance is ignored, isSnapshot is never read. */
  function ApplyUpdate(b: Book, u: FastUpdate): Book {
    if u.updateId <= b.lastUpdateId then b
    else Book(KeepBestAll(Bid, b.bids, u.bids), KeepBestAll(Ask, b.asks, u.asks),
              u.updateId, b.updateCount + 1)
  }

  function ApplyUpdates(b: Book, us: seq<FastUpdate>): Book
    decreases |us|
  {
    if us == [] then b else ApplyUpdate(ApplyUpdates(b, us[..|us| - 1]), us[|us| - 1])
  }

  /** Slots from pos on moved right by one, x stored at pos, the last one dropped when full. */
  lemma InsertedInPlace(was: seq<Level>, now: seq<Level>, pos: nat, x: Level)
    requires |was| <= MAX_DEPTH && pos <= |was| && pos < MAX_DEPTH
    requires |now| == if |was| < MAX_DEPTH then |was| + 1 else MAX_DEPTH
    requires now[pos] == x
    requires forall k :: 0 <= k < pos ==> now[k] == was[k]
    requires forall k :: pos < k < |now| ==> now[k] == was[k - 1]
    ensures now == Take(was[..pos] + [x] + was[pos..], MAX_DEPTH)
  {
    var full := was[..pos] + [x] + was[pos..];
    assert |full| == |was| + 1;
    assert now == full[..|now|];
  }

  lemma InsertedPastTheEnd(was: seq<Level>, x: Level)
    requires |was| == MAX_DEPTH
    ensures was == Take(was[..|was|] + [x] + was[|was|..], MAX_DEPTH)
  {
  }

  class FastOrderBook {
    const bids: array<Level>
    const asks: array<Level>
    var bidCount: nat
    var askCount: nat
    var lastUpdateId: nat
    var updateCount: nat

    ghost predicate Valid()
      reads this, bids, asks
    {
      && bids.Length == MAX_DEPTH && asks.Length == MAX_DEPTH && bids != asks
      && bidCount <= MAX_DEPTH && askCount <= MAX_DEPTH
    }

    ghost function Bids(): seq<Level>
      reads this, bids, asks
      requires Valid()
    {
      bids[..bidCount]
    }

    ghost function Asks(): seq<Level>
      reads this, bids, asks
      requires Valid()
    {
      asks[..askCount]
    }

    ghost function Value(): Book
      reads this, bids, asks
      requires Valid()
    {
      Book(Bids(), Asks(), lastUpdateId, updateCount)
    }

    constructor ()
      ensures Valid() && fresh(bids) && fresh(asks)
      ensures Value() == EMPTY_BOOK
    {
      bids := new Level[MAX_DEPTH](_ => Level(0, 0));
      asks := new Level[MAX_DEPTH](_ => Level(0, 0));
      bidCount, askCount, lastUpdateId, updateCount := 0, 0, 0, 0;
    }

    method UpdateBid(price: int, quantity: int)
      requires Valid()
      modifies `bidCount, bids
      ensures Valid()
      ensures Bids() == Take(Upsert(Bid, old(Bids()), price, quantity), MAX_DEPTH)
    {
      ghost var was := Bids();
      var insertPos := bidCount;
      var i := 0;
      while i < bidCount
        invariant i <= bidCount && insertPos == bidCount
        invariant forall j :: 0 <= j < i ==> was[j].price != price && !Better(Bid, price, was[j].price)
      {
        if bids[i].price == price {
          UpsertReplacesAt(Bid, was, price, quantity, i);
          bids[i] := Level(price, quantity);
          return;
        }
        if bids[i].price < price {
          insertPos := i;
          break;
        }
        i := i + 1;
      }
      UpsertInsertsAt(Bid, was, price, quantity, insertPos);
      if insertPos < MAX_DEPTH {
        if bidCount >= MAX_DEPTH {
          ShiftDown(bids, insertPos, MAX_DEPTH - 1);
        } else {
          ShiftDown(bids, insertPos, bidCount);
          bidCount := bidCount + 1;
        }
        bids[insertPos] := Level(price, quantity);
        InsertedInPlace(was, Bids(), insertPos, Level(price, quantity));
      } else {
        InsertedPastTheEnd(was, Level(price, quantity));
      }
    }

    method UpdateAsk(price: int, quantity: int)
      requires Valid()
      modifies `askCount, asks
      ensures Valid()
      ensures Asks() == Take(Upsert(Ask, old(Asks()), price, quantity), MAX_DEPTH)
    {
      ghost var was := Asks();
      var insertPos := askCount;
      var i := 0;
      while i < askCount
        invariant i <= askCount && insertPos == askCount
        invariant forall j :: 0 <= j < i ==> was[j].price != price && !Better(Ask, price, was[j].price)
      {
        if asks[i].price == price {
          UpsertReplacesAt(Ask, was, price, quantity, i);
          asks[i] := Level(price, quantity);
          return;
        }
        if asks[i].price > price {
          insertPos := i;
          break;
        }
        i := i + 1;
      }
      UpsertInsertsAt(Ask, was, price, quantity, insertPos);
      if insertPos < MAX_DEPTH {
        if askCount >= MAX_DEPTH {
          ShiftDown(asks, insertPos, MAX_DEPTH - 1);
        } else {
          ShiftDown(asks, insertPos, askCount);
          askCount := askCount + 1;
        }
        asks[insertPos] := Level(price, quantity);
        InsertedInPlace(was, Asks(), insertPos, Level(price, quantity));
      } else {
        InsertedPastTheEnd(was, Level(price, quantity));
      }
    }

    method RemoveBid(price: int)
      requires Valid()
      modifies `bidCount, bids
      ensures Valid()
      ensures Bids() == Delete(old(Bids()), price)
    {
      ghost var was := Bids();
      var i := 0;
      while i < bidCount
        invariant i <= bidCount
        invariant forall j :: 0 <= j < i ==> was[j].price != price
      {
        if bids[i].price == price {
          DeletesAt(was, price, i);
          ShiftUp(bids, i, bidCount);
          bidCount := bidCount - 1;
          return;
        }
        i := i + 1;
      }
      DeletesAt(was, price, |was|);
    }

    method RemoveAsk(price: int)
      requires Valid()
      modifies `askCount, asks
      ensures Valid()
      ensures Asks() == Delete(old(Asks()), price)
    {
      ghost var was := Asks();
      var i := 0;
      while i < askCount
        invariant i <= askCount
        invariant forall j :: 0 <= j < i ==> was[j].price != price
      {
        if asks[i].price == price {
          DeletesAt(was, price, i);
          ShiftUp(asks, i, askCount);
          askCount := askCount - 1;
          return;
        }
        i := i + 1;
      }
      DeletesAt(was, price, |was|);
    }

    method Apply(u: FastUpdate)
      requires Valid()
      modifies this, bids, asks
      ensures Valid()
      ensures Value() == ApplyUpdate(old(Value()), u)
    {
      if u.updateId <= lastUpdateId {
        return;
      }
      for i := 0 to |u.bids|
        invariant Valid() && unchanged(`askCount, asks, `lastUpdateId, `updateCount)
        invariant Bids() == KeepBestAll(Bid, old(Bids()), u.bids[..i])
      {
        var level := u.bids[i];
        assert u.bids[..i + 1][..i] == u.bids[..i];
        if level.qty == 0 {
          RemoveBid(level.price);
        } else {
          UpdateBid(level.price, level.qty);
        }
      }
      assert u.bids[..|u.bids|] == u.bids;
      for i := 0 to |u.asks|
        invariant Valid() && unchanged(`lastUpdateId, `updateCount)
        invariant Bids() == KeepBestAll(Bid, old(Bids()), u.bids)
        invariant Asks() == KeepBestAll(Ask, old(Asks()), u.asks[..i])
      {
        var level := u.asks[i];
        assert u.asks[..i + 1][..i] == u.asks[..i];
        if level.qty == 0 {
          RemoveAsk(level.price);
        } else {
          UpdateAsk(level.price, level.qty);
        }
      }
      assert u.asks[..|u.asks|] == u.asks;
      lastUpdateId := u.updateId;
      updateCount := updateCount + 1;
    }
  }

  /** Move slots lo .. hi - 1 one place to the right, over slot hi. */
  method ShiftDown(a: array<Level>, lo: nat, hi: nat)
    requires lo <= hi < a.Length
    modifies a
    ensures forall k :: 0 <= k < a.Length ==> a[k] == if lo < k <= hi then old(a[k - 1]) else old(a[k])
  {
    for i := hi downto lo
      invariant forall k :: 0 <= k < a.Length ==> a[k] == if i < k <= hi then old(a[k - 1]) else old(a[k])
    {
      a[i + 1] := a[i];
    }
  }

  /** Move slots lo + 1 .. hi - 1 one place to the left, over slot lo. */
  method ShiftUp(a: array<Level>, lo: nat, hi: nat)
    requires lo < hi <= a.Length
    modifies a
    ensures forall k :: 0 <= k < a.Length ==> a[k] == if lo <= k < hi - 1 then old(a[k + 1]) else old(a[k])
  {
    for j := lo to hi - 1
      invariant forall k :: 0 <= k < a.Length ==> a[k] == if lo <= k < j then old(a[k + 1]) else old(a[k])
    {
      a[j] := a[j + 1];
    }
  }

  // ---- what every run of updates keeps -------------------------------------------------

  /** The invariant of one side: strictly sorted, no zero quantity, at most 20 levels. */
  ghost predicate GoodSide(s: Side, ls: seq<Level>) {
    Sorted(s, ls) && NonZero(ls) && |ls| <= 20
  }

  lemma {:induction false} KeepBestAllGood(s: Side, ls: seq<Level>, us: seq<Level>)
    requires GoodSide(s, ls)
    ensures GoodSide(s, KeepBestAll(s, ls, us))
    decreases |us|
  {
    if us != [] {
      var before := KeepBestAll(s, ls, us[..|us| - 1]);
      var u := us[|us| - 1];
      KeepBestAllGood(s, ls, us[..|us| - 1]);
      if u.qty == 0 {
        DeleteSorted(s, before, u.price);
      } else {
        UpsertSorted(s, before, u.price, u.qty);
      }
    }
  }

  /** Over every run, each side stays strictly sorted, duplicate-free, non-zero and within capacity. */
  lemma {:induction false} RunKeepsSidesGood(b: Book, us: seq<FastUpdate>)
    requires GoodSide(Bid, b.bids) && GoodSide(Ask, b.asks)
    ensures GoodSide(Bid, ApplyUpdates(b, us).bids) && GoodSide(Ask, ApplyUpdates(b, us).asks)
    decreases |us|
  {
    if us != [] {
      var before := ApplyUpdates(b, us[..|us| - 1]);
      RunKeepsSidesGood(b, us[..|us| - 1]);
      KeepBestAllGood(Bid, before.bids, us[|us| - 1].bids);
      KeepBestAllGood(Ask, before.asks, us[|us| - 1].asks);
    }
  }

  /** Update i advances past 0 and past every earlier id of the run. */
  predicate Advances(us: seq<FastUpdate>, i: nat)
    requires i < |us|
  {
    us[i].updateId > 0 && forall j :: 0 <= j < i ==> us[j].updateId < us[i].updateId
  }

  /** The updates of a run that advance, in order. */
  function Advancing(us: seq<FastUpdate>): seq<FastUpdate>
    decreases |us|
  {
    if us == [] then []
    else Advancing(us[..|us| - 1]) + if Advances(us, |us| - 1) then [us[|us| - 1]] else []
  }

  /** The stored id is the largest id seen, and 0 before any. */
  lemma {:induction false} LastIdIsLargest(us: seq<FastUpdate>)
    ensures var last := ApplyUpdates(EMPTY_BOOK, us).lastUpdateId;
      && (forall j :: 0 <= j < |us| ==> us[j].updateId <= last)
      && (last == 0 || exists j :: 0 <= j < |us| && us[j].updateId == last)
    decreases |us|
  {
    if us != [] {
      var n := |us| - 1;
      LastIdIsLargest(us[..n]);
      var last := ApplyUpdates(EMPTY_BOOK, us[..n]).lastUpdateId;
      forall j | 0 <= j < n ensures us[j].updateId <= last {
        assert us[..n][j] == us[j];
      }
      if us[n].updateId > last {
        assert us[n].updateId == ApplyUpdates(EMPTY_BOOK, us).lastUpdateId;
      } else if last != 0 {
        var j :| 0 <= j < n && us[..n][j].updateId == last;
        assert us[j].updateId == last;
      }
    }
  }

  lemma AdvancesIffNewer(us: seq<FastUpdate>)
    requires us != []
    ensures Advances(us, |us| - 1) <==>
      us[|us| - 1].updateId > ApplyUpdates(EMPTY_BOOK, us[..|us| - 1]).lastUpdateId
  {
    var n := |us| - 1;
    var last := ApplyUpdates(EMPTY_BOOK, us[..n]).lastUpdateId;
    LastIdIsLargest(us[..n]);
    forall j | 0 <= j < n ensures us[j].updateId <= last {
      assert us[..n][j] == us[j];
    }
    if last != 0 {
      var j :| 0 <= j < n && us[..n][j].updateId == last;
      assert us[j] == us[..n][j];
    }
  }

  /** Stale and duplicate updates are invisible, and the counter counts the others. */
  lemma {:induction false} StaleUpdatesAreInvisible(us: seq<FastUpdate>)
    ensures ApplyUpdates(EMPTY_BOOK, us) == ApplyUpdates(EMPTY_BOOK, Advancing(us))
    ensures ApplyUpdates(EMPTY_BOOK, us).updateCount == |Advancing(us)|
    decreases |us|
  {
    if us != [] {
      var before := us[..|us| - 1];
      StaleUpdatesAreInvisible(before);
      AdvancesIffNewer(us);
      var kept := Advancing(us);
      if Advances(us, |us| - 1) {
        assert kept[..|kept| - 1] == Advancing(before);
      } else {
        assert kept == Advancing(before);
      }
    }
  }
}
