/**
  Depth-limited sums over a book, over exact reals: volume and value within a threshold of the
  mid price, the weighted average price and the liquidity imbalance. The loops stop at the
  first level beyond the threshold.
  */
module DepthSums {
  import opened Wrappers

  datatype Quote = Quote(price: real, quantity: real)

  datatype RealBook = RealBook(bids: seq<Quote>, asks: seq<Quote>)

  const BPS: real := 10000.0

  ghost predicate Positive(ls: seq<Quote>) {
    forall i :: 0 <= i < |ls| ==> ls[i].quantity > 0.0
  }

  /** Strictly sorted, uncrossed, positive quantities. */
  ghost predicate Proper(b: RealBook) {
    && (forall i, j :: 0 <= i < j < |b.bids| ==> b.bids[i].price > b.bids[j].price)
    && (forall i, j :: 0 <= i < j < |b.asks| ==> b.asks[i].price < b.asks[j].price)
    && Positive(b.bids) && Positive(b.asks)
    && (b.bids != [] && b.asks != [] ==> b.bids[0].price < b.asks[0].price)
  }

  function MidPrice(b: RealBook): Option<real> {
    if b.bids != [] && b.asks != [] then Some((b.bids[0].price + b.asks[0].price) / 2.0) else None
  }

  function Threshold(mid: real, depthBps: real): real {
    mid * depthBps / BPS
  }

  /** How far a level lies from the mid price, into its own side. */
  function Distance(bid: bool, mid: real, price: real): real {
    if bid then mid - price else price - mid
  }

  /** The levels within the threshold, wherever they stand in the list. */
  function Within(bid: bool, mid: real, threshold: real, ls: seq<Quote>): seq<Quote> {
    if ls == [] then []
    else if Distance(bid, mid, ls[0].price) > threshold then Within(bid, mid, threshold, ls[1..])
    else [ls[0]] + Within(bid, mid, threshold, ls[1..])
  }

  /** The levels ahead of the first one beyond the threshold: what a loop that breaks there adds up. */
  function Reach(bid: bool, mid: real, threshold: real, ls: seq<Quote>): seq<Quote> {
    if ls == [] || Distance(bid, mid, ls[0].price) > threshold then []
    else [ls[0]] + Reach(bid, mid, threshold, ls[1..])
  }

  function Volume(ls: seq<Quote>): real {
    if ls == [] then 0.0 else ls[0].quantity + Volume(ls[1..])
  }

  function Value(ls: seq<Quote>): real {
    if ls == [] then 0.0 else ls[0].price * ls[0].quantity + Value(ls[1..])
  }

  /** Levels get no closer to the mid price as the list goes on. */
  ghost predicate Outward(bid: bool, mid: real, ls: seq<Quote>) {
    forall i, j :: 0 <= i < j < |ls| ==> Distance(bid, mid, ls[i].price) <= Distance(bid, mid, ls[j].price)
  }

  lemma {:induction false} NothingWithinBeyond(bid: bool, mid: real, threshold: real, ls: seq<Quote>)
    requires forall i :: 0 <= i < |ls| ==> Distance(bid, mid, ls[i].price) > threshold
    ensures Within(bid, mid, threshold, ls) == []
  {
    if ls != [] {
      NothingWithinBeyond(bid, mid, threshold, ls[1..]);
    }
  }

  /** On a list that goes outward, breaking at the first level beyond loses nothing. */
  lemma {:induction false} BreakingLosesNothing(bid: bool, mid: real, threshold: real, ls: seq<Quote>)
    requires Outward(bid, mid, ls)
    ensures Reach(bid, mid, threshold, ls) == Within(bid, mid, threshold, ls)
  {
    if ls != [] {
      if Distance(bid, mid, ls[0].price) > threshold {
        NothingWithinBeyond(bid, mid, threshold, ls);
      } else {
        BreakingLosesNothing(bid, mid, threshold, ls[1..]);
      }
    }
  }

  lemma {:induction false} ReachIsPrefix(bid: bool, mid: real, threshold: real, ls: seq<Quote>, n: nat)
    requires n <= |ls|
    requires forall i :: 0 <= i < n ==> Distance(bid, mid, ls[i].price) <= threshold
    requires n < |ls| ==> Distance(bid, mid, ls[n].price) > threshold
    ensures Reach(bid, mid, threshold, ls) == ls[..n]
  {
    if n > 0 {
      ReachIsPrefix(bid, mid, threshold, ls[1..], n - 1);
      assert [ls[0]] + ls[1..][..n - 1] == ls[..n];
    }
  }

  lemma {:induction false} SumsAppend(ls: seq<Quote>, x: Quote)
    ensures Volume(ls + [x]) == Volume(ls) + x.quantity
    ensures Value(ls + [x]) == Value(ls) + x.price * x.quantity
  {
    if ls == [] {
      assert ls + [x] == [x];
    } else {
      assert (ls + [x])[1..] == ls[1..] + [x];
      SumsAppend(ls[1..], x);
    }
  }

  /** One side's loop: accumulate until the first level beyond the threshold. */
  method Accumulate(bid: bool, mid: real, threshold: real, ls: seq<Quote>) returns (value: real, volume: real)
    ensures volume == Volume(Reach(bid, mid, threshold, ls))
    ensures value == Value(Reach(bid, mid, threshold, ls))
  {
    value, volume := 0.0, 0.0;
    var i := 0;
    while i < |ls|
      invariant i <= |ls|
      invariant forall j :: 0 <= j < i ==> Distance(bid, mid, ls[j].price) <= threshold
      invariant volume == Volume(ls[..i]) && value == Value(ls[..i])
    {
      if Distance(bid, mid, ls[i].price) > threshold {
        break;
      }
      SumsAppend(ls[..i], ls[i]);
      assert ls[..i + 1] == ls[..i] + [ls[i]];
      value := value + ls[i].price * ls[i].quantity;
      volume := volume + ls[i].quantity;
      i := i + 1;
    }
    ReachIsPrefix(bid, mid, threshold, ls, i);
  }

  /** Every level lies strictly on its own side of the mid price, no further than the threshold. */
  ghost predicate Near(bid: bool, mid: real, threshold: real, ls: seq<Quote>) {
    forall i :: 0 <= i < |ls| ==> 0.0 < Distance(bid, mid, ls[i].price) <= threshold
  }

  /** Every level lies strictly on its own side of the mid price. */
  ghost predicate OnSide(bid: bool, mid: real, ls: seq<Quote>) {
    forall i :: 0 <= i < |ls| ==> 0.0 < Distance(bid, mid, ls[i].price)
  }

  lemma {:induction false} WithinIsNear(bid: bool, mid: real, threshold: real, ls: seq<Quote>)
    requires Positive(ls) && OnSide(bid, mid, ls)
    ensures Positive(Within(bid, mid, threshold, ls)) && Near(bid, mid, threshold, Within(bid, mid, threshold, ls))
  {
    if ls != [] {
      WithinIsNear(bid, mid, threshold, ls[1..]);
    }
  }

  lemma {:induction false} VolumePositive(ls: seq<Quote>)
    requires Positive(ls)
    ensures Volume(ls) >= 0.0 && (Volume(ls) == 0.0 <==> ls == [])
  {
    if ls != [] {
      VolumePositive(ls[1..]);
    }
  }

  lemma Scaled(a: real, b: real, c: real)
    ensures c > 0.0 && a < b ==> a * c < b * c
    ensures c > 0.0 && a <= b ==> a * c <= b * c
  {
  }

  /** The sum lies between volume at the lowest and volume at the highest price. */
  ghost predicate Between(lo: real, sum: real, hi: real, volume: real) {
    lo * volume <= sum <= hi * volume
  }

  lemma BetweenAdds(lo: real, hi: real, sum: real, volume: real, sum': real, volume': real)
    requires Between(lo, sum, hi, volume) && Between(lo, sum', hi, volume')
    ensures Between(lo, sum + sum', hi, volume + volume')
  {
    assert lo * (volume + volume') == lo * volume + lo * volume';
    assert hi * (volume + volume') == hi * volume + hi * volume';
  }

  lemma OneBetween(lo: real, hi: real, x: Quote)
    requires lo <= x.price <= hi && x.quantity > 0.0
    ensures Between(lo, x.price * x.quantity, hi, x.quantity)
  {
    Scaled(lo, x.price, x.quantity);
    Scaled(x.price, hi, x.quantity);
  }

  /** The value of near levels is bounded by their volume at the ends of the band. */
  lemma {:induction false} ValueBounds(bid: bool, mid: real, threshold: real, ls: seq<Quote>)
    requires Positive(ls) && Near(bid, mid, threshold, ls)
    ensures Between(mid - threshold, Value(ls), mid + threshold, Volume(ls))
  {
    if ls != [] {
      var x := ls[0];
      ValueBounds(bid, mid, threshold, ls[1..]);
      OneBetween(mid - threshold, mid + threshold, x);
      BetweenAdds(mid - threshold, mid + threshold, x.price * x.quantity, x.quantity, Value(ls[1..]), Volume(ls[1..]));
    }
  }

  /** Widening the threshold never lowers the volume. */
  lemma {:induction false} VolumeMonotone(bid: bool, mid: real, narrow: real, wide: real, ls: seq<Quote>)
    requires narrow <= wide && Positive(ls)
    ensures Volume(Within(bid, mid, narrow, ls)) <= Volume(Within(bid, mid, wide, ls))
  {
    if ls != [] {
      VolumeMonotone(bid, mid, narrow, wide, ls[1..]);
    }
  }

  lemma ProperSidesGoOutward(b: RealBook)
    requires Proper(b) && MidPrice(b).Some?
    ensures Outward(true, MidPrice(b).value, b.bids) && Outward(false, MidPrice(b).value, b.asks)
    ensures OnSide(true, MidPrice(b).value, b.bids) && OnSide(false, MidPrice(b).value, b.asks)
  {
  }

  lemma QuotientTimesTotal(sum: real, total: real)
    requires total > 0.0
    ensures sum / total * total == sum
  {
  }

  /** The quotient of a bounded sum by a positive total keeps the bounds. */
  lemma QuotientBounds(lo: real, sum: real, hi: real, total: real)
    requires total > 0.0 && Between(lo, sum, hi, total)
    ensures lo <= sum / total <= hi
  {
    QuotientTimesTotal(sum, total);
    Scaled(sum / total, lo, total);
    Scaled(hi, sum / total, total);
  }

  // ---- the three calculations, for any book --------------------------------------------

  /** (volume - volume') / (volume + volume'), if there is any volume. */
  function Imbalance(bids: real, asks: real): Option<real> {
    if bids + asks > 0.0 then Some((bids - asks) / (bids + asks)) else None
  }

  function Average(value: real, volume: real): Option<real> {
    if volume > 0.0 then Some(value / volume) else None
  }

  function BidReach(b: RealBook, mid: real, depthBps: real): seq<Quote> {
    Reach(true, mid, Threshold(mid, depthBps), b.bids)
  }

  function AskReach(b: RealBook, mid: real, depthBps: real): seq<Quote> {
    Reach(false, mid, Threshold(mid, depthBps), b.asks)
  }

  function WapAt(b: RealBook, depthBps: real): Option<real> {
    match MidPrice(b)
    case None => None
    case Some(mid) =>
      var bids, asks := BidReach(b, mid, depthBps), AskReach(b, mid, depthBps);
      Average(Value(bids) + Value(asks), Volume(bids) + Volume(asks))
  }

  function ImbalanceAt(b: RealBook, depthBps: real): Option<real> {
    match MidPrice(b)
    case None => None
    case Some(mid) => Imbalance(Volume(BidReach(b, mid, depthBps)), Volume(AskReach(b, mid, depthBps)))
  }

  /** Volumes on both sides, or zeros without a mid price. */
  method VolumeAtDepth(b: RealBook, depthBps: real) returns (bidVolume: real, askVolume: real)
    ensures MidPrice(b).None? ==> bidVolume == askVolume == 0.0
    ensures MidPrice(b).Some? ==>
      && bidVolume == Volume(BidReach(b, MidPrice(b).value, depthBps))
      && askVolume == Volume(AskReach(b, MidPrice(b).value, depthBps))
  {
    if MidPrice(b).None? {
      return 0.0, 0.0;
    }
    var mid := MidPrice(b).value;
    var _, bids := Accumulate(true, mid, Threshold(mid, depthBps), b.bids);
    var _, asks := Accumulate(false, mid, Threshold(mid, depthBps), b.asks);
    bidVolume, askVolume := bids, asks;
  }

  method LiquidityImbalance(b: RealBook, depthBps: real) returns (imbalance: Option<real>)
    ensures imbalance == ImbalanceAt(b, depthBps)
  {
    if MidPrice(b).None? {
      return None;
    }
    var mid := MidPrice(b).value;
    var _, bids := Accumulate(true, mid, Threshold(mid, depthBps), b.bids);
    var _, asks := Accumulate(false, mid, Threshold(mid, depthBps), b.asks);
    var total := bids + asks;
    imbalance := if total > 0.0 then Some((bids - asks) / total) else None;
  }

  method Wap(b: RealBook, depthBps: real) returns (wap: Option<real>)
    ensures wap == WapAt(b, depthBps)
  {
    if MidPrice(b).None? {
      return None;
    }
    var mid := MidPrice(b).value;
    var bidValue, bidVolume := Accumulate(true, mid, Threshold(mid, depthBps), b.bids);
    var askValue, askVolume := Accumulate(false, mid, Threshold(mid, depthBps), b.asks);
    var total := bidVolume + askVolume;
    wap := if total > 0.0 then Some((bidValue + askValue) / total) else None;
  }

  // ---- what they mean on a proper book ---------------------------------------------------

  /** Where a multiple of a positive total lies against the total itself. */
  lemma UnitProduct(x: real, total: real, d: real)
    requires total > 0.0 && x * total == d
    ensures x < 1.0 <==> d < total
    ensures x > 1.0 <==> d > total
    ensures x < -1.0 <==> d < -total
    ensures x > -1.0 <==> d > -total
  {
    Scaled(x, 1.0, total);
    Scaled(1.0, x, total);
    Scaled(x, -1.0, total);
    Scaled(-1.0, x, total);
    assert 1.0 * total == total && -1.0 * total == -total;
  }

  lemma ImbalanceEnds(bids: real, asks: real)
    requires bids >= 0.0 && asks >= 0.0 && bids + asks > 0.0
    ensures var x := (bids - asks) / (bids + asks);
      && -1.0 <= x <= 1.0 && x * (bids + asks) == bids - asks
      && (x == 1.0 <==> asks == 0.0) && (x == -1.0 <==> bids == 0.0)
  {
    var total := bids + asks;
    var x := (bids - asks) / total;
    QuotientTimesTotal(bids - asks, total);
    UnitProduct(x, total, bids - asks);
  }

  /** An average of a value bounded by its volume exists exactly if there is volume, within the bounds. */
  lemma AverageInBand(lo: real, hi: real, value: real, volume: real)
    requires volume >= 0.0 && Between(lo, value, hi, volume)
    ensures Average(value, volume) == None <==> volume == 0.0
    ensures Average(value, volume).Some? ==>
      lo <= Average(value, volume).value <= hi && Average(value, volume).value * volume == value
  {
    if volume > 0.0 {
      QuotientTimesTotal(value, volume);
      QuotientBounds(lo, value, hi, volume);
    }
  }

  lemma NearLevelsAreInRange(b: RealBook, t: real)
    requires Proper(b) && MidPrice(b).Some?
    ensures var mid := MidPrice(b).value;
      var near, far := Within(true, mid, t, b.bids), Within(false, mid, t, b.asks);
      && Volume(near) >= 0.0 && Volume(far) >= 0.0
      && (Volume(near) == 0.0 <==> near == []) && (Volume(far) == 0.0 <==> far == [])
      && Between(mid - t, Value(near), mid + t, Volume(near))
      && Between(mid - t, Value(far), mid + t, Volume(far))
  {
    var mid := MidPrice(b).value;
    ProperSidesGoOutward(b);
    WithinIsNear(true, mid, t, b.bids);
    WithinIsNear(false, mid, t, b.asks);
    VolumePositive(Within(true, mid, t, b.bids));
    VolumePositive(Within(false, mid, t, b.asks));
    ValueBounds(true, mid, t, Within(true, mid, t, b.bids));
    ValueBounds(false, mid, t, Within(false, mid, t, b.asks));
  }

  /** On a proper book the loops see exactly the levels within the threshold. */
  lemma ReachIsWithin(b: RealBook, depthBps: real)
    requires Proper(b) && MidPrice(b).Some?
    ensures var mid := MidPrice(b).value; var t := Threshold(mid, depthBps);
      && BidReach(b, mid, depthBps) == Within(true, mid, t, b.bids)
      && AskReach(b, mid, depthBps) == Within(false, mid, t, b.asks)
  {
    var mid := MidPrice(b).value;
    ProperSidesGoOutward(b);
    BreakingLosesNothing(true, mid, Threshold(mid, depthBps), b.bids);
    BreakingLosesNothing(false, mid, Threshold(mid, depthBps), b.asks);
  }

  /** The weighted average exists exactly if some level is near, and then lies in the band. */
  lemma WapLiesInTheBand(b: RealBook, depthBps: real)
    requires Proper(b) && MidPrice(b).Some?
    ensures var mid := MidPrice(b).value; var t := Threshold(mid, depthBps);
      var near, far := Within(true, mid, t, b.bids), Within(false, mid, t, b.asks);
      && (WapAt(b, depthBps) == None <==> near == far == [])
      && (WapAt(b, depthBps).Some? ==>
           && mid - t <= WapAt(b, depthBps).value <= mid + t
           && WapAt(b, depthBps).value * (Volume(near) + Volume(far)) == Value(near) + Value(far))
  {
    var mid := MidPrice(b).value;
    var t := Threshold(mid, depthBps);
    var near, far := Within(true, mid, t, b.bids), Within(false, mid, t, b.asks);
    ReachIsWithin(b, depthBps);
    NearLevelsAreInRange(b, t);
    BetweenAdds(mid - t, mid + t, Value(near), Volume(near), Value(far), Volume(far));
    AverageInBand(mid - t, mid + t, Value(near) + Value(far), Volume(near) + Volume(far));
  }

  /** The imbalance is the difference over the total, in [-1, 1], at an end exactly when one side has nothing near. */
  lemma ImbalanceIsNormalised(b: RealBook, depthBps: real)
    requires Proper(b) && MidPrice(b).Some?
    ensures var mid := MidPrice(b).value; var t := Threshold(mid, depthBps);
      var near, far := Within(true, mid, t, b.bids), Within(false, mid, t, b.asks);
      && (ImbalanceAt(b, depthBps) == None <==> near == far == [])
      && (ImbalanceAt(b, depthBps).Some? ==>
           && -1.0 <= ImbalanceAt(b, depthBps).value <= 1.0
           && ImbalanceAt(b, depthBps).value * (Volume(near) + Volume(far)) == Volume(near) - Volume(far)
           && (ImbalanceAt(b, depthBps).value == 1.0 <==> far == [])
           && (ImbalanceAt(b, depthBps).value == -1.0 <==> near == []))
  {
    var mid := MidPrice(b).value;
    var t := Threshold(mid, depthBps);
    var near, far := Within(true, mid, t, b.bids), Within(false, mid, t, b.asks);
    ReachIsWithin(b, depthBps);
    NearLevelsAreInRange(b, t);
    if Volume(near) + Volume(far) > 0.0 {
      ImbalanceEnds(Volume(near), Volume(far));
    }
  }

  /** A wider depth never shows less volume on either side. */
  lemma VolumesGrowWithDepth(b: RealBook, narrow: real, wide: real)
    requires Proper(b) && MidPrice(b).Some?
    requires Threshold(MidPrice(b).value, narrow) <= Threshold(MidPrice(b).value, wide)
    ensures var mid := MidPrice(b).value;
      && Volume(BidReach(b, mid, narrow)) <= Volume(BidReach(b, mid, wide))
      && Volume(AskReach(b, mid, narrow)) <= Volume(AskReach(b, mid, wide))
  {
    var mid := MidPrice(b).value;
    ReachIsWithin(b, narrow);
    ReachIsWithin(b, wide);
    VolumeMonotone(true, mid, Threshold(mid, narrow), Threshold(mid, wide), b.bids);
    VolumeMonotone(false, mid, Threshold(mid, narrow), Threshold(mid, wide), b.asks);
  }

  lemma {:induction false} ReachStops(bid: bool, mid: real, threshold: real, ls: seq<Quote>)
    ensures var n := |Reach(bid, mid, threshold, ls)|;
      && n <= |ls| && Reach(bid, mid, threshold, ls) == ls[..n]
      && (forall i :: 0 <= i < n ==> Distance(bid, mid, ls[i].price) <= threshold)
      && (n < |ls| ==> Distance(bid, mid, ls[n].price) > threshold)
  {
    if ls != [] && Distance(bid, mid, ls[0].price) <= threshold {
      ReachStops(bid, mid, threshold, ls[1..]);
    }
  }

  /** On any book, the levels added up end ahead of the first one farther from the mid price than the threshold. */
  lemma ReachEndsAheadOfTheFirstBeyond(b: RealBook, mid: real, depthBps: real)
    ensures var t, bids, asks := Threshold(mid, depthBps), BidReach(b, mid, depthBps), AskReach(b, mid, depthBps);
      && bids <= b.bids && (forall i :: 0 <= i < |bids| ==> bids[i].price >= mid - t)
      && asks <= b.asks && (forall i :: 0 <= i < |asks| ==> asks[i].price <= mid + t)
      && (|bids| < |b.bids| ==> b.bids[|bids|].price < mid - t)
      && (|asks| < |b.asks| ==> b.asks[|asks|].price > mid + t)
  {
    ReachStops(true, mid, Threshold(mid, depthBps), b.bids);
    ReachStops(false, mid, Threshold(mid, depthBps), b.asks);
  }

  /** On a proper book, a level is added up exactly if its price is in the band, ends included. */
  lemma ReachIsTheBand(b: RealBook, mid: real, depthBps: real)
    requires Proper(b)
    ensures var t, n, m := Threshold(mid, depthBps), |BidReach(b, mid, depthBps)|, |AskReach(b, mid, depthBps)|;
      && (forall i :: 0 <= i < |b.bids| ==> (i < n <==> b.bids[i].price >= mid - t))
      && (forall i :: 0 <= i < |b.asks| ==> (i < m <==> b.asks[i].price <= mid + t))
  {
    ReachEndsAheadOfTheFirstBeyond(b, mid, depthBps);
    var n, m := |BidReach(b, mid, depthBps)|, |AskReach(b, mid, depthBps)|;
    assert forall i :: 0 <= i < n ==> b.bids[i] == BidReach(b, mid, depthBps)[i];
    assert forall i :: 0 <= i < m ==> b.asks[i] == AskReach(b, mid, depthBps)[i];
  }

  // ---- numbers -----------------------------------------------------------------------------

  /** The mid price is as far from the best bid as from the best ask, and 10 basis points of 50000 are 50. */
  lemma MidAndThreshold(b: RealBook)
    ensures MidPrice(b).Some? <==> b.bids != [] && b.asks != []
    ensures MidPrice(b).Some? ==> MidPrice(b).value - b.bids[0].price == b.asks[0].price - MidPrice(b).value
    ensures Threshold(50000.0, 10.0) == 50.0
  {
  }

  /** Adding a level to a list adds its quantity to the volume and price times quantity to the value. */
  lemma SumsOfOne(x: Quote)
    ensures Volume([]) == 0.0 && Value([]) == 0.0
    ensures Volume([x]) == x.quantity && Value([x]) == x.price * x.quantity
  {
  }

  const SAMPLE := RealBook([Quote(100.0, 1.0), Quote(99.0, 2.0), Quote(80.0, 7.0)], [Quote(102.0, 3.0)])

  lemma SampleReach()
    ensures Threshold(101.0, 1000.0) == 10.1
    ensures BidReach(SAMPLE, 101.0, 1000.0) == [Quote(100.0, 1.0), Quote(99.0, 2.0)]
    ensures AskReach(SAMPLE, 101.0, 1000.0) == [Quote(102.0, 3.0)]
  {
    var bids := SAMPLE.bids;
    assert bids[1..][1..] == [Quote(80.0, 7.0)];
    assert Reach(true, 101.0, 10.1, bids[1..][1..]) == [];
    assert Reach(true, 101.0, 10.1, bids[1..]) == [Quote(99.0, 2.0)];
    assert SAMPLE.asks[1..] == [];
  }

  /** Around 101, within 10 percent: the bid at 80 is too far, the rest averages 604 over 6. */
  lemma SampleNumbers()
    ensures MidPrice(SAMPLE) == Some(101.0)
    ensures WapAt(SAMPLE, 1000.0) == Some(604.0 / 6.0) && ImbalanceAt(SAMPLE, 1000.0) == Some(0.0)
  {
    SampleReach();
    var near := [Quote(100.0, 1.0), Quote(99.0, 2.0)];
    assert near[1..] == [Quote(99.0, 2.0)];
    SumsOfOne(Quote(99.0, 2.0));
    SumsOfOne(Quote(102.0, 3.0));
    assert Volume(near) == 3.0 && Value(near) == 298.0;
  }
}
