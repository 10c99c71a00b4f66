/**
  The sliding-window histories: items are appended, and items too old against the newest one are
  dropped from the front. Books, trades and order events differ only in the item carried.
  */
module History {
  import opened Wrappers

  const MICROS_PER_MS: int := 1000

  datatype Stamped<T> = Stamped(timestamp: int, item: T)

  /** The items left after dropping old ones from the front; stops at the first recent one. */
  function DropOld<T>(s: seq<Stamped<T>>, cutoff: int): seq<Stamped<T>> {
    if s == [] then [] else if s[0].timestamp < cutoff then DropOld(s[1..], cutoff) else s
  }

  /** The items no older than the cutoff, wherever they are. */
  function Since<T>(s: seq<Stamped<T>>, cutoff: int): seq<Stamped<T>> {
    if s == [] then []
    else if s[0].timestamp >= cutoff then [s[0]] + Since(s[1..], cutoff)
    else Since(s[1..], cutoff)
  }

  /** The latest item, searching from the back, no younger than the target. */
  function FindLast<T>(s: seq<Stamped<T>>, target: int): Option<Stamped<T>>
    decreases |s|
  {
    if s == [] then None
    else if s[|s| - 1].timestamp <= target then Some(s[|s| - 1])
    else FindLast(s[..|s| - 1], target)
  }

  /** trades_since and events_since over a list of items. */
  function SinceLookback<T>(s: seq<Stamped<T>>, lookbackMs: int): seq<Stamped<T>> {
    Since(s, if s == [] then 0 else s[|s| - 1].timestamp - lookbackMs * MICROS_PER_MS)
  }

  /** get_book_at over a list of items. */
  function ItemAt<T>(s: seq<Stamped<T>>, offsetMs: int): Option<Stamped<T>> {
    if s == [] then None else FindLast(s, s[|s| - 1].timestamp - offsetMs * MICROS_PER_MS)
  }

  function Added<T>(lookback: int, s: seq<Stamped<T>>, x: Stamped<T>): seq<Stamped<T>> {
    DropOld(s + [x], x.timestamp - lookback)
  }

  /** What is kept of everything ever added. */
  function Kept<T>(lookback: int, xs: seq<Stamped<T>>): seq<Stamped<T>>
    decreases |xs|
  {
    if xs == [] then [] else Added(lookback, Kept(lookback, xs[..|xs| - 1]), xs[|xs| - 1])
  }

  class LookbackHistory<T(==)> {
    var items: seq<Stamped<T>>
    const maxLookbackMicros: int

    constructor (maxLookbackMs: int)
      ensures items == [] && maxLookbackMicros == maxLookbackMs * 1000
    {
      items := [];
      maxLookbackMicros := maxLookbackMs * MICROS_PER_MS;
    }

    /** trades_since and events_since. */
    function ItemsSince(lookbackMs: int): seq<Stamped<T>>
      reads this
    {
      SinceLookback(items, lookbackMs)
    }

    /** get_book_at. */
    function ItemBefore(offsetMs: int): Option<Stamped<T>>
      reads this
    {
      ItemAt(items, offsetMs)
    }

    method Add(x: Stamped<T>)
      modifies this
      ensures items == Added(maxLookbackMicros, old(items), x)
    {
      items := items + [x];
      Cleanup();
    }

    method Cleanup()
      modifies this
      ensures items == if old(items) == [] then []
        else DropOld(old(items), old(items)[|old(items)| - 1].timestamp - maxLookbackMicros)
    {
      if items != [] {
        var cutoff := items[|items| - 1].timestamp - maxLookbackMicros;
        while items != []
          invariant DropOld(items, cutoff) == DropOld(old(items), cutoff)
          decreases |items|
        {
          var oldest := items[0];
          if oldest.timestamp < cutoff {
            items := items[1..];
          } else {
            break;
          }
        }
      }
    }
  }

  ghost predicate NonDecreasing<T>(xs: seq<Stamped<T>>) {
    forall i, j :: 0 <= i < j < |xs| ==> xs[i].timestamp <= xs[j].timestamp
  }

  lemma {:induction false} SinceSplits<T>(s: seq<Stamped<T>>, d: nat, cutoff: int)
    requires d <= |s|
    ensures Since(s, cutoff) == Since(s[..d], cutoff) + Since(s[d..], cutoff)
  {
    if d > 0 {
      SinceSplits(s[1..], d - 1, cutoff);
      assert s[1..][..d - 1] == s[..d][1..];
      assert s[1..][d - 1..] == s[d..];
    }
  }

  lemma {:induction false} SinceAll<T>(a: seq<Stamped<T>>, cutoff: int)
    requires forall i :: 0 <= i < |a| ==> a[i].timestamp >= cutoff
    ensures Since(a, cutoff) == a
  {
    if a != [] {
      SinceAll(a[1..], cutoff);
    }
  }

  lemma {:induction false} SinceNoneIff<T>(a: seq<Stamped<T>>, cutoff: int)
    ensures Since(a, cutoff) == [] <==> forall i :: 0 <= i < |a| ==> a[i].timestamp < cutoff
  {
    if a != [] {
      SinceNoneIff(a[1..], cutoff);
      assert a == [a[0]] + a[1..];
    }
  }

  /** A filter misses nothing by skipping a prefix exactly if nothing in the prefix passes it. */
  lemma SkippingIsExactIff<T>(s: seq<Stamped<T>>, d: nat, cutoff: int)
    requires d <= |s|
    ensures Since(s[d..], cutoff) == Since(s, cutoff) <==> forall i :: 0 <= i < d ==> s[i].timestamp < cutoff
  {
    var skipped, rest := Since(s[..d], cutoff), Since(s[d..], cutoff);
    SinceSplits(s, d, cutoff);
    SinceNoneIff(s[..d], cutoff);
    assert rest == skipped + rest <==> skipped == [] by {
      assert |skipped + rest| == |skipped| + |rest|;
    }
    assert forall i :: 0 <= i < d ==> s[..d][i] == s[i];
  }

  /** DropOld removes a prefix, every item of which is old, and stops at a recent item. */
  lemma {:induction false} DropOldSplits<T>(s: seq<Stamped<T>>, cutoff: int) returns (d: nat)
    ensures d <= |s| && DropOld(s, cutoff) == s[d..]
    ensures forall i :: 0 <= i < d ==> s[i].timestamp < cutoff
    ensures d < |s| ==> s[d].timestamp >= cutoff
  {
    if s == [] || s[0].timestamp >= cutoff {
      d := 0;
    } else {
      d := DropOldSplits(s[1..], cutoff);
      d := d + 1;
    }
  }

  /** Item k is too old for itself or for some later item. */
  ghost predicate Outdated<T>(lookback: int, xs: seq<Stamped<T>>, k: nat)
    requires k < |xs|
  {
    exists j :: k <= j < |xs| && xs[k].timestamp < xs[j].timestamp - lookback
  }

  /** Item i and every item ahead of it is outdated; whether it is can be told from the timestamps. */
  ghost predicate Pruned<T>(lookback: int, xs: seq<Stamped<T>>, i: nat)
    requires i < |xs|
  {
    forall k :: 0 <= k <= i ==> Outdated(lookback, xs, k)
  }

  lemma OutdatedIffNow<T>(lookback: int, xs: seq<Stamped<T>>, x: Stamped<T>, k: nat)
    requires k < |xs|
    ensures Outdated(lookback, xs + [x], k) <==>
      Outdated(lookback, xs, k) || xs[k].timestamp < x.timestamp - lookback
  {
    var ys := xs + [x];
    if j :| k <= j < |xs| && xs[k].timestamp < xs[j].timestamp - lookback {
      assert ys[k].timestamp < ys[j].timestamp - lookback;
    }
    if xs[k].timestamp < x.timestamp - lookback {
      assert ys[k].timestamp < ys[|xs|].timestamp - lookback;
    }
  }

  /** If item e is not outdated before x but is by x, an item after e that x leaves alone is not outdated. */
  lemma BlockedByOlder<T>(lookback: int, xs: seq<Stamped<T>>, x: Stamped<T>, e: nat, d: nat)
    requires e < d < |xs| && !Outdated(lookback, xs, e)
    requires xs[e].timestamp < x.timestamp - lookback <= xs[d].timestamp
    ensures !Outdated(lookback, xs + [x], d)
  {
    OutdatedIffNow(lookback, xs, x, d);
    if j :| d <= j < |xs| && xs[d].timestamp < xs[j].timestamp - lookback {
      assert xs[e].timestamp < xs[j].timestamp - lookback;
    }
  }

  /** d is the first item that is not outdated. */
  ghost predicate FirstCurrent<T>(lookback: int, xs: seq<Stamped<T>>, d: nat) {
    && d <= |xs| && (forall k :: 0 <= k < d ==> Outdated(lookback, xs, k))
    && (d < |xs| ==> !Outdated(lookback, xs, d))
  }

  lemma OutdatedUpTo<T>(lookback: int, xs: seq<Stamped<T>>, x: Stamped<T>, e: nat, d: nat)
    requires FirstCurrent(lookback, xs, e) && e <= d <= |xs| + 1
    requires forall k :: e <= k < d ==> (xs + [x])[k].timestamp < x.timestamp - lookback
    ensures forall k :: 0 <= k < d ==> Outdated(lookback, xs + [x], k)
  {
    var ys := xs + [x];
    forall k | 0 <= k < d ensures Outdated(lookback, ys, k) {
      if k < e {
        OutdatedIffNow(lookback, xs, x, k);
      } else {
        assert ys[k].timestamp < ys[|xs|].timestamp - lookback;
      }
    }
  }

  lemma CurrentAt<T>(lookback: int, xs: seq<Stamped<T>>, x: Stamped<T>, e: nat, d: nat)
    requires FirstCurrent(lookback, xs, e) && e <= d <= |xs|
    requires e < d ==> xs[e].timestamp < x.timestamp - lookback
    requires (xs + [x])[d].timestamp >= x.timestamp - lookback
    ensures !Outdated(lookback, xs + [x], d)
  {
    if e < d < |xs| {
      BlockedByOlder(lookback, xs, x, e, d);
    } else if d < |xs| {
      OutdatedIffNow(lookback, xs, x, d);
    }
  }

  /** One more item: from the first item not outdated before it to the first one not outdated after it. */
  lemma AddedFromFirstCurrent<T>(lookback: int, xs: seq<Stamped<T>>, x: Stamped<T>, e: nat) returns (d: nat)
    requires FirstCurrent(lookback, xs, e)
    ensures FirstCurrent(lookback, xs + [x], d) && Added(lookback, xs[e..], x) == (xs + [x])[d..]
  {
    var ys := xs + [x];
    assert xs[e..] + [x] == ys[e..];
    var f := DropOldSplits(ys[e..], x.timestamp - lookback);
    d := e + f;
    assert ys[e..][f..] == ys[d..];
    forall k | e <= k < d ensures ys[k].timestamp < x.timestamp - lookback {
      assert ys[k] == ys[e..][k - e];
    }
    OutdatedUpTo(lookback, xs, x, e, d);
    if d <= |xs| {
      assert ys[d] == ys[e..][f];
      CurrentAt(lookback, xs, x, e, d);
    }
  }

  /** In any order, what is kept is everything from the first item on that is not outdated. */
  lemma {:induction false} KeptFromFirstCurrent<T>(lookback: int, xs: seq<Stamped<T>>) returns (d: nat)
    ensures FirstCurrent(lookback, xs, d) && Kept(lookback, xs) == xs[d..]
    decreases |xs|
  {
    d := 0;
    if xs != [] {
      var n := |xs| - 1;
      var e := KeptFromFirstCurrent(lookback, xs[..n]);
      assert xs == xs[..n] + [xs[n]];
      d := AddedFromFirstCurrent(lookback, xs[..n], xs[n], e);
    }
  }

  /** For items in time order, the kept suffix is exactly what lies within the lookback. */
  lemma WindowBounds<T>(lookback: int, xs: seq<Stamped<T>>) returns (d: nat)
    requires NonDecreasing(xs) && xs != []
    ensures d <= |xs| && Kept(lookback, xs) == xs[d..]
    ensures forall i :: 0 <= i < d ==> xs[i].timestamp < xs[|xs| - 1].timestamp - lookback
    ensures forall i :: d <= i < |xs| ==> xs[i].timestamp >= xs[|xs| - 1].timestamp - lookback
  {
    d := KeptFromFirstCurrent(lookback, xs);
    forall i | 0 <= i < d ensures xs[i].timestamp < xs[|xs| - 1].timestamp - lookback {
      assert Outdated(lookback, xs, i);
    }
    if d < |xs| {
      assert d <= |xs| - 1 < |xs| && xs[d].timestamp >= xs[|xs| - 1].timestamp - lookback;
    }
  }

  /** For items in time order, pruning keeps exactly those within the lookback of the newest. */
  lemma KeptIsTheWindow<T>(lookback: int, xs: seq<Stamped<T>>)
    requires NonDecreasing(xs) && xs != []
    ensures Kept(lookback, xs) == Since(xs, xs[|xs| - 1].timestamp - lookback)
  {
    var cutoff := xs[|xs| - 1].timestamp - lookback;
    var d := WindowBounds(lookback, xs);
    SkippingIsExactIff(xs, d, cutoff);
    SinceAll(xs[d..], cutoff);
  }

  /** Pruning never shows in a query that looks back no further than the window. */
  lemma PruningIsInvisible<T>(maxLookbackMs: int, xs: seq<Stamped<T>>, lookbackMs: int)
    requires NonDecreasing(xs) && lookbackMs <= maxLookbackMs
    ensures SinceLookback(Kept(maxLookbackMs * MICROS_PER_MS, xs), lookbackMs) == SinceLookback(xs, lookbackMs)
  {
    if xs != [] {
      var cutoff := xs[|xs| - 1].timestamp - lookbackMs * MICROS_PER_MS;
      var d := WindowBounds(maxLookbackMs * MICROS_PER_MS, xs);
      SkippingIsExactIff(xs, d, cutoff);
    }
  }

  /** Item i came out of the pruning exactly if it stands at d or later. */
  lemma PrunedIffAhead<T>(lookback: int, xs: seq<Stamped<T>>, d: nat, i: nat)
    requires FirstCurrent(lookback, xs, d) && i < |xs|
    ensures Pruned(lookback, xs, i) <==> i < d
  {
  }

  lemma SuffixQueryIff<T>(xs: seq<Stamped<T>>, d: nat, lookbackMs: int)
    requires xs != [] && d <= |xs|
    ensures SinceLookback(xs[d..], lookbackMs) == SinceLookback(xs, lookbackMs) <==>
      forall i :: 0 <= i < d ==> xs[i].timestamp < xs[|xs| - 1].timestamp - lookbackMs * MICROS_PER_MS
  {
    SkippingIsExactIff(xs, d, xs[|xs| - 1].timestamp - lookbackMs * MICROS_PER_MS);
  }

  /**
    In any order, a query over the pruned history equals the one over the full history exactly if
    every item that is outdated together with all items ahead of it is older than the query's cutoff.
    */
  lemma QueryIsExactIff<T>(maxLookbackMs: int, xs: seq<Stamped<T>>, lookbackMs: int)
    requires xs != []
    ensures SinceLookback(Kept(maxLookbackMs * MICROS_PER_MS, xs), lookbackMs) == SinceLookback(xs, lookbackMs) <==>
      forall i :: 0 <= i < |xs| && Pruned(maxLookbackMs * MICROS_PER_MS, xs, i) ==>
        xs[i].timestamp < xs[|xs| - 1].timestamp - lookbackMs * MICROS_PER_MS
  {
    var lookback := maxLookbackMs * MICROS_PER_MS;
    var d := KeptFromFirstCurrent(lookback, xs);
    forall i | 0 <= i < |xs| ensures Pruned(lookback, xs, i) <==> i < d {
      PrunedIffAhead(lookback, xs, d, i);
    }
    SuffixQueryIff(xs, d, lookbackMs);
  }

  lemma {:induction false} FindLastSplits<T>(s: seq<Stamped<T>>, d: nat, target: int)
    requires d <= |s|
    ensures FindLast(s, target) == match FindLast(s[d..], target)
      case Some(x) => Some(x)
      case None => FindLast(s[..d], target)
    decreases |s|
  {
    if d < |s| {
      var n := |s| - 1;
      assert s[d..][|s[d..]| - 1] == s[n] && s[d..][..|s[d..]| - 1] == s[..n][d..];
      assert s[..n][..d] == s[..d];
      FindLastSplits(s[..n], d, target);
    } else {
      assert s[d..] == [] && s[..d] == s;
    }
  }

  lemma {:induction false} FindLastIsSome<T>(s: seq<Stamped<T>>, target: int) returns (i: nat)
    requires FindLast(s, target).Some?
    ensures i < |s| && FindLast(s, target).value == s[i] && s[i].timestamp <= target
    decreases |s|
  {
    if s[|s| - 1].timestamp <= target {
      i := |s| - 1;
    } else {
      i := FindLastIsSome(s[..|s| - 1], target);
    }
  }

  /** The book at an offset is the full history's answer if that lies in the window, else none. */
  lemma BookAtIsTheFullAnswerInTheWindow<T>(maxLookbackMs: int, xs: seq<Stamped<T>>, offsetMs: int)
    requires NonDecreasing(xs) && xs != []
    ensures ItemAt(Kept(maxLookbackMs * MICROS_PER_MS, xs), offsetMs) == match ItemAt(xs, offsetMs)
      case None => None
      case Some(x) =>
        if x.timestamp >= xs[|xs| - 1].timestamp - maxLookbackMs * MICROS_PER_MS then Some(x) else None
  {
    var target := xs[|xs| - 1].timestamp - offsetMs * MICROS_PER_MS;
    var d := WindowBounds(maxLookbackMs * MICROS_PER_MS, xs);
    FindLastSplits(xs, d, target);
    if FindLast(xs[d..], target).Some? {
      var i := FindLastIsSome(xs[d..], target);
      assert xs[d..][i] == xs[d + i];
    } else if FindLast(xs[..d], target).Some? {
      var i := FindLastIsSome(xs[..d], target);
      assert xs[..d][i] == xs[i];
    }
  }

  lemma {:induction false} FindLastIsNoneIff<T>(s: seq<Stamped<T>>, target: int)
    ensures FindLast(s, target) == None <==> forall i :: 0 <= i < |s| ==> s[i].timestamp > target
    decreases |s|
  {
    if s != [] {
      FindLastIsNoneIff(s[..|s| - 1], target);
    }
  }

  /**
    In any order, the book at an offset is the full history's answer exactly if some item that
    qualifies is not pruned, or none qualifies at all.
    */
  lemma BookAtIsExactIff<T>(maxLookbackMs: int, xs: seq<Stamped<T>>, offsetMs: int)
    requires xs != []
    ensures ItemAt(Kept(maxLookbackMs * MICROS_PER_MS, xs), offsetMs) == ItemAt(xs, offsetMs) <==>
      ((exists i :: 0 <= i < |xs| && Qualifies(xs, offsetMs, i)) ==>
        exists i :: 0 <= i < |xs| && Qualifies(xs, offsetMs, i) && !Pruned(maxLookbackMs * MICROS_PER_MS, xs, i))
  {
    var lookback, target := maxLookbackMs * MICROS_PER_MS, xs[|xs| - 1].timestamp - offsetMs * MICROS_PER_MS;
    var d := KeptFromFirstCurrent(lookback, xs);
    forall i | 0 <= i < |xs| ensures Pruned(lookback, xs, i) <==> i < d {
      PrunedIffAhead(lookback, xs, d, i);
    }
    FindLastSplits(xs, d, target);
    FindLastIsNoneIff(xs, target);
    FindLastIsNoneIff(xs[d..], target);
    if FindLast(xs[d..], target).Some? {
      var i := FindLastIsSome(xs[d..], target);
      assert xs[d..][i] == xs[d + i];
      assert Qualifies(xs, offsetMs, d + i) && !Pruned(lookback, xs, d + i);
    } else {
      assert forall i :: d <= i < |xs| ==> xs[i] == xs[d..][i - d];
      assert forall i :: 0 <= i < |xs| && Qualifies(xs, offsetMs, i) ==> Pruned(lookback, xs, i);
      if FindLast(xs, target).Some? {
        var i := FindLastIsSome(xs, target);
        assert Qualifies(xs, offsetMs, i);
      }
    }
  }

  /** Item i is no younger than the offset asks for. */
  predicate Qualifies<T>(xs: seq<Stamped<T>>, offsetMs: int, i: nat)
    requires i < |xs|
  {
    xs[i].timestamp <= xs[|xs| - 1].timestamp - offsetMs * MICROS_PER_MS
  }

  /** Out of time order both queries can lose an item they would return from the full history. */
  lemma OutOfOrderItemIsLost()
    ensures var xs := [Stamped(0, 0), Stamped(5000, 1), Stamped(1000, 2)];
      && SinceLookback(Kept(1 * MICROS_PER_MS, xs), 1) != SinceLookback(xs, 1)
      && ItemAt(xs, 1) == Some(Stamped(0, 0)) && ItemAt(Kept(1 * MICROS_PER_MS, xs), 1) == None
  {
    var xs := [Stamped(0, 0), Stamped(5000, 1), Stamped(1000, 2)];
    assert xs[..2] == [xs[0], xs[1]] && xs[..2][..1] == [xs[0]] && xs[..2][..1][..0] == [];
    assert Kept(1000, xs[..2][..1]) == [xs[0]];
    assert DropOld([xs[0], xs[1]], 4000) == [xs[1]];
    assert Kept(1000, xs[..2]) == [xs[1]];
    assert Kept(1000, xs) == [xs[1], xs[2]];
    assert FindLast(xs[..2][..1], 0) == Some(xs[0]) && FindLast(xs[..2], 0) == Some(xs[0]);
    assert [xs[1], xs[2]][..1] == [xs[1]] && FindLast([xs[1]], 0) == None;
    assert Outdated(1000, xs, 0) by {
      assert xs[0].timestamp < xs[1].timestamp - 1000;
    }
    QueryIsExactIff(1, xs, 1);
  }

  // ---- what the queries return, item by item -------------------------------------------------

  /** Item i is not older than the newest one by more than the lookback. */
  predicate IsRecent<T>(s: seq<Stamped<T>>, lookbackMs: int, i: nat)
    requires i < |s|
  {
    s[i].timestamp >= s[|s| - 1].timestamp - lookbackMs * 1000
  }

  /** The positions of the items no older than the cutoff, in order. */
  ghost function PositionsSince<T>(s: seq<Stamped<T>>, cutoff: int): (ps: seq<nat>)
    ensures forall k :: 0 <= k < |ps| ==> ps[k] < |s|
    decreases |s|
  {
    if s == [] then []
    else
      var n := |s| - 1;
      PositionsSince(s[..n], cutoff) + if s[n].timestamp >= cutoff then [n] else []
  }

  lemma {:induction false} SinceAppends<T>(s: seq<Stamped<T>>, x: Stamped<T>, cutoff: int)
    ensures Since(s + [x], cutoff) == Since(s, cutoff) + if x.timestamp >= cutoff then [x] else []
  {
    if s == [] {
      assert s + [x] == [x];
    } else {
      assert (s + [x])[1..] == s[1..] + [x];
      SinceAppends(s[1..], x, cutoff);
    }
  }

  /** Increasing positions, of exactly the items that pass, each once, and their items in that order. */
  lemma {:induction false} SincePicks<T>(s: seq<Stamped<T>>, cutoff: int)
    ensures var ps := PositionsSince(s, cutoff);
      && (forall j, k :: 0 <= j < k < |ps| ==> ps[j] < ps[k])
      && (forall i :: 0 <= i < |s| ==> (i in ps <==> s[i].timestamp >= cutoff))
      && |Since(s, cutoff)| == |ps| && forall k :: 0 <= k < |ps| ==> Since(s, cutoff)[k] == s[ps[k]]
    decreases |s|
  {
    if s != [] {
      var n := |s| - 1;
      SincePicks(s[..n], cutoff);
      assert s[..n] + [s[n]] == s;
      SinceAppends(s[..n], s[n], cutoff);
    }
  }

  /** A query over any list returns each item within the lookback of the newest, once each and in order. */
  lemma SinceLookbackPicks<T>(s: seq<Stamped<T>>, lookbackMs: int) returns (ps: seq<nat>)
    ensures forall j, k :: 0 <= j < k < |ps| ==> ps[j] < ps[k]
    ensures forall k :: 0 <= k < |ps| ==> ps[k] < |s|
    ensures forall i :: 0 <= i < |s| ==> (i in ps <==> IsRecent(s, lookbackMs, i))
    ensures |SinceLookback(s, lookbackMs)| == |ps|
    ensures forall k :: 0 <= k < |ps| ==> SinceLookback(s, lookbackMs)[k] == s[ps[k]]
  {
    var cutoff := if s == [] then 0 else s[|s| - 1].timestamp - lookbackMs * MICROS_PER_MS;
    ps := PositionsSince(s, cutoff);
    SincePicks(s, cutoff);
  }

  /** The item at an offset is the last one, in arrival order, at least that much older than the newest. */
  lemma {:induction false} FindLastIsLast<T>(s: seq<Stamped<T>>, target: int, i: nat)
    requires i < |s| && s[i].timestamp <= target && forall j :: i < j < |s| ==> s[j].timestamp > target
    ensures FindLast(s, target) == Some(s[i])
    decreases |s|
  {
    if i < |s| - 1 {
      FindLastIsLast(s[..|s| - 1], target, i);
    }
  }

  lemma ItemAtIsLast<T>(s: seq<Stamped<T>>, offsetMs: int, i: nat)
    requires i < |s| && s[i].timestamp <= s[|s| - 1].timestamp - offsetMs * 1000
    requires forall j :: i < j < |s| ==> s[j].timestamp > s[|s| - 1].timestamp - offsetMs * 1000
    ensures ItemAt(s, offsetMs) == Some(s[i])
  {
    FindLastIsLast(s, s[|s| - 1].timestamp - offsetMs * MICROS_PER_MS, i);
  }

  /** And there is none exactly if no item is that old. */
  lemma ItemAtIsNoneIff<T>(s: seq<Stamped<T>>, offsetMs: int)
    ensures ItemAt(s, offsetMs) == None <==>
      forall i :: 0 <= i < |s| ==> s[i].timestamp > s[|s| - 1].timestamp - offsetMs * 1000
  {
    if s != [] {
      FindLastIsNoneIff(s, s[|s| - 1].timestamp - offsetMs * MICROS_PER_MS);
    }
  }

  /** What a history object answers in time order: from everything ever added, as far as the lookback goes. */
  lemma ObjectAnswers<T>(h: LookbackHistory<T>, maxLookbackMs: int, xs: seq<Stamped<T>>, ms: int)
    requires h.items == Kept(maxLookbackMs * 1000, xs) && NonDecreasing(xs) && xs != []
    ensures ms <= maxLookbackMs ==> h.ItemsSince(ms) == SinceLookback(xs, ms)
    ensures h.ItemBefore(ms) == match ItemAt(xs, ms)
      case None => None
      case Some(x) => if x.timestamp >= xs[|xs| - 1].timestamp - maxLookbackMs * 1000 then Some(x) else None
  {
    if ms <= maxLookbackMs {
      PruningIsInvisible(maxLookbackMs, xs, ms);
    }
    BookAtIsTheFullAnswerInTheWindow(maxLookbackMs, xs, ms);
  }
}
