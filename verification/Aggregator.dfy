/**
  The order book aggregator: bids and asks of a key arrive in separate packets, in any
  interleaving and with any losses, and are handed out together once both are there.
  */
module Aggregators {
  import opened Wrappers

  datatype Packet<K, L> = Packet(key: K, isBid: bool, levels: L, isLast: bool)

  datatype Partial<L> = Partial(bids: Option<L>, asks: Option<L>)

  datatype Pair<L> = Pair(bids: L, asks: L)

  function PartialOf<K, L>(m: map<K, Partial<L>>, k: K): Partial<L> {
    if k in m then m[k] else Partial(None, None)
  }

  function WithLevels<L>(p: Partial<L>, isBid: bool, levels: L): Partial<L> {
    if isBid then p.(bids := Some(levels)) else p.(asks := Some(levels))
  }

  /** The partial books after a packet, before anything is taken. */
  function Stored<K, L>(m: map<K, Partial<L>>, x: Packet<K, L>): map<K, Partial<L>> {
    m[x.key := WithLevels(PartialOf(m, x.key), x.isBid, x.levels)]
  }

  function Complete<L>(p: Partial<L>): Option<Pair<L>> {
    if p.bids.Some? && p.asks.Some? then Some(Pair(p.bids.value, p.asks.value)) else None
  }

  /** What the packet completes, if anything. */
  function Emission<K, L>(m: map<K, Partial<L>>, x: Packet<K, L>): Option<Pair<L>> {
    if x.isLast then Complete(PartialOf(Stored(m, x), x.key)) else None
  }

  /** The partial books after a packet; an emission clears its key. */
  function After<K, L>(m: map<K, Partial<L>>, x: Packet<K, L>): map<K, Partial<L>> {
    if Emission(m, x).Some? then Stored(m, x) - {x.key} else Stored(m, x)
  }

  class OrderBookAggregator<K(==), L> {
    var partialBooks: map<K, Partial<L>>

    constructor ()
      ensures partialBooks == map[]
    {
      partialBooks := map[];
    }

    method AddBids(key: K, bids: L)
      modifies this
      ensures partialBooks == Stored(old(partialBooks), Packet(key, true, bids, false))
    {
      if key !in partialBooks {
        partialBooks := partialBooks[key := Partial(None, None)];
      }
      partialBooks := partialBooks[key := partialBooks[key].(bids := Some(bids))];
    }

    method AddAsks(key: K, asks: L)
      modifies this
      ensures partialBooks == Stored(old(partialBooks), Packet(key, false, asks, false))
    {
      if key !in partialBooks {
        partialBooks := partialBooks[key := Partial(None, None)];
      }
      partialBooks := partialBooks[key := partialBooks[key].(asks := Some(asks))];
    }

    method TakeComplete(key: K) returns (pair: Option<Pair<L>>)
      modifies this
      ensures pair == Complete(PartialOf(old(partialBooks), key))
      ensures partialBooks == if pair.Some? then old(partialBooks) - {key} else old(partialBooks)
    {
      if key in partialBooks {
        var partial := partialBooks[key];
        if partial.bids.Some? && partial.asks.Some? {
          partialBooks := partialBooks - {key};
          return Some(Pair(partial.bids.value, partial.asks.value));
        }
      }
      return None;
    }

    /** One parsed packet, as the receiver's handler treats it. */
    method Handle(x: Packet<K, L>) returns (pair: Option<Pair<L>>)
      modifies this
      ensures pair == Emission(old(partialBooks), x)
      ensures partialBooks == After(old(partialBooks), x)
    {
      if x.isBid {
        AddBids(x.key, x.levels);
      } else {
        AddAsks(x.key, x.levels);
      }
      pair := None;
      if x.isLast {
        pair := TakeComplete(x.key);
      }
    }
  }

  // ---- histories ---------------------------------------------------------------------------

  /** The partial books after a whole history of packets. */
  function Books<K, L>(h: seq<Packet<K, L>>): map<K, Partial<L>>
    decreases |h|
  {
    if h == [] then map[] else After(Books(h[..|h| - 1]), h[|h| - 1])
  }

  /** What the last packet of a history completed. */
  function Emitted<K(==), L>(h: seq<Packet<K, L>>): Option<Pair<L>>
    requires h != []
  {
    Emission(Books(h[..|h| - 1]), h[|h| - 1])
  }

  /** The history with every packet's levels replaced by the packet's position. */
  function Positions<K, L>(h: seq<Packet<K, L>>): seq<Packet<K, nat>> {
    seq(|h|, i requires 0 <= i < |h| => Packet(h[i].key, h[i].isBid, i, h[i].isLast))
  }

  /** The newest packet of a key and side at position lo or later. */
  function Newest<K(==), L>(h: seq<Packet<K, L>>, lo: nat, k: K, isBid: bool): Option<nat>
    decreases |h|
  {
    if |h| <= lo then None
    else
      var x := h[|h| - 1];
      if x.key == k && x.isBid == isBid then Some(|h| - 1) else Newest(h[..|h| - 1], lo, k, isBid)
  }

  /** The number of packets up to and including the key's last emission. */
  function Cleared<K(==), L>(h: seq<Packet<K, L>>, k: K): (n: nat)
    ensures n <= |h|
    decreases |h|, 1
  {
    if h == [] then 0
    else if h[|h| - 1].key == k && Due(h).Some? then |h|
    else Cleared(h[..|h| - 1], k)
  }

  /** What a history's last packet should complete: the newest bids and asks since the last emission. */
  function Due<K(==), L>(h: seq<Packet<K, L>>): Option<Pair<nat>>
    requires h != []
    decreases |h|, 0
  {
    var x := h[|h| - 1];
    var lo := Cleared(h[..|h| - 1], x.key);
    if x.isLast then Complete(Partial(Newest(h, lo, x.key, true), Newest(h, lo, x.key, false))) else None
  }

  /** The partial book of a key is the newest bids and asks since its last emission. */
  lemma {:induction false} PartialIsNewest<K, L>(h: seq<Packet<K, L>>, k: K)
    ensures var lo := Cleared(h, k);
      PartialOf(Books(Positions(h)), k) == Partial(Newest(h, lo, k, true), Newest(h, lo, k, false))
    ensures h != [] && h[|h| - 1].key == k ==> Emitted(Positions(h)) == Due(h)
    decreases |h|
  {
    if h != [] {
      var n := |h| - 1;
      PartialIsNewest(h[..n], k);
      assert Positions(h)[..n] == Positions(h[..n]);
    }
  }

  lemma EmissionIsDue<K, L>(h: seq<Packet<K, L>>)
    requires h != []
    ensures Emitted(Positions(h)) == Due(h)
  {
    PartialIsNewest(h, h[|h| - 1].key);
  }

  /** The levels at a position. */
  function LevelsAt<K, L>(h: seq<Packet<K, L>>, i: Option<nat>): Option<L> {
    if i.Some? && i.value < |h| then Some(h[i.value].levels) else None
  }

  ghost predicate InRange<K, L>(h: seq<Packet<K, L>>, p: Partial<nat>) {
    (p.bids.Some? ==> p.bids.value < |h|) && (p.asks.Some? ==> p.asks.value < |h|)
  }

  /** The real partial books are the positions' books with the levels put back. */
  lemma {:induction false} PositionsStandForLevels<K, L>(h: seq<Packet<K, L>>, k: K)
    ensures var p := PartialOf(Books(Positions(h)), k);
      InRange(h, p) && PartialOf(Books(h), k) == Partial(LevelsAt(h, p.bids), LevelsAt(h, p.asks))
    decreases |h|
  {
    if h != [] {
      var n := |h| - 1;
      PositionsStandForLevels(h[..n], k);
      PositionsStandForLevels(h[..n], h[n].key);
      assert Positions(h)[..n] == Positions(h[..n]);
    }
  }

  /** The newest packet of a side is the key's, on that side, and none follows it. */
  lemma {:induction false} NewestIsNewest<K, L>(h: seq<Packet<K, L>>, lo: nat, k: K, isBid: bool)
    requires Newest(h, lo, k, isBid).Some?
    ensures var i := Newest(h, lo, k, isBid).value;
      && lo <= i < |h| && h[i].key == k && h[i].isBid == isBid
      && forall j :: i < j < |h| ==> h[j].key != k || h[j].isBid != isBid
    decreases |h|
  {
    var n := |h| - 1;
    if !(h[n].key == k && h[n].isBid == isBid) {
      NewestIsNewest(h[..n], lo, k, isBid);
    }
  }

  /**
    Whatever arrives in whatever order: an emitted pair is the key's most recently received bids
    and its most recently received asks.
    */
  lemma EmittedPairIsMostRecent<K, L>(h: seq<Packet<K, L>>) returns (i: nat, j: nat)
    requires h != [] && Emitted(h).Some?
    ensures i < |h| && h[i].key == h[|h| - 1].key && h[i].isBid
    ensures j < |h| && h[j].key == h[|h| - 1].key && !h[j].isBid
    ensures Emitted(h).value == Pair(h[i].levels, h[j].levels) && Due(h) == Some(Pair(i, j))
    ensures forall l :: i < l < |h| && h[l].key == h[|h| - 1].key ==> !h[l].isBid
    ensures forall l :: j < l < |h| && h[l].key == h[|h| - 1].key ==> h[l].isBid
  {
    var n := |h| - 1;
    var k := h[n].key;
    var lo := Cleared(h[..n], k);
    assert Positions(h)[..n] == Positions(h[..n]);
    PositionsStandForLevels(h[..n], k);
    EmissionIsDue(h);
    i, j := Newest(h, lo, k, true).value, Newest(h, lo, k, false).value;
    NewestIsNewest(h, lo, k, true);
    NewestIsNewest(h, lo, k, false);
  }

  lemma {:induction false} ClearedCovers<K, L>(h: seq<Packet<K, L>>, n: nat)
    requires n < |h| && Due(h[..n + 1]).Some?
    ensures Cleared(h, h[n].key) >= n + 1
    decreases |h|
  {
    if n + 1 == |h| {
      assert h[..n + 1] == h;
    } else {
      assert h[..|h| - 1][..n + 1] == h[..n + 1];
      ClearedCovers(h[..|h| - 1], n);
    }
  }

  /** Every packet is used in at most one emission. */
  lemma PacketsAreUsedOnce<K, L>(h: seq<Packet<K, L>>, m: nat, n: nat)
    requires m < n < |h| && Due(h[..m + 1]).Some? && Due(h[..n + 1]).Some?
    ensures {Due(h[..m + 1]).value.bids, Due(h[..m + 1]).value.asks} !!
      {Due(h[..n + 1]).value.bids, Due(h[..n + 1]).value.asks}
  {
    var a, b := h[..m + 1], h[..n + 1];
    NewestIsNewest(a, Cleared(a[..m], h[m].key), h[m].key, true);
    NewestIsNewest(a, Cleared(a[..m], h[m].key), h[m].key, false);
    NewestIsNewest(b, Cleared(b[..n], h[n].key), h[n].key, true);
    NewestIsNewest(b, Cleared(b[..n], h[n].key), h[n].key, false);
    if h[m].key == h[n].key {
      assert b[..n][..m + 1] == a;
      ClearedCovers(b[..n], m);
    }
  }

  function OnlyKey<K(==), L>(h: seq<Packet<K, L>>, k: K): seq<Packet<K, L>>
    decreases |h|
  {
    if h == [] then []
    else
      var x := h[|h| - 1];
      if x.key == k then OnlyKey(h[..|h| - 1], k) + [x] else OnlyKey(h[..|h| - 1], k)
  }

  /** Keys never affect each other: a key's emissions are those of its own packets alone. */
  lemma {:induction false} KeysAreIndependent<K, L>(h: seq<Packet<K, L>>, k: K)
    ensures PartialOf(Books(h), k) == PartialOf(Books(OnlyKey(h, k)), k)
    ensures h != [] && h[|h| - 1].key == k ==> Emitted(h) == Emitted(OnlyKey(h, k))
    decreases |h|
  {
    if h != [] {
      KeysAreIndependent(h[..|h| - 1], k);
      if h[|h| - 1].key == k {
        assert OnlyKey(h, k)[..|OnlyKey(h, k)| - 1] == OnlyKey(h[..|h| - 1], k);
      }
    }
  }
}
