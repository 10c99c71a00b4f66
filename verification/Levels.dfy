/**
  Price levels and the sorted level list of one side of an order book.

  Prices are integer ticks, so equal price means equal key. Both sides of a book share
  every definition and lemma here: the side only decides which of two prices is better.
  */
module Levels {

  datatype Side = Bid | Ask

  datatype Level = Level(price: int, qty: int)

  /** Price p ranks strictly ahead of price q: bids descend, asks ascend. */
  predicate Better(s: Side, p: int, q: int) {
    if s.Bid? then p > q else p < q
  }

  /** Best price first, no price twice. */
  ghost predicate Sorted(s: Side, ls: seq<Level>) {
    forall i, j :: 0 <= i < j < |ls| ==> Better(s, ls[i].price, ls[j].price)
  }

  ghost predicate NonZero(ls: seq<Level>) {
    forall i :: 0 <= i < |ls| ==> ls[i].qty != 0
  }

  /** The first n levels, or all of them if there are fewer. */
  function Take(ls: seq<Level>, n: nat): seq<Level> {
    if |ls| <= n then ls else ls[..n]
  }

  /** What a level list means: the quantity resting at each price. */
  function AsMap(ls: seq<Level>): map<int, int> {
    if ls == [] then map[] else AsMap(ls[1..])[ls[0].price := ls[0].qty]
  }

  /** Replace the level at price p, or insert it ahead of the first worse level. */
  function Upsert(s: Side, ls: seq<Level>, p: int, q: int): seq<Level> {
    if ls == [] then [Level(p, q)]
    else if ls[0].price == p then [Level(p, q)] + ls[1..]
    else if Better(s, p, ls[0].price) then [Level(p, q)] + ls
    else [ls[0]] + Upsert(s, ls[1..], p, q)
  }

  /** Remove the first level at price p. */
  function Delete(ls: seq<Level>, p: int): seq<Level> {
    if ls == [] then []
    else if ls[0].price == p then ls[1..]
    else [ls[0]] + Delete(ls[1..], p)
  }

  /** One level of an update on a side that never evicts: quantity 0 deletes. */
  function ApplyLevel(s: Side, ls: seq<Level>, u: Level): seq<Level> {
    if u.qty == 0 then Delete(ls, u.price) else Upsert(s, ls, u.price, u.qty)
  }

  function ApplyLevels(s: Side, ls: seq<Level>, us: seq<Level>): seq<Level>
    decreases |us|
  {
    if us == [] then ls else ApplyLevel(s, ApplyLevels(s, ls, us[..|us| - 1]), us[|us| - 1])
  }

  /** The meaning of one level of an update on a price map. */
  function SetLevel(m: map<int, int>, u: Level): map<int, int> {
    if u.qty == 0 then m - {u.price} else m[u.price := u.qty]
  }

  function SetLevels(m: map<int, int>, us: seq<Level>): map<int, int>
    decreases |us|
  {
    if us == [] then m else SetLevel(SetLevels(m, us[..|us| - 1]), us[|us| - 1])
  }

  /** The last quantity written at each price. */
  function LastWrites(us: seq<Level>): map<int, int>
    decreases |us|
  {
    if us == [] then map[] else LastWrites(us[..|us| - 1])[us[|us| - 1].price := us[|us| - 1].qty]
  }

  // ---- where Upsert and Delete act ---------------------------------------------------

  lemma {:induction false} UpsertReplacesAt(s: Side, ls: seq<Level>, p: int, q: int, i: nat)
    requires i < |ls| && ls[i].price == p
    requires forall j :: 0 <= j < i ==> ls[j].price != p && !Better(s, p, ls[j].price)
    ensures Upsert(s, ls, p, q) == ls[i := Level(p, q)]
  {
    if i > 0 {
      UpsertReplacesAt(s, ls[1..], p, q, i - 1);
    }
  }

  lemma {:induction false} UpsertInsertsAt(s: Side, ls: seq<Level>, p: int, q: int, i: nat)
    requires i <= |ls|
    requires forall j :: 0 <= j < i ==> ls[j].price != p && !Better(s, p, ls[j].price)
    requires i < |ls| ==> Better(s, p, ls[i].price)
    ensures Upsert(s, ls, p, q) == ls[..i] + [Level(p, q)] + ls[i..]
  {
    if i > 0 {
      UpsertInsertsAt(s, ls[1..], p, q, i - 1);
    }
  }

  lemma {:induction false} DeletesAt(ls: seq<Level>, p: int, i: nat)
    requires i <= |ls| && (i < |ls| ==> ls[i].price == p)
    requires forall j :: 0 <= j < i ==> ls[j].price != p
    ensures Delete(ls, p) == if i < |ls| then ls[..i] + ls[i + 1..] else ls
  {
    if i > 0 {
      DeletesAt(ls[1..], p, i - 1);
    }
  }

  // ---- what they mean ----------------------------------------------------------------

  lemma {:induction false} UpsertMeaning(s: Side, ls: seq<Level>, p: int, q: int)
    ensures AsMap(Upsert(s, ls, p, q)) == AsMap(ls)[p := q]
  {
    if ls != [] && ls[0].price != p && !Better(s, p, ls[0].price) {
      UpsertMeaning(s, ls[1..], p, q);
    }
  }

  /** A list of levels that all rank behind p says nothing about p. */
  lemma {:induction false} AbsentIfAllDiffer(ls: seq<Level>, p: int)
    requires forall i :: 0 <= i < |ls| ==> ls[i].price != p
    ensures p !in AsMap(ls)
  {
    if ls != [] {
      AbsentIfAllDiffer(ls[1..], p);
    }
  }

  lemma {:induction false} PresentAt(s: Side, ls: seq<Level>, i: nat)
    requires i < |ls| && Sorted(s, ls)
    ensures ls[i].price in AsMap(ls) && AsMap(ls)[ls[i].price] == ls[i].qty
  {
    if i > 0 {
      PresentAt(s, ls[1..], i - 1);
    }
  }

  lemma {:induction false} IndexOf(ls: seq<Level>, p: int) returns (i: nat)
    requires p in AsMap(ls)
    ensures i < |ls| && ls[i].price == p && ls[i].qty == AsMap(ls)[p]
    ensures forall j :: 0 <= j < i ==> ls[j].price != p
  {
    if ls[0].price == p {
      i := 0;
    } else {
      i := IndexOf(ls[1..], p);
      i := i + 1;
    }
  }

  lemma {:induction false} DeleteMeaning(s: Side, ls: seq<Level>, p: int)
    requires Sorted(s, ls)
    ensures AsMap(Delete(ls, p)) == AsMap(ls) - {p}
  {
    if ls != [] {
      if ls[0].price == p {
        AbsentIfAllDiffer(ls[1..], p);
      } else {
        DeleteMeaning(s, ls[1..], p);
      }
    }
  }

  lemma ApplyLevelMeaning(s: Side, ls: seq<Level>, u: Level)
    requires Sorted(s, ls)
    ensures AsMap(ApplyLevel(s, ls, u)) == SetLevel(AsMap(ls), u)
  {
    if u.qty == 0 {
      DeleteMeaning(s, ls, u.price);
    } else {
      UpsertMeaning(s, ls, u.price, u.qty);
    }
  }

  // ---- sortedness --------------------------------------------------------------------

  ghost predicate AllBehind(s: Side, r: int, ls: seq<Level>) {
    forall i :: 0 <= i < |ls| ==> Better(s, r, ls[i].price)
  }

  lemma {:induction false} UpsertStaysBehind(s: Side, ls: seq<Level>, p: int, q: int, r: int)
    requires AllBehind(s, r, ls) && Better(s, r, p)
    ensures AllBehind(s, r, Upsert(s, ls, p, q))
  {
    if ls != [] && ls[0].price != p && !Better(s, p, ls[0].price) {
      UpsertStaysBehind(s, ls[1..], p, q, r);
    }
  }

  lemma {:induction false} UpsertSorted(s: Side, ls: seq<Level>, p: int, q: int)
    requires Sorted(s, ls)
    ensures Sorted(s, Upsert(s, ls, p, q))
    ensures NonZero(ls) && q != 0 ==> NonZero(Upsert(s, ls, p, q))
    ensures |ls| <= |Upsert(s, ls, p, q)| <= |ls| + 1
  {
    if ls != [] && ls[0].price != p && !Better(s, p, ls[0].price) {
      UpsertSorted(s, ls[1..], p, q);
      UpsertStaysBehind(s, ls[1..], p, q, ls[0].price);
    }
  }

  lemma {:induction false} DeleteSorted(s: Side, ls: seq<Level>, p: int)
    requires Sorted(s, ls)
    ensures Sorted(s, Delete(ls, p))
    ensures NonZero(ls) ==> NonZero(Delete(ls, p))
    ensures |ls| - 1 <= |Delete(ls, p)| <= |ls|
  {
    if p in AsMap(ls) {
      var i := IndexOf(ls, p);
      DeletesAt(ls, p, i);
    } else {
      forall j | 0 <= j < |ls| ensures ls[j].price != p {
        PresentAt(s, ls, j);
      }
      DeletesAt(ls, p, |ls|);
    }
  }

  lemma ApplyLevelSorted(s: Side, ls: seq<Level>, u: Level)
    requires Sorted(s, ls)
    ensures Sorted(s, ApplyLevel(s, ls, u))
    ensures NonZero(ls) ==> NonZero(ApplyLevel(s, ls, u))
  {
    if u.qty == 0 {
      DeleteSorted(s, ls, u.price);
    } else {
      UpsertSorted(s, ls, u.price, u.qty);
    }
  }

  /** No price in a sorted list beats its first one. */
  lemma HeadIsBest(s: Side, ls: seq<Level>, p: int)
    requires Sorted(s, ls) && p in AsMap(ls)
    ensures ls != [] && (p == ls[0].price || Better(s, ls[0].price, p))
  {
    var _ := IndexOf(ls, p);
  }

  lemma EmptyOnlyIfEmpty(ls: seq<Level>)
    ensures AsMap(ls) == map[] ==> ls == []
  {
    if ls != [] {
      assert ls[0].price in AsMap(ls);
    }
  }

  /** A price map has exactly one best-first listing. */
  lemma {:induction false} ListingUnique(s: Side, a: seq<Level>, b: seq<Level>)
    requires Sorted(s, a) && Sorted(s, b) && AsMap(a) == AsMap(b)
    ensures a == b
  {
    EmptyOnlyIfEmpty(a);
    EmptyOnlyIfEmpty(b);
    if a != [] && b != [] {
      HeadIsBest(s, a, b[0].price);
      HeadIsBest(s, b, a[0].price);
      var p := a[0].price;
      AbsentIfAllDiffer(a[1..], p);
      AbsentIfAllDiffer(b[1..], p);
      assert AsMap(a[1..]) == AsMap(a) - {p};
      assert AsMap(b[1..]) == AsMap(b) - {p};
      ListingUnique(s, a[1..], b[1..]);
    }
  }

  // ---- runs of levels ----------------------------------------------------------------

  lemma {:induction false} ApplyLevelsMeaning(s: Side, ls: seq<Level>, us: seq<Level>)
    requires Sorted(s, ls)
    ensures Sorted(s, ApplyLevels(s, ls, us))
    ensures AsMap(ApplyLevels(s, ls, us)) == SetLevels(AsMap(ls), us)
    ensures NonZero(ls) ==> NonZero(ApplyLevels(s, ls, us))
    decreases |us|
  {
    if us != [] {
      var before := us[..|us| - 1];
      ApplyLevelsMeaning(s, ls, before);
      ApplyLevelMeaning(s, ApplyLevels(s, ls, before), us[|us| - 1]);
      ApplyLevelSorted(s, ApplyLevels(s, ls, before), us[|us| - 1]);
    }
  }

  lemma {:induction false} SetLevelsAppend(m: map<int, int>, us: seq<Level>, vs: seq<Level>)
    ensures SetLevels(m, us + vs) == SetLevels(SetLevels(m, us), vs)
    decreases |vs|
  {
    if vs == [] {
      assert us + vs == us;
    } else {
      assert (us + vs)[..|us + vs| - 1] == us + vs[..|vs| - 1];
      SetLevelsAppend(m, us, vs[..|vs| - 1]);
    }
  }

  /** A price holds the last quantity written to it unless that is 0, and what it held before if none is. */
  lemma {:induction false} SetLevelsLookup(m: map<int, int>, us: seq<Level>, p: int)
    ensures p in SetLevels(m, us) <==> if p in LastWrites(us) then LastWrites(us)[p] != 0 else p in m
    ensures p in SetLevels(m, us) ==>
      SetLevels(m, us)[p] == if p in LastWrites(us) then LastWrites(us)[p] else m[p]
    decreases |us|
  {
    if us != [] {
      SetLevelsLookup(m, us[..|us| - 1], p);
    }
  }

  lemma {:induction false} LastWritesAppend(us: seq<Level>, vs: seq<Level>)
    ensures LastWrites(us + vs) == LastWrites(us) + LastWrites(vs)
    decreases |vs|
  {
    if vs == [] {
      assert us + vs == us;
    } else {
      assert (us + vs)[..|us + vs| - 1] == us + vs[..|vs| - 1];
      LastWritesAppend(us, vs[..|vs| - 1]);
    }
  }
}
