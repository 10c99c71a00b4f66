/**
  How far a side that keeps only MAX_DEPTH levels can drift from the unbounded book.

  Evicting a level is harmless until levels ahead of it are deleted: a bounded side cannot
  bring back what it evicted. Each delete that finds its price costs at most one level of
  exactness, and that bound is attained.
  */
module DepthExactness {
  import opened Levels
  import opened FastOrderBooks

  function Deletes(us: seq<Level>): nat
    decreases |us|
  {
    if us == [] then 0 else Deletes(us[..|us| - 1]) + if us[|us| - 1].qty == 0 then 1 else 0
  }

  /** The deletes that found their price on the bounded side. */
  function Hits(s: Side, us: seq<Level>): nat
    decreases |us|
  {
    if us == [] then 0
    else
      var before := us[..|us| - 1];
      var u := us[|us| - 1];
      Hits(s, before) + if u.qty == 0 && u.price in AsMap(KeepBestAll(s, [], before)) then 1 else 0
  }

  /** How many levels, counted from the best, are still known to be exact. */
  function ExactDepth(hits: nat): nat {
    if hits <= 20 then 20 - hits else 0
  }

  lemma {:induction false} HitsAtMostDeletes(s: Side, us: seq<Level>)
    ensures Hits(s, us) <= Deletes(us)
    decreases |us|
  {
    if us != [] {
      HitsAtMostDeletes(s, us[..|us| - 1]);
    }
  }

  // ---- one level ------------------------------------------------------------------------

  /** The first n levels after an upsert depend only on the first n before it. */
  lemma {:induction false} UpsertLocal(s: Side, ls: seq<Level>, p: int, q: int, n: nat)
    ensures Take(Upsert(s, ls, p, q), n) == Take(Upsert(s, Take(ls, n), p, q), n)
  {
    if |ls| > n > 0 && ls[0].price != p && !Better(s, p, ls[0].price) {
      UpsertLocal(s, ls[1..], p, q, n - 1);
      assert Take(ls, n)[1..] == Take(ls[1..], n - 1);
      var rest := Upsert(s, ls[1..], p, q);
      var cut := Upsert(s, Take(ls[1..], n - 1), p, q);
      assert Take([ls[0]] + rest, n) == [ls[0]] + Take(rest, n - 1);
      assert Take([ls[0]] + cut, n) == [ls[0]] + Take(cut, n - 1);
    }
  }

  /** The first n - 1 levels after a delete depend only on the first n before it. */
  lemma {:induction false} DeleteLocal(ls: seq<Level>, p: int, n: nat)
    requires n > 0
    ensures Take(Delete(ls, p), n - 1) == Take(Delete(Take(ls, n), p), n - 1)
  {
    if |ls| > n && ls[0].price != p && n > 1 {
      DeleteLocal(ls[1..], p, n - 1);
      assert Take(ls, n)[1..] == Take(ls[1..], n - 1);
      var rest := Delete(ls[1..], p);
      var cut := Delete(Take(ls[1..], n - 1), p);
      assert Take([ls[0]] + rest, n - 1) == [ls[0]] + Take(rest, n - 2);
      assert Take([ls[0]] + cut, n - 1) == [ls[0]] + Take(cut, n - 2);
    }
  }

  /** Deleting a price that is not among the first n levels leaves those n alone. */
  lemma {:induction false} DeleteBeyond(ls: seq<Level>, p: int, n: nat)
    requires forall i :: 0 <= i < n && i < |ls| ==> ls[i].price != p
    ensures Take(Delete(ls, p), n) == Take(ls, n)
  {
    if ls != [] && n > 0 {
      DeleteBeyond(ls[1..], p, n - 1);
      assert Take(ls, n) == [ls[0]] + Take(ls[1..], n - 1);
      assert Take([ls[0]] + Delete(ls[1..], p), n) == [ls[0]] + Take(Delete(ls[1..], p), n - 1);
    }
  }

  lemma TakeTake(ls: seq<Level>, n: nat, m: nat)
    requires n <= m
    ensures Take(Take(ls, m), n) == Take(ls, n)
  {
  }

  lemma DepthStep(s: Side, f: seq<Level>, u: seq<Level>, x: Level, n: nat, n': nat)
    requires Sorted(s, f) && n <= MAX_DEPTH && Take(f, n) == Take(u, n)
    requires n' == if x.qty == 0 && x.price in AsMap(f) then (if n > 0 then n - 1 else 0) else n
    ensures Take(KeepBest(s, f, x), n') == Take(ApplyLevel(s, u, x), n')
  {
    if x.qty != 0 {
      UpsertLocal(s, f, x.price, x.qty, n);
      UpsertLocal(s, u, x.price, x.qty, n);
      TakeTake(Upsert(s, f, x.price, x.qty), n, MAX_DEPTH);
    } else if x.price in AsMap(f) {
      if n > 0 {
        DeleteLocal(f, x.price, n);
        DeleteLocal(u, x.price, n);
      }
    } else {
      forall i | 0 <= i < |f| ensures f[i].price != x.price {
        PresentAt(s, f, i);
      }
      forall i | 0 <= i < n && i < |u| ensures u[i].price != x.price {
        assert u[i] == Take(u, n)[i] == f[i];
      }
      DeleteBeyond(f, x.price, n);
      DeleteBeyond(u, x.price, n);
    }
  }

  /** Every level of the smaller map is in the larger one with the same quantity. */
  ghost predicate Within(a: map<int, int>, b: map<int, int>) {
    forall p :: p in a ==> p in b && a[p] == b[p]
  }

  lemma {:induction false} TakeWithin(ls: seq<Level>, n: nat)
    ensures Within(AsMap(Take(ls, n)), AsMap(ls))
  {
    if |ls| > n > 0 {
      TakeWithin(ls[1..], n - 1);
      assert Take(ls, n)[1..] == Take(ls[1..], n - 1);
    }
  }

  lemma HeldStep(s: Side, f: seq<Level>, u: seq<Level>, x: Level)
    requires Sorted(s, f) && Sorted(s, u) && Within(AsMap(f), AsMap(u))
    ensures Within(AsMap(KeepBest(s, f, x)), AsMap(ApplyLevel(s, u, x)))
  {
    ApplyLevelMeaning(s, f, x);
    ApplyLevelMeaning(s, u, x);
    TakeWithin(Upsert(s, f, x.price, x.qty), MAX_DEPTH);
  }

  // ---- every run of levels ---------------------------------------------------------------

  /**
    After any run, the bounded side agrees with the unbounded book on its first
    20 - hits levels, and each level it holds carries the unbounded book's quantity.
    */
  lemma {:induction false} SideDepthExact(s: Side, us: seq<Level>)
    ensures var f, u, n := KeepBestAll(s, [], us), ApplyLevels(s, [], us), ExactDepth(Hits(s, us));
      Take(f, n) == Take(u, n) && Within(AsMap(f), AsMap(u))
    decreases |us|
  {
    if us != [] {
      var before, x := us[..|us| - 1], us[|us| - 1];
      var f, u := KeepBestAll(s, [], before), ApplyLevels(s, [], before);
      SideDepthExact(s, before);
      KeepBestAllGood(s, [], before);
      ApplyLevelsMeaning(s, [], before);
      DepthStep(s, f, u, x, ExactDepth(Hits(s, before)), ExactDepth(Hits(s, us)));
      HeldStep(s, f, u, x);
    }
  }

  /** With no deletes at all the bounded side is exactly the unbounded top MAX_DEPTH. */
  lemma NoDeletesMeansTopLevels(s: Side, us: seq<Level>)
    requires Deletes(us) == 0
    ensures KeepBestAll(s, [], us) == Take(ApplyLevels(s, [], us), MAX_DEPTH)
  {
    HitsAtMostDeletes(s, us);
    SideDepthExact(s, us);
    KeepBestAllGood(s, [], us);
  }

  /** If the unbounded side never outgrows the arrays, nothing is ever lost. */
  lemma {:induction false} NeverFullMeansExact(s: Side, us: seq<Level>)
    requires forall n :: 0 <= n <= |us| ==> |ApplyLevels(s, [], us[..n])| <= MAX_DEPTH
    ensures KeepBestAll(s, [], us) == ApplyLevels(s, [], us)
    decreases |us|
  {
    if us != [] {
      var before := us[..|us| - 1];
      forall n | 0 <= n <= |before| ensures |ApplyLevels(s, [], before[..n])| <= MAX_DEPTH {
        assert before[..n] == us[..n];
      }
      NeverFullMeansExact(s, before);
      assert us[..|us|] == us;
    }
  }

  // ---- the bound is attained -------------------------------------------------------------

  /** The r-th best price of a ladder. */
  function Rung(s: Side, r: int): int {
    if s.Bid? then -r else r
  }

  function Ladder(s: Side, a: nat, b: nat): seq<Level> {
    seq(if a <= b then b - a else 0, i => Level(Rung(s, a + i), 1))
  }

  /** Deletes of the best k rungs, best first. */
  function Peel(s: Side, k: nat): seq<Level> {
    seq(k, i => Level(Rung(s, i), 0))
  }

  /** A worse rung goes to the end of a ladder. */
  lemma RungAppends(s: Side, n: nat, r: nat)
    requires n <= r
    ensures Upsert(s, Ladder(s, 0, n), Rung(s, r), 1) == Ladder(s, 0, n) + [Level(Rung(s, r), 1)]
  {
    var ls := Ladder(s, 0, n);
    forall j | 0 <= j < n ensures ls[j].price != Rung(s, r) && !Better(s, Rung(s, r), ls[j].price) {
      assert ls[j] == Level(Rung(s, j), 1);
    }
    UpsertInsertsAt(s, ls, Rung(s, r), 1, n);
    assert ls[..n] == ls && ls[n..] == [];
  }

  lemma LadderExtends(s: Side, n: nat)
    ensures Ladder(s, 0, n + 1) == Ladder(s, 0, n) + [Level(Rung(s, n), 1)]
  {
  }

  lemma {:induction false} LadderBuildsUnbounded(s: Side, n: nat)
    ensures ApplyLevels(s, [], Ladder(s, 0, n)) == Ladder(s, 0, n)
  {
    if n > 0 {
      LadderExtends(s, n - 1);
      assert Ladder(s, 0, n)[..n - 1] == Ladder(s, 0, n - 1);
      LadderBuildsUnbounded(s, n - 1);
      RungAppends(s, n - 1, n - 1);
    }
  }

  lemma {:induction false} LadderBuildsBounded(s: Side, n: nat)
    ensures KeepBestAll(s, [], Ladder(s, 0, n)) == Ladder(s, 0, if n <= MAX_DEPTH then n else MAX_DEPTH)
  {
    if n > 0 {
      var m := if n <= MAX_DEPTH then n - 1 else MAX_DEPTH;
      LadderExtends(s, n - 1);
      assert Ladder(s, 0, n)[..n - 1] == Ladder(s, 0, n - 1);
      LadderBuildsBounded(s, n - 1);
      RungAppends(s, m, n - 1);
      if n > MAX_DEPTH {
        assert (Ladder(s, 0, m) + [Level(Rung(s, n - 1), 1)])[..m] == Ladder(s, 0, m);
      }
    }
  }

  lemma {:induction false} PeelRemoves(s: Side, n: nat, k: nat)
    requires k <= MAX_DEPTH < n
    ensures KeepBestAll(s, [], Ladder(s, 0, n) + Peel(s, k)) == Ladder(s, k, MAX_DEPTH)
    ensures ApplyLevels(s, [], Ladder(s, 0, n) + Peel(s, k)) == Ladder(s, k, n)
    ensures Deletes(Ladder(s, 0, n) + Peel(s, k)) == k
  {
    var us := Ladder(s, 0, n) + Peel(s, k);
    if k == 0 {
      assert us == Ladder(s, 0, n);
      LadderBuildsUnbounded(s, n);
      LadderBuildsBounded(s, n);
      NoZeroNoDeletes(Ladder(s, 0, n));
    } else {
      PeelRemoves(s, n, k - 1);
      assert us[..|us| - 1] == Ladder(s, 0, n) + Peel(s, k - 1);
      assert us[|us| - 1] == Level(Rung(s, k - 1), 0);
      assert Ladder(s, k - 1, MAX_DEPTH)[1..] == Ladder(s, k, MAX_DEPTH);
      assert Ladder(s, k - 1, n)[1..] == Ladder(s, k, n);
    }
  }

  lemma {:induction false} NoZeroNoDeletes(us: seq<Level>)
    requires NonZero(us)
    ensures Deletes(us) == 0
    decreases |us|
  {
    if us != [] {
      NoZeroNoDeletes(us[..|us| - 1]);
    }
  }

  /** For every k up to MAX_DEPTH some run with k deletes is wrong at level 21 - k. */
  lemma DepthBoundIsTight(s: Side, k: nat) returns (us: seq<Level>)
    requires k <= MAX_DEPTH
    ensures Deletes(us) == k
    ensures var n := ExactDepth(k) + 1;
      Take(KeepBestAll(s, [], us), n) != Take(ApplyLevels(s, [], us), n)
  {
    us := Ladder(s, 0, MAX_DEPTH + 1) + Peel(s, k);
    PeelRemoves(s, MAX_DEPTH + 1, k);
    assert |Ladder(s, k, MAX_DEPTH)| < |Ladder(s, k, MAX_DEPTH + 1)|;
  }

  // ---- every run of updates --------------------------------------------------------------

  function SideOf(s: Side, u: FastUpdate): seq<Level> {
    if s.Bid? then u.bids else u.asks
  }

  function BookSide(s: Side, b: Book): seq<Level> {
    if s.Bid? then b.bids else b.asks
  }

  /** All levels of one side of a run of updates, in application order. */
  function AllLevels(s: Side, us: seq<FastUpdate>): seq<Level>
    decreases |us|
  {
    if us == [] then [] else AllLevels(s, us[..|us| - 1]) + SideOf(s, us[|us| - 1])
  }

  lemma {:induction false} KeepBestAllAppend(s: Side, ls: seq<Level>, us: seq<Level>, vs: seq<Level>)
    ensures KeepBestAll(s, ls, us + vs) == KeepBestAll(s, KeepBestAll(s, ls, us), vs)
    decreases |vs|
  {
    if vs == [] {
      assert us + vs == us;
    } else {
      assert (us + vs)[..|us + vs| - 1] == us + vs[..|vs| - 1];
      KeepBestAllAppend(s, ls, us, vs[..|vs| - 1]);
    }
  }

  /** A book is its accepted updates, laid end to end. */
  lemma {:induction false} BookFromAccepted(s: Side, us: seq<FastUpdate>)
    ensures BookSide(s, ApplyUpdates(EMPTY_BOOK, us)) == KeepBestAll(s, [], AllLevels(s, Advancing(us)))
    decreases |us|
  {
    if us != [] {
      var n := |us| - 1;
      BookFromAccepted(s, us[..n]);
      AdvancesIffNewer(us);
      if Advances(us, n) {
        assert Advancing(us)[..|Advancing(us)| - 1] == Advancing(us[..n]);
        KeepBestAllAppend(s, [], AllLevels(s, Advancing(us[..n])), SideOf(s, us[n]));
      } else {
        assert Advancing(us) == Advancing(us[..n]);
      }
    }
  }

  /**
    The depth guarantee for whole runs of delivered updates: with k deletes on a side among the
    accepted updates, the first max(0, 20 - k) levels are those of the unbounded book.
    */
  lemma BookDepthExact(s: Side, us: seq<FastUpdate>)
    ensures var f := BookSide(s, ApplyUpdates(EMPTY_BOOK, us));
      var levels := AllLevels(s, Advancing(us));
      var n := ExactDepth(Deletes(levels));
      && Take(f, n) == Take(ApplyLevels(s, [], levels), n)
      && Within(AsMap(f), AsMap(ApplyLevels(s, [], levels)))
  {
    var levels := AllLevels(s, Advancing(us));
    BookFromAccepted(s, us);
    SideDepthExact(s, levels);
    HitsAtMostDeletes(s, levels);
    var f, u := KeepBestAll(s, [], levels), ApplyLevels(s, [], levels);
    var n, m := ExactDepth(Deletes(levels)), ExactDepth(Hits(s, levels));
    TakeTake(f, n, m);
    TakeTake(u, n, m);
  }
}
