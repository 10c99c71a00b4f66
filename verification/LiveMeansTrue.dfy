/**
  The builder against the exchange. The exchange is a growing log of absolute level-set events;
  messages summarise ranges of it, snapshots list a prefix of it; the channel may deliver
  anything ever sent, any number of times, in any order, or never.
  */
module LiveMeansTrue {
  import opened Levels
  import opened MarketTypes
  import opened MergedBook
  import opened BookBuilder

  /** Event number n of the log (counting from 1) sets one price to an absolute quantity. */
  datatype Event = Event(side: Side, price: int, qty: nat)

  /** The level sets of one side, in log order. */
  function SideEvents(s: Side, log: seq<Event>): seq<Level>
    decreases |log|
  {
    if log == [] then []
    else
      var e := log[|log| - 1];
      SideEvents(s, log[..|log| - 1]) + if e.side == s then [Level(e.price, e.qty)] else []
  }

  /** The exchange's book after event n. */
  ghost function StateAt(s: Side, log: seq<Event>, n: nat): map<int, int>
    requires n <= |log|
  {
    SetLevels(map[], SideEvents(s, log[..n]))
  }

  /** The first event an increment claims to cover. */
  function First(u: OrderBookUpdate): nat {
    if u.firstUpdateId > 0 then u.firstUpdateId else u.updateId
  }

  /** The levels list the price map best first. */
  ghost predicate Lists(s: Side, ls: seq<Level>, m: map<int, int>) {
    Sorted(s, ls) && AsMap(ls) == m
  }

  /** A message the exchange may send: a listing of a prefix, or the last writes of a range. */
  ghost predicate Honest(log: seq<Event>, u: OrderBookUpdate) {
    && u.updateId <= |log|
    && NonNegative(u.bids) && NonNegative(u.asks)
    && if u.isSnapshot then
         forall s :: Lists(s, UpdateSide(s, u), StateAt(s, log, u.updateId))
       else
         && 1 <= First(u) <= u.updateId
         && forall s :: LastWrites(UpdateSide(s, u)) == LastWrites(SideEvents(s, log[First(u) - 1..u.updateId]))
  }

  /** The book is the exchange's book at its own last_update_id. */
  ghost predicate BookIsTrue(log: seq<Event>, b: OrderBook) {
    b.lastUpdateId <= |log| && forall s :: Lists(s, SideLevels(s, b), StateAt(s, log, b.lastUpdateId))
  }

  // ---- what a range of writes does to a book -------------------------------------------

  /** The quantity at a price, 0 if there is none. */
  ghost function At(m: map<int, int>, p: int): int {
    if p in m then m[p] else 0
  }

  lemma SetLevelsAt(m: map<int, int>, us: seq<Level>, p: int)
    ensures At(SetLevels(m, us), p) == if p in LastWrites(us) then LastWrites(us)[p] else At(m, p)
  {
    SetLevelsLookup(m, us, p);
  }

  lemma {:induction false} SetLevelsNonZero(m: map<int, int>, us: seq<Level>)
    requires forall p :: p in m ==> m[p] != 0
    ensures forall p :: p in SetLevels(m, us) ==> SetLevels(m, us)[p] != 0
    decreases |us|
  {
    if us != [] {
      SetLevelsNonZero(m, us[..|us| - 1]);
    }
  }

  lemma SameIfSameQuantities(a: map<int, int>, b: map<int, int>)
    requires forall p :: p in a ==> a[p] != 0
    requires forall p :: p in b ==> b[p] != 0
    requires forall p :: At(a, p) == At(b, p)
    ensures a == b
  {
    forall p ensures p in a <==> p in b {
      assert At(a, p) == At(b, p);
    }
    forall p | p in a ensures a[p] == b[p] {
      assert At(a, p) == At(b, p);
    }
  }

  lemma {:induction false} SideEventsAppend(s: Side, a: seq<Event>, b: seq<Event>)
    ensures SideEvents(s, a + b) == SideEvents(s, a) + SideEvents(s, b)
    decreases |b|
  {
    if b == [] {
      assert a + b == a;
    } else {
      assert (a + b)[..|a + b| - 1] == a + b[..|b| - 1];
      SideEventsAppend(s, a, b[..|b| - 1]);
    }
  }

  lemma StateSplits(s: Side, log: seq<Event>, k: nat, n: nat)
    requires k <= n <= |log|
    ensures StateAt(s, log, n) == SetLevels(StateAt(s, log, k), SideEvents(s, log[k..n]))
  {
    assert log[..n] == log[..k] + log[k..n];
    SideEventsAppend(s, log[..k], log[k..n]);
    SetLevelsAppend(map[], SideEvents(s, log[..k]), SideEvents(s, log[k..n]));
  }

  /**
    Applying the last writes of events k + 1 .. m to the book after event n gives the book
    after event m, for every n inside the range: writes already applied are absolute.
    */
  lemma CatchUp(s: Side, log: seq<Event>, k: nat, n: nat, m: nat, us: seq<Level>)
    requires k <= n <= m <= |log|
    requires LastWrites(us) == LastWrites(SideEvents(s, log[k..m]))
    ensures SetLevels(StateAt(s, log, n), us) == StateAt(s, log, m)
  {
    var early, late := SideEvents(s, log[k..n]), SideEvents(s, log[n..m]);
    assert log[k..m] == log[k..n] + log[n..m];
    SideEventsAppend(s, log[k..n], log[n..m]);
    LastWritesAppend(early, late);
    StateSplits(s, log, k, m);
    StateSplits(s, log, n, m);
    SetLevelsNonZero(map[], SideEvents(s, log[..n]));
    SetLevelsNonZero(StateAt(s, log, n), us);
    SetLevelsNonZero(StateAt(s, log, n), late);
    forall p ensures At(SetLevels(StateAt(s, log, n), us), p) == At(StateAt(s, log, m), p) {
      SetLevelsAt(StateAt(s, log, n), us, p);
      SetLevelsAt(StateAt(s, log, n), late, p);
      SetLevelsAt(StateAt(s, log, k), early + late, p);
    }
    SameIfSameQuantities(SetLevels(StateAt(s, log, n), us), StateAt(s, log, m));
  }

  /** An honest increment takes a true book at n to a true book, if its range reaches back to n. */
  lemma IncrementKeepsTruth(log: seq<Event>, b: OrderBook, u: OrderBookUpdate)
    requires BookIsTrue(log, b) && Honest(log, u)
    requires !u.isSnapshot ==> First(u) <= b.lastUpdateId + 1 && b.lastUpdateId <= u.updateId
    ensures BookIsTrue(log, ApplyToBook(b, u))
  {
    forall s ensures Lists(s, SideLevels(s, ApplyToBook(b, u)), StateAt(s, log, u.updateId)) {
      if !u.isSnapshot {
        CatchUp(s, log, First(u) - 1, b.lastUpdateId, u.updateId, UpdateSide(s, u));
        IncrementMeaning(s, SideLevels(s, b), UpdateSide(s, u));
      }
      assert Lists(s, UpdateSide(s, u), StateAt(s, log, u.updateId)) || !u.isSnapshot;
    }
  }

  // ---- the gap test ----------------------------------------------------------------------

  /** On honest increments the gap test passes exactly on the next id or the next range. */
  lemma GapTest(log: seq<Event>, lastSeq: nat, u: OrderBookUpdate)
    requires Honest(log, u) && !u.isSnapshot
    ensures !HasGap(lastSeq, u) <==> u.updateId == lastSeq + 1 || First(u) == lastSeq + 1
    ensures !HasGap(lastSeq, u) ==> First(u) <= lastSeq + 1 <= u.updateId
  {
  }

  /** The update ends at the next number but its declared range starts at one already covered. */
  predicate EndsOnOverlap(lastSeq: nat, u: OrderBookUpdate) {
    u.updateId == lastSeq + 1 && 0 < u.firstUpdateId <= lastSeq
  }

  /**
    The range an accepted increment declares starts right after lastSeq, except when it ends
    there: then it may overlap what was already applied.
    */
  lemma AcceptedRangeOverlapsOnlyAtItsEnd(log: seq<Event>, lastSeq: nat, u: OrderBookUpdate)
    requires Honest(log, u) && !u.isSnapshot && !HasGap(lastSeq, u)
    ensures First(u) != lastSeq + 1 <==> EndsOnOverlap(lastSeq, u)
  {
  }

  // ---- the world -------------------------------------------------------------------------

  /**
    received: updates received since the current buffering began; fetches: snapshot fetches so
    far; base and accepted: the snapshot last adopted and the increments accepted since.
    */
  datatype World = World(
    log: seq<Event>, sent: set<OrderBookUpdate>, turn: Turn,
    received: seq<OrderBookUpdate>, fetches: nat, base: nat, accepted: seq<OrderBookUpdate>, count: Count)

  /**
    Snapshots adopted by a fetch and updates applied live so far; updates applied live since the
    last adoption, and books published before it; resyncs entered; and everything adopted or
    applied, in order.
    */
  datatype Count = Count(
    adopted: nat, applied: nat, session: nat, publishedBefore: nat, resyncs: nat, history: seq<OrderBookUpdate>)

  datatype Action = Emit(event: Event) | Send(message: OrderBookUpdate) | Tick(input: Input)

  const START := World([], {}, STARTED, [], 0, 0, [], Count(0, 0, 0, 0, 0, []))

  ghost predicate Enabled(w: World, a: Action) {
    match a
    case Emit(_) => true
    case Send(u) => Honest(w.log, u)
    case Tick(input) => input.received.Got? ==> input.received.update in w.sent
  }

  function AfterTick(max: nat, w: World, input: Input): World
    requires max >= DROPPED_WHEN_FULL
  {
    var turn := Next(max, w.turn, input);
    var before, after := w.turn.builder.state, turn.builder.state;
    var received :=
      if !w.turn.running then w.received
      else if before.Buffering? && !input.expired && input.received.Got? then w.received + [input.received.update]
      else if !before.Buffering? && after.Buffering? then []
      else w.received;
    var fetches := if before.Buffering? && after.FetchingSnapshot? then w.fetches + 1 else w.fetches;
    var base, accepted :=
      if before.FetchingSnapshot? && after.Live? then after.lastSeq else
      if w.turn.running && before.Live? && after.Live? && input.received.Got? && input.received.update.isSnapshot
      then after.lastSeq else w.base,
      if before.FetchingSnapshot? && after.Live? then [] else
      if w.turn.running && before.Live? && after.Live? && input.received.Got? then
        if input.received.update.isSnapshot then [] else w.accepted + [input.received.update]
      else w.accepted;
    var count :=
      if before.FetchingSnapshot? && after.Live? && before.bufferedUpdates != [] then
        w.count.(adopted := w.count.adopted + 1, session := 0, publishedBefore := |turn.builder.published|,
                 history := w.count.history + [before.bufferedUpdates[0]])
      else if w.turn.running && before.Live? && after.Live? && input.received.Got? then
        w.count.(applied := w.count.applied + 1, session := w.count.session + 1,
                 history := w.count.history + [input.received.update])
      else if !before.Resyncing? && after.Resyncing? then w.count.(resyncs := w.count.resyncs + 1)
      else w.count;
    World(w.log, w.sent, turn, received, fetches, base, accepted, count)
  }

  function After(max: nat, w: World, a: Action): World
    requires max >= DROPPED_WHEN_FULL
  {
    match a
    case Emit(e) => w.(log := w.log + [e])
    case Send(u) => w.(sent := w.sent + {u})
    case Tick(input) => AfterTick(max, w, input)
  }

  function Run(max: nat, acts: seq<Action>): World
    requires max >= DROPPED_WHEN_FULL
    decreases |acts|
  {
    if acts == [] then START else After(max, Run(max, acts[..|acts| - 1]), acts[|acts| - 1])
  }

  /** Every action is enabled where it is taken. */
  ghost predicate Possible(max: nat, acts: seq<Action>)
    requires max >= DROPPED_WHEN_FULL
    decreases |acts|
  {
    acts != [] ==>
      && Possible(max, acts[..|acts| - 1])
      && Enabled(Run(max, acts[..|acts| - 1]), acts[|acts| - 1])
  }

  /** The sequence number after the first n accepted increments. */
  function SeqAfter(base: nat, accepted: seq<OrderBookUpdate>, n: nat): nat
    requires n <= |accepted|
  {
    if n == 0 then base else accepted[n - 1].updateId
  }

  /** Accepted increment i reaches back to the next number, and starts or ends there. */
  ghost predicate Link(base: nat, accepted: seq<OrderBookUpdate>, i: nat)
    requires i < |accepted|
  {
    Joins(SeqAfter(base, accepted, i), accepted[i])
  }

  ghost predicate Joins(lastSeq: nat, u: OrderBookUpdate) {
    First(u) <= lastSeq + 1 <= u.updateId && (First(u) == lastSeq + 1 || u.updateId == lastSeq + 1)
  }

  ghost predicate Chain(base: nat, accepted: seq<OrderBookUpdate>) {
    forall i :: 0 <= i < |accepted| ==> Link(base, accepted, i)
  }

  lemma ChainExtends(base: nat, accepted: seq<OrderBookUpdate>, u: OrderBookUpdate)
    requires Chain(base, accepted)
    requires Joins(SeqAfter(base, accepted, |accepted|), u)
    ensures Chain(base, accepted + [u])
  {
    forall i | 0 <= i < |accepted| + 1 ensures Link(base, accepted + [u], i) {
      if i < |accepted| {
        assert Link(base, accepted, i);
      }
    }
  }

  ghost predicate IsSuffix<T>(a: seq<T>, b: seq<T>) {
    |a| <= |b| && a == b[|b| - |a|..]
  }

  /** What holds of the state alone. */
  ghost predicate StateInvariant(max: nat, w: World) {
    match w.turn.builder.state
    case Buffering(buffer) =>
      && |buffer| <= max && IsSuffix(buffer, w.received)
      && forall i :: 0 <= i < |buffer| ==> buffer[i] in w.sent
    case FetchingSnapshot(buffered, attempt) =>
      && w.turn.running && attempt == 1 && buffered != [] && IsSuffix(buffered, w.received)
      && forall i :: 0 <= i < |buffered| ==> buffered[i] in w.sent
    case Live(lastSeq, _) =>
      && lastSeq == w.turn.builder.book.lastUpdateId
      && lastSeq == SeqAfter(w.base, w.accepted, |w.accepted|) && Chain(w.base, w.accepted)
    case Resyncing(_, attempt) => attempt == 1
    case Uninitialized => false
    case Initializing(_, _) => false
    case Error(_) => false
  }

  ghost predicate Invariant(max: nat, w: World) {
    var b := w.turn.builder;
    && (forall u :: u in w.sent ==> Honest(w.log, u))
    && BookIsTrue(w.log, b.book)
    && (forall i :: 0 <= i < |b.published| ==> BookIsTrue(w.log, b.published[i]))
    && b.stats.resyncsTriggered == b.stats.gapsDetected + w.fetches
    && StateInvariant(max, w)
  }

  lemma StateAtGrows(s: Side, log: seq<Event>, e: Event, n: nat)
    requires n <= |log|
    ensures StateAt(s, log + [e], n) == StateAt(s, log, n)
  {
    assert (log + [e])[..n] == log[..n];
  }

  lemma BookStaysTrue(log: seq<Event>, e: Event, b: OrderBook)
    requires BookIsTrue(log, b)
    ensures BookIsTrue(log + [e], b)
  {
    forall s ensures Lists(s, SideLevels(s, b), StateAt(s, log + [e], b.lastUpdateId)) {
      StateAtGrows(s, log, e, b.lastUpdateId);
    }
  }

  lemma MessageStaysHonest(log: seq<Event>, e: Event, u: OrderBookUpdate)
    requires Honest(log, u)
    ensures Honest(log + [e], u)
  {
    forall s ensures u.isSnapshot ==> Lists(s, UpdateSide(s, u), StateAt(s, log + [e], u.updateId)) {
      StateAtGrows(s, log, e, u.updateId);
    }
    if !u.isSnapshot {
      assert (log + [e])[First(u) - 1..u.updateId] == log[First(u) - 1..u.updateId];
    }
  }

  lemma EmitKeepsInvariant(max: nat, w: World, e: Event)
    requires max >= DROPPED_WHEN_FULL && Invariant(max, w)
    ensures Invariant(max, After(max, w, Emit(e)))
  {
    var b := w.turn.builder;
    forall u | u in w.sent ensures Honest(w.log + [e], u) {
      MessageStaysHonest(w.log, e, u);
    }
    BookStaysTrue(w.log, e, b.book);
    forall i | 0 <= i < |b.published| ensures BookIsTrue(w.log + [e], b.published[i]) {
      BookStaysTrue(w.log, e, b.published[i]);
    }
  }

  lemma BufferingTickKeepsInvariant(max: nat, w: World, input: Input)
    requires max >= DROPPED_WHEN_FULL && Invariant(max, w) && Enabled(w, Tick(input))
    requires w.turn.running && w.turn.builder.state.Buffering?
    ensures Invariant(max, After(max, w, Tick(input)))
  {
    if !input.expired && input.received.Got? {
      var buffer, u := w.turn.builder.state.buffer, input.received.update;
      var pushed := Pushed(max, buffer, u);
      assert pushed == (w.received + [u])[|w.received| + 1 - |pushed|..];
      forall i | 0 <= i < |pushed| ensures pushed[i] in w.sent {
        if i < |pushed| - 1 {
          assert pushed[i] in buffer;
        }
      }
    }
  }

  lemma FetchingTickKeepsInvariant(max: nat, w: World, input: Input)
    requires max >= DROPPED_WHEN_FULL && Invariant(max, w)
    requires w.turn.running && w.turn.builder.state.FetchingSnapshot?
    ensures Invariant(max, After(max, w, Tick(input)))
  {
    var first := w.turn.builder.state.bufferedUpdates[0];
    if first.isSnapshot {
      IncrementKeepsTruth(w.log, w.turn.builder.book, first);
    }
  }

  lemma LiveTickKeepsInvariant(max: nat, w: World, input: Input)
    requires max >= DROPPED_WHEN_FULL && Invariant(max, w) && Enabled(w, Tick(input))
    requires w.turn.running && w.turn.builder.state.Live?
    ensures Invariant(max, After(max, w, Tick(input)))
  {
    var b := w.turn.builder;
    if input.received.Got? && !HasGap(b.state.lastSeq, input.received.update) {
      var u := input.received.update;
      if !u.isSnapshot {
        GapTest(w.log, b.state.lastSeq, u);
      }
      IncrementKeepsTruth(w.log, b.book, u);
      if !u.isSnapshot {
        ChainExtends(w.base, w.accepted, u);
      }
    }
  }

  lemma StepKeepsInvariant(max: nat, w: World, a: Action)
    requires max >= DROPPED_WHEN_FULL && Invariant(max, w) && Enabled(w, a)
    ensures Invariant(max, After(max, w, a))
  {
    match a
    case Emit(e) => EmitKeepsInvariant(max, w, e);
    case Send(u) =>
    case Tick(input) =>
      if w.turn.running {
        match w.turn.builder.state
        case Buffering(_) => BufferingTickKeepsInvariant(max, w, input);
        case FetchingSnapshot(_, _) => FetchingTickKeepsInvariant(max, w, input);
        case Live(_, _) => LiveTickKeepsInvariant(max, w, input);
        case Resyncing(_, _) =>
      }
  }

  lemma StartInvariant(max: nat)
    requires max >= DROPPED_WHEN_FULL
    ensures Invariant(max, START)
  {
    forall s ensures Lists(s, SideLevels(s, NEW_BOOK), StateAt(s, [], 0)) {
      assert SideEvents(s, []) == [];
    }
  }

  lemma {:induction false} EveryReachableWorld(max: nat, acts: seq<Action>)
    requires max >= DROPPED_WHEN_FULL && Possible(max, acts)
    ensures Invariant(max, Run(max, acts))
    decreases |acts|
  {
    if acts == [] {
      StartInvariant(max);
    } else {
      EveryReachableWorld(max, acts[..|acts| - 1]);
      StepKeepsInvariant(max, Run(max, acts[..|acts| - 1]), acts[|acts| - 1]);
    }
  }

  // ---- the promises ----------------------------------------------------------------------

  /** Live means true: the book lists the exchange's book at exactly the live sequence number. */
  lemma LiveBookIsTheExchangeBook(max: nat, acts: seq<Action>)
    requires max >= DROPPED_WHEN_FULL && Possible(max, acts)
    ensures var w := Run(max, acts); var b := w.turn.builder;
      b.state.Live? ==>
        && b.state.lastSeq <= |w.log|
        && Lists(Bid, b.book.bids, StateAt(Bid, w.log, b.state.lastSeq))
        && Lists(Ask, b.book.asks, StateAt(Ask, w.log, b.state.lastSeq))
  {
    EveryReachableWorld(max, acts);
    var w := Run(max, acts);
    var b := w.turn.builder;
    if b.state.Live? {
      assert SideLevels(Bid, b.book) == b.book.bids && SideLevels(Ask, b.book) == b.book.asks;
    }
  }

  /** Every book ever published, and the current one in any state, is true at its own number. */
  lemma PublishedBooksAreTrue(max: nat, acts: seq<Action>)
    requires max >= DROPPED_WHEN_FULL && Possible(max, acts)
    ensures var w := Run(max, acts);
      && BookIsTrue(w.log, w.turn.builder.book)
      && forall i :: 0 <= i < |w.turn.builder.published| ==> BookIsTrue(w.log, w.turn.builder.published[i])
  {
    EveryReachableWorld(max, acts);
  }

  lemma {:induction false} ChainIncreases(base: nat, accepted: seq<OrderBookUpdate>, i: nat, j: nat)
    requires Chain(base, accepted) && i <= j <= |accepted|
    ensures SeqAfter(base, accepted, i) + (j - i) <= SeqAfter(base, accepted, j)
    decreases j
  {
    if i < j {
      ChainIncreases(base, accepted, i, j - 1);
      assert Link(base, accepted, j - 1);
    }
  }

  lemma {:induction false} SomeIntervalHolds(base: nat, accepted: seq<OrderBookUpdate>, k: nat, n: nat) returns (i: nat)
    requires Chain(base, accepted) && k <= |accepted|
    requires base < n <= SeqAfter(base, accepted, k)
    ensures i < k && SeqAfter(base, accepted, i) < n <= accepted[i].updateId
    decreases k
  {
    if SeqAfter(base, accepted, k - 1) < n {
      i := k - 1;
    } else {
      i := SomeIntervalHolds(base, accepted, k - 1, n);
    }
  }

  lemma {:induction false} IntervalIsUnique(base: nat, accepted: seq<OrderBookUpdate>, i: nat, j: nat, n: nat)
    requires Chain(base, accepted) && i < |accepted| && j < |accepted|
    requires SeqAfter(base, accepted, i) < n <= accepted[i].updateId
    requires SeqAfter(base, accepted, j) < n <= accepted[j].updateId
    ensures i == j
  {
    if i < j {
      ChainIncreases(base, accepted, i + 1, j);
    } else if j < i {
      ChainIncreases(base, accepted, j + 1, i);
    }
  }

  /**
    No hole and no double step: each event number after the adopted snapshot is advanced over by
    exactly one accepted increment, whose declared range covers it.
    */
  lemma AcceptedIntervalsPartition(max: nat, acts: seq<Action>, n: nat) returns (i: nat)
    requires max >= DROPPED_WHEN_FULL && Possible(max, acts)
    requires Run(max, acts).turn.builder.state.Live?
    requires Run(max, acts).base < n <= Run(max, acts).turn.builder.state.lastSeq
    ensures var w := Run(max, acts);
      && i < |w.accepted|
      && SeqAfter(w.base, w.accepted, i) < n <= w.accepted[i].updateId
      && First(w.accepted[i]) <= n
      && forall j :: 0 <= j < |w.accepted| && SeqAfter(w.base, w.accepted, j) < n <= w.accepted[j].updateId ==> j == i
  {
    EveryReachableWorld(max, acts);
    var w := Run(max, acts);
    i := SomeIntervalHolds(w.base, w.accepted, |w.accepted|, n);
    assert Link(w.base, w.accepted, i);
    forall j | 0 <= j < |w.accepted| && SeqAfter(w.base, w.accepted, j) < n <= w.accepted[j].updateId
      ensures j == i
    {
      IntervalIsUnique(w.base, w.accepted, i, j, n);
    }
  }

  /** The declared range of an increment holds event n. */
  ghost predicate Covers(u: OrderBookUpdate, n: nat) {
    First(u) <= n <= u.updateId
  }

  /** No event is in two declared ranges, and none in both a range and the snapshot. */
  ghost predicate RangesDisjoint(base: nat, accepted: seq<OrderBookUpdate>) {
    && (forall i, n: nat :: 0 <= i < |accepted| && Covers(accepted[i], n) ==> n > base)
    && (forall i, j, n: nat :: 0 <= i < j < |accepted| && Covers(accepted[i], n) ==> !Covers(accepted[j], n))
  }

  ghost predicate OverlapsAt(base: nat, accepted: seq<OrderBookUpdate>, i: nat)
    requires i < |accepted|
  {
    EndsOnOverlap(SeqAfter(base, accepted, i), accepted[i])
  }

  lemma RangesDisjointIff(base: nat, accepted: seq<OrderBookUpdate>)
    requires Chain(base, accepted)
    ensures RangesDisjoint(base, accepted) <==> forall i :: 0 <= i < |accepted| ==> !OverlapsAt(base, accepted, i)
  {
    forall i | 0 <= i < |accepted|
      ensures OverlapsAt(base, accepted, i) ==> !RangesDisjoint(base, accepted)
      ensures !OverlapsAt(base, accepted, i) ==> First(accepted[i]) == SeqAfter(base, accepted, i) + 1
      ensures SeqAfter(base, accepted, i) >= base
    {
      assert Link(base, accepted, i);
      ChainIncreases(base, accepted, 0, i);
      if OverlapsAt(base, accepted, i) {
        assert Covers(accepted[i], SeqAfter(base, accepted, i));
        if i > 0 {
          assert Link(base, accepted, i - 1);
          assert Covers(accepted[i - 1], SeqAfter(base, accepted, i));
        }
      }
    }
    forall i, j | 0 <= i < j < |accepted| ensures accepted[i].updateId <= SeqAfter(base, accepted, j) {
      ChainIncreases(base, accepted, i + 1, j);
    }
  }

  /**
    The declared ranges partition what was advanced over, instead of only covering it, exactly
    when no increment was accepted on its last number alone.
    */
  lemma DeclaredRangesPartitionIff(max: nat, acts: seq<Action>)
    requires max >= DROPPED_WHEN_FULL && Possible(max, acts)
    requires Run(max, acts).turn.builder.state.Live?
    ensures var w := Run(max, acts);
      RangesDisjoint(w.base, w.accepted) <==>
        forall i :: 0 <= i < |w.accepted| ==> !OverlapsAt(w.base, w.accepted, i)
  {
    EveryReachableWorld(max, acts);
    RangesDisjointIff(Run(max, acts).base, Run(max, acts).accepted);
  }

  /** The buffer is bounded and contiguous, and every resync is a gap or a snapshot fetch. */
  lemma BufferingConserves(max: nat, acts: seq<Action>)
    requires max >= DROPPED_WHEN_FULL && Possible(max, acts)
    ensures var w := Run(max, acts); var b := w.turn.builder;
      && (b.state.Buffering? ==> |b.state.buffer| <= max && IsSuffix(b.state.buffer, w.received))
      && b.stats.resyncsTriggered == b.stats.gapsDetected + w.fetches
      && !b.state.Uninitialized? && !b.state.Initializing? && !b.state.Error?
  {
    EveryReachableWorld(max, acts);
  }

  ghost predicate Tallied(w: World) {
    var b := w.turn.builder;
    && b.stats.totalUpdates == w.count.applied
    && b.book.updateCount == w.count.applied + w.count.adopted
    && b.stats.gapsDetected == w.count.resyncs
    && |b.published| == w.count.publishedBefore + w.count.session / 100
    && (b.state.Live? ==> b.state.updatesSinceSync == w.count.session + 1)
  }

  /** The book is everything adopted and applied, laid end to end. */
  ghost predicate Folded(w: World) {
    w.turn.builder.book == ApplyAllToBook(NEW_BOOK, w.count.history)
  }

  lemma ApplyOneMore(us: seq<OrderBookUpdate>, u: OrderBookUpdate)
    ensures ApplyAllToBook(NEW_BOOK, us + [u]) == ApplyToBook(ApplyAllToBook(NEW_BOOK, us), u)
  {
    assert (us + [u])[..|us|] == us;
  }

  lemma StepKeepsTallies(max: nat, w: World, a: Action)
    requires max >= DROPPED_WHEN_FULL && Tallied(w) && Folded(w)
    requires !w.turn.builder.state.Initializing?
    ensures Tallied(After(max, w, a)) && Folded(After(max, w, a))
  {
    if a.Tick? && w.turn.running {
      if w.turn.builder.state.Live? {
        LiveTickKeepsTallies(max, w, a.input);
      } else if w.turn.builder.state.FetchingSnapshot? {
        FetchTickKeepsTallies(max, w, a.input);
      } else {
        assert Tallied(AfterTick(max, w, a.input)) && Folded(AfterTick(max, w, a.input));
      }
    }
  }

  lemma HundredStep(n: nat)
    ensures (n + 1) / 100 == n / 100 + if (n + 1) % 100 == 0 then 1 else 0
  {
  }

  lemma LiveTickApplies(max: nat, w: World, input: Input)
    requires max >= DROPPED_WHEN_FULL && w.turn.running && w.turn.builder.state.Live? && input.received.Got?
    requires !HasGap(w.turn.builder.state.lastSeq, input.received.update)
    ensures var u, b, w' := input.received.update, w.turn.builder, AfterTick(max, w, input);
      && w'.turn == Turn(Applied(b, b.state.lastSeq, b.state.updatesSinceSync, u), true)
      && w'.count == w.count.(applied := w.count.applied + 1, session := w.count.session + 1,
                              history := w.count.history + [u])
  {
  }

  lemma LiveTickKeepsTallies(max: nat, w: World, input: Input)
    requires max >= DROPPED_WHEN_FULL && Tallied(w) && Folded(w)
    requires w.turn.running && w.turn.builder.state.Live?
    ensures Tallied(AfterTick(max, w, input)) && Folded(AfterTick(max, w, input))
  {
    if input.received.Got? && !HasGap(w.turn.builder.state.lastSeq, input.received.update) {
      LiveTickApplies(max, w, input);
      ApplyOneMore(w.count.history, input.received.update);
      AppliedTally(w, AfterTick(max, w, input), input.received.update);
    }
  }

  lemma AppliedTally(w: World, w': World, u: OrderBookUpdate)
    requires Tallied(w) && w.turn.builder.state.Live?
    requires var b := w.turn.builder; w'.turn.builder == Applied(b, b.state.lastSeq, b.state.updatesSinceSync, u)
    requires w'.count.adopted == w.count.adopted && w'.count.applied == w.count.applied + 1
    requires w'.count.session == w.count.session + 1 && w'.count.resyncs == w.count.resyncs
    requires w'.count.publishedBefore == w.count.publishedBefore
    ensures Tallied(w')
  {
    HundredStep(w.count.session);
  }

  lemma FetchTickKeepsTallies(max: nat, w: World, input: Input)
    requires max >= DROPPED_WHEN_FULL && Tallied(w) && Folded(w)
    requires w.turn.running && w.turn.builder.state.FetchingSnapshot?
    ensures Tallied(AfterTick(max, w, input)) && Folded(AfterTick(max, w, input))
  {
    if w.turn.builder.state.bufferedUpdates != [] {
      ApplyOneMore(w.count.history, w.turn.builder.state.bufferedUpdates[0]);
    }
  }

  /**
    The book is the fold of everything adopted and applied, and of nothing else. Every live update
    is counted once in the statistics and once in the book, which also counts the adopted
    snapshots; a gap is counted for every resync entered; one book is published for every 100
    updates of a live session.
    */
  lemma {:induction false} CountersConserve(max: nat, acts: seq<Action>)
    requires max >= DROPPED_WHEN_FULL && Possible(max, acts)
    ensures Tallied(Run(max, acts)) && Folded(Run(max, acts))
    decreases |acts|
  {
    if acts != [] {
      CountersConserve(max, acts[..|acts| - 1]);
      EveryReachableWorld(max, acts[..|acts| - 1]);
      StepKeepsTallies(max, Run(max, acts[..|acts| - 1]), acts[|acts| - 1]);
    }
  }
}
