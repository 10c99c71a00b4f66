/**
  What single turns do in the states a run reaches, and in those it never does: when the loop ends,
  when a resync is entered and why, when a book is published, and what leaves everything alone.
  */
module BuilderTurns {
  import opened Levels
  import opened MarketTypes
  import opened MergedBook
  import opened BookBuilder
  import opened LiveMeansTrue
  import opened BuilderRuns

  // ---- reachable states --------------------------------------------------------------------

  /** The loop ends exactly when it finds the channel closed, live or buffering in time. */
  lemma LoopEndsIff(max: nat, acts: seq<Action>, input: Input)
    requires max >= DROPPED_WHEN_FULL && Possible(max, acts) && Run(max, acts).turn.running
    ensures var state := Run(max, acts).turn.builder.state;
      !AfterTick(max, Run(max, acts), input).turn.running <==>
        input.received.Closed? && (state.Live? || (state.Buffering? && !input.expired))
  {
    EveryReachableWorld(max, acts);
  }

  /** And nothing changes from then on. */
  lemma {:induction false} EndedStaysEnded(max: nat, t: Turn, inputs: seq<Input>)
    requires max >= DROPPED_WHEN_FULL && !t.running
    ensures Turns(max, t, inputs) == t
    decreases |inputs|
  {
    if inputs != [] {
      EndedStaysEnded(max, t, inputs[..|inputs| - 1]);
    }
  }

  /** Finding the channel closed or quiet changes nothing, unless a non-empty buffer has waited. */
  lemma NothingReceivedNothingDone(max: nat, acts: seq<Action>, input: Input)
    requires max >= DROPPED_WHEN_FULL && Possible(max, acts) && !input.received.Got?
    requires var state := Run(max, acts).turn.builder.state;
      state.Live? || (state.Buffering? && !input.expired && (state.buffer == [] || input.received.Closed?))
    ensures AfterTick(max, Run(max, acts), input).turn.builder == Run(max, acts).turn.builder
  {
  }

  /** Where a live builder goes on receiving u. */
  function GoesTo(lastSeq: nat, sinceSync: nat, u: OrderBookUpdate): State {
    if u.isSnapshot || u.updateId == lastSeq + 1 || First(u) == lastSeq + 1 then Live(u.updateId, sinceSync + 1)
    else Resyncing(SequenceGap(lastSeq + 1, u.updateId), 1)
  }

  lemma LiveTurnGoesTo(max: nat, w: World, input: Input)
    requires max >= DROPPED_WHEN_FULL && w.turn.running && w.turn.builder.state.Live?
    requires input.received.Got? && Honest(w.log, input.received.update)
    ensures AfterTick(max, w, input).turn.builder.state ==
      GoesTo(w.turn.builder.state.lastSeq, w.turn.builder.state.updatesSinceSync, input.received.update)
  {
    if !input.received.update.isSnapshot {
      GapTest(w.log, w.turn.builder.state.lastSeq, input.received.update);
    }
  }

  /**
    A live builder that receives an honest update goes on to its id exactly if it is a snapshot, ends
    at the next number or starts there; otherwise it resyncs, saying what it expected and got.
    */
  lemma LiveGoesOnIff(max: nat, acts: seq<Action>, input: Input)
    requires max >= DROPPED_WHEN_FULL && Possible(max, acts) && Enabled(Run(max, acts), Tick(input))
    requires Run(max, acts).turn.running && Run(max, acts).turn.builder.state.Live? && input.received.Got?
    ensures var state := Run(max, acts).turn.builder.state;
      AfterTick(max, Run(max, acts), input).turn.builder.state ==
        GoesTo(state.lastSeq, state.updatesSinceSync, input.received.update)
  {
    SentIsHonest(max, acts, input.received.update);
    LiveTurnGoesTo(max, Run(max, acts), input);
  }

  lemma SentIsHonest(max: nat, acts: seq<Action>, u: OrderBookUpdate)
    requires max >= DROPPED_WHEN_FULL && Possible(max, acts) && u in Run(max, acts).sent
    ensures Honest(Run(max, acts).log, u)
  {
    EveryReachableWorld(max, acts);
  }

  /** u was sent, and neither ends nor starts at the expected number. */
  ghost predicate Misses(w: World, u: OrderBookUpdate, expected: nat) {
    u in w.sent && !u.isSnapshot && u.updateId != expected && First(u) != expected
  }

  /** A resync is due to a timeout, or to an update that misses the number after the book's. */
  ghost predicate Explained(w: World) {
    var b := w.turn.builder;
    b.state.Resyncing? ==>
      || b.state.reason == Timeout
      || (b.state.reason.SequenceGap? && b.state.reason.expected == b.book.lastUpdateId + 1
          && exists u :: Misses(w, u, b.state.reason.expected) && u.updateId == b.state.reason.actual)
  }

  lemma ExplainedStep(max: nat, w: World, a: Action)
    requires max >= DROPPED_WHEN_FULL && Invariant(max, w) && Enabled(w, a) && Explained(w)
    ensures Explained(After(max, w, a))
  {
    match a
    case Emit(_) => StillExplained(w, After(max, w, a));
    case Send(_) => StillExplained(w, After(max, w, a));
    case Tick(input) => ExplainedTick(max, w, input);
  }

  lemma StillExplained(w: World, w': World)
    requires Explained(w) && w.turn == w'.turn && w.sent <= w'.sent
    ensures Explained(w')
  {
    var b := w.turn.builder;
    if b.state.Resyncing? && b.state.reason != Timeout {
      var u :| Misses(w, u, b.state.reason.expected) && u.updateId == b.state.reason.actual;
      assert Misses(w', u, b.state.reason.expected);
    }
  }

  lemma ExplainedTick(max: nat, w: World, input: Input)
    requires max >= DROPPED_WHEN_FULL && Invariant(max, w) && Enabled(w, Tick(input)) && Explained(w)
    ensures Explained(AfterTick(max, w, input))
  {
    var w' := AfterTick(max, w, input);
    var b := w.turn.builder;
    if !w.turn.running {
      StillExplained(w, w');
    } else if b.state.Live? && input.received.Got? && HasGap(b.state.lastSeq, input.received.update) {
      GapTest(w.log, b.state.lastSeq, input.received.update);
      assert Misses(w', input.received.update, b.state.lastSeq + 1);
    }
  }

  lemma {:induction false} EveryResyncIsExplained(max: nat, acts: seq<Action>)
    requires max >= DROPPED_WHEN_FULL && Possible(max, acts)
    ensures Explained(Run(max, acts))
    decreases |acts|
  {
    if acts != [] {
      var before := acts[..|acts| - 1];
      EveryResyncIsExplained(max, before);
      EveryReachableWorld(max, before);
      ExplainedStep(max, Run(max, before), acts[|acts| - 1]);
    }
  }

  /** The turn publishes the book as it then stands, at the live number. */
  ghost predicate Publishes(w: World, w': World) {
    && w'.turn.builder.published == w.turn.builder.published + [w'.turn.builder.book]
    && w'.turn.builder.state.Live? && w'.turn.builder.book.lastUpdateId == w'.turn.builder.state.lastSeq
  }

  ghost predicate LiveApplies(w: World, input: Input) {
    w.turn.running && w.turn.builder.state.Live? && input.received.Got?
    && !HasGap(w.turn.builder.state.lastSeq, input.received.update)
  }

  /** Published exactly with every hundredth update applied live since the last adopted snapshot. */
  ghost predicate PublishesWhenDue(w: World, w': World) {
    if w'.count.applied == w.count.applied + 1 && w'.count.session % 100 == 0 then Publishes(w, w')
    else w'.turn.builder.published == w.turn.builder.published
  }

  lemma LiveUpdatePublishes(max: nat, w: World, input: Input)
    requires max >= DROPPED_WHEN_FULL && Tallied(w) && LiveApplies(w, input)
    ensures PublishesWhenDue(w, AfterTick(max, w, input))
  {
    LiveTickApplies(max, w, input);
  }

  lemma OtherTurnsPublishNothing(max: nat, w: World, input: Input)
    requires max >= DROPPED_WHEN_FULL && !LiveApplies(w, input) && !w.turn.builder.state.Initializing?
    ensures PublishesWhenDue(w, AfterTick(max, w, input))
  {
  }

  lemma TalliesOf(max: nat, acts: seq<Action>)
    requires max >= DROPPED_WHEN_FULL && Possible(max, acts)
    ensures Tallied(Run(max, acts)) && !Run(max, acts).turn.builder.state.Initializing?
  {
    EveryReachableWorld(max, acts);
    NeverInitializing(max, Run(max, acts));
    CountersConserve(max, acts);
  }

  lemma NeverInitializing(max: nat, w: World)
    requires Invariant(max, w)
    ensures !w.turn.builder.state.Initializing?
  {
  }

  /** Whatever is published is the book as it stands then, at exactly the live number, and when due. */
  lemma PublishedIsCurrent(max: nat, acts: seq<Action>, input: Input)
    requires max >= DROPPED_WHEN_FULL && Possible(max, acts)
    ensures PublishesWhenDue(Run(max, acts), AfterTick(max, Run(max, acts), input))
  {
    TalliesOf(max, acts);
    PublishesInStep(max, Run(max, acts), input);
  }

  lemma PublishesInStep(max: nat, w: World, input: Input)
    requires max >= DROPPED_WHEN_FULL && Tallied(w) && !w.turn.builder.state.Initializing?
    ensures PublishesWhenDue(w, AfterTick(max, w, input))
  {
    if LiveApplies(w, input) {
      LiveUpdatePublishes(max, w, input);
    } else {
      OtherTurnsPublishNothing(max, w, input);
    }
  }

  /** With the builder's own limit, a buffer holds 10000 updates and loses its oldest 100 to the next one. */
  lemma FullBufferLosesAHundred(b: Builder, us: seq<OrderBookUpdate>)
    requires b.state == Buffering([]) && |us| == 10001 && !us[0].isSnapshot
    ensures Turns(MAX_BUFFER_SIZE, Turn(b, true), Received(us[..10000])).builder.state == Buffering(us[..10000])
    ensures Turns(MAX_BUFFER_SIZE, Turn(b, true), Received(us)).builder.state == Buffering(us[100..])
  {
    Buffers(MAX_BUFFER_SIZE, b, us[..10000]);
    assert us[..10000][0..] == us[..10000];
    Buffers(MAX_BUFFER_SIZE, b, us);
  }

  // ---- states no run reaches ---------------------------------------------------------------

  /** Past the fifth attempt a fetch or a resync fails, and the builder starts over from nothing buffered. */
  lemma StartsOver(max: nat, b: Builder, inputs: seq<Input>)
    requires max >= DROPPED_WHEN_FULL && |inputs| == 3
    requires (b.state.FetchingSnapshot? && b.state.attempt > 5) || (b.state.Resyncing? && b.state.resyncAttempt > 5)
    ensures Turns(max, Turn(b, true), inputs[..1]) == Turn(b.(state := Error(true)), true)
    ensures Turns(max, Turn(b, true), inputs[..2]) == Turn(b.(state := Uninitialized), true)
    ensures Turns(max, Turn(b, true), inputs) == Turn(b.(state := Buffering([])), true)
  {
    assert inputs[..1][..0] == [] && inputs[..2][..1] == inputs[..1] && inputs[..3] == inputs;
    assert inputs[..3][..2] == inputs[..2];
  }

  /** An error that allows no retry ends the loop. */
  lemma NoRetryEnds(max: nat, b: Builder, input: Input)
    requires max >= DROPPED_WHEN_FULL && b.state == Error(false)
    ensures Turns(max, Turn(b, true), [input]) == Turn(b, false)
  {
    assert [input][..0] == [];
  }

  /** Exactly the updates beyond the snapshot are kept. */
  lemma {:induction false} NewerIff(snapshotSeq: nat, us: seq<OrderBookUpdate>, u: OrderBookUpdate)
    ensures multiset(Newer(snapshotSeq, us))[u] == if u.updateId > snapshotSeq then multiset(us)[u] else 0
    decreases |us|
  {
    if us != [] {
      NewerIff(snapshotSeq, us[..|us| - 1], u);
      assert us == us[..|us| - 1] + [us[|us| - 1]];
    }
  }

  lemma ChainPrefix(base: nat, us: seq<OrderBookUpdate>)
    requires Chain(base, us) && us != []
    ensures Chain(base, us[..|us| - 1])
    ensures Joins(SeqAfter(base, us[..|us| - 1], |us| - 1), us[|us| - 1])
  {
    var before := us[..|us| - 1];
    forall i | 0 <= i < |before| ensures Link(base, before, i) {
      assert Link(base, us, i);
    }
    assert Link(base, us, |us| - 1);
  }

  ghost predicate AllHonest(log: seq<Event>, us: seq<OrderBookUpdate>) {
    forall i :: 0 <= i < |us| ==> Honest(log, us[i])
  }

  lemma HonestPrefix(log: seq<Event>, us: seq<OrderBookUpdate>)
    requires AllHonest(log, us) && us != []
    ensures AllHonest(log, us[..|us| - 1]) && Honest(log, us[|us| - 1])
  {
    var before := us[..|us| - 1];
    forall i | 0 <= i < |before| ensures Honest(log, before[i]) {
      assert before[i] == us[i];
    }
  }

  lemma JoinedKeepsTruth(log: seq<Event>, b: OrderBook, u: OrderBookUpdate)
    requires BookIsTrue(log, b) && Honest(log, u) && Joins(b.lastUpdateId, u)
    ensures BookIsTrue(log, ApplyToBook(b, u)) && ApplyToBook(b, u).lastUpdateId == u.updateId
  {
    IncrementKeepsTruth(log, b, u);
  }

  /** The updates take the book to a true one, at the last number. */
  ghost predicate LeadsToTruth(log: seq<Event>, b: OrderBook, us: seq<OrderBookUpdate>) {
    && BookIsTrue(log, ApplyAllToBook(b, us))
    && ApplyAllToBook(b, us).lastUpdateId == SeqAfter(b.lastUpdateId, us, |us|)
  }

  lemma TruthOneMore(log: seq<Event>, b: OrderBook, us: seq<OrderBookUpdate>, u: OrderBookUpdate)
    requires LeadsToTruth(log, b, us) && Honest(log, u) && Joins(SeqAfter(b.lastUpdateId, us, |us|), u)
    ensures LeadsToTruth(log, b, us + [u])
  {
    JoinedKeepsTruth(log, ApplyAllToBook(b, us), u);
    assert (us + [u])[..|us|] == us;
  }

  lemma {:induction false} ChainKeepsTruth(log: seq<Event>, b: OrderBook, us: seq<OrderBookUpdate>)
    requires BookIsTrue(log, b) && Chain(b.lastUpdateId, us) && AllHonest(log, us)
    ensures LeadsToTruth(log, b, us)
    decreases |us|
  {
    if us != [] {
      var before, u := us[..|us| - 1], us[|us| - 1];
      assert before + [u] == us;
      ChainPrefix(b.lastUpdateId, us);
      HonestPrefix(log, us);
      ChainKeepsTruth(log, b, before);
      TruthOneMore(log, b, before, u);
    }
  }

  /**
    Initializing on a true book with a chain of newer honest updates leads to a live builder with a
    true book, published once, having applied exactly the newer ones.
    */
  lemma InitializingKeepsTruth(max: nat, log: seq<Event>, b: Builder, input: Input)
    requires max >= DROPPED_WHEN_FULL && b.state.Initializing? && BookIsTrue(log, b.book)
    requires var newer := Newer(b.state.snapshotSeq, b.state.pendingUpdates);
      Chain(b.book.lastUpdateId, newer) && AllHonest(log, newer)
    ensures var newer := Newer(b.state.snapshotSeq, b.state.pendingUpdates);
      var t := Turns(max, Turn(b, true), [input]);
      && t.running && t.builder.state == Live(SeqAfter(b.book.lastUpdateId, newer, |newer|), |newer|)
      && t.builder.book.lastUpdateId == t.builder.state.lastSeq && BookIsTrue(log, t.builder.book)
      && t.builder.published == b.published + [t.builder.book] && t.builder.stats == b.stats
  {
    ChainKeepsTruth(log, b.book, Newer(b.state.snapshotSeq, b.state.pendingUpdates));
    assert [input][..0] == [];
  }
}
