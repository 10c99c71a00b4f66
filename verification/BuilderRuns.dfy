/**
  Runs of the builder that show what its safety leaves open: an overlapping range is accepted, and
  a fetch can be stuck for ever. With each comes the exact condition.
  */
module BuilderRuns {
  import opened Levels
  import opened MarketTypes
  import opened MergedBook
  import opened BookBuilder
  import opened LiveMeansTrue

  lemma OneMoreAction(max: nat, acts: seq<Action>, a: Action)
    requires max >= DROPPED_WHEN_FULL && Possible(max, acts) && Enabled(Run(max, acts), a)
    ensures Possible(max, acts + [a]) && Run(max, acts + [a]) == After(max, Run(max, acts), a)
  {
    assert (acts + [a])[..|acts|] == acts;
  }

  // ---- what the channel may do ------------------------------------------------------------

  lemma {:induction false} SentStaysSent(max: nat, acts: seq<Action>, i: nat)
    requires max >= DROPPED_WHEN_FULL && Possible(max, acts) && i < |acts| && acts[i].Send?
    ensures acts[i].message in Run(max, acts).sent
    decreases |acts|
  {
    if i < |acts| - 1 {
      SentStaysSent(max, acts[..|acts| - 1], i);
    }
  }

  /** Whatever was sent may arrive at any turn, late, again or never, and the channel may fall silent or close. */
  lemma AnythingSentMayArrive(max: nat, acts: seq<Action>, i: nat, input: Input)
    requires max >= DROPPED_WHEN_FULL && Possible(max, acts) && i < |acts| && acts[i].Send?
    requires input.received.Got? ==> input.received.update == acts[i].message
    ensures Possible(max, acts + [Tick(input)])
  {
    SentStaysSent(max, acts, i);
    OneMoreAction(max, acts, Tick(input));
  }

  /** The exchange may do anything, and may report honestly on it whenever it wants. */
  lemma ExchangeIsFree(max: nat, acts: seq<Action>, e: Event, u: OrderBookUpdate)
    requires max >= DROPPED_WHEN_FULL && Possible(max, acts)
    ensures Possible(max, acts + [Emit(e)])
    ensures Honest(Run(max, acts).log, u) ==> Possible(max, acts + [Send(u)])
  {
    OneMoreAction(max, acts, Emit(e));
    if Honest(Run(max, acts).log, u) {
      OneMoreAction(max, acts, Send(u));
    }
  }

  // ---- an exchange that repeats one level ------------------------------------------------

  const SALE := Event(Bid, 1, 1)

  function Sales(n: nat): seq<Event> {
    seq(n, _ => SALE)
  }

  const SALE_BOOK: seq<Level> := [Level(1, 1)]

  function Listing(id: nat): OrderBookUpdate {
    OrderBookUpdate(0, SALE_BOOK, [], true, id, 0)
  }

  function Range(first: nat, last: nat): OrderBookUpdate {
    OrderBookUpdate(0, SALE_BOOK, [], false, last, first)
  }

  function Copies(n: nat): seq<Level> {
    seq(n, _ => Level(1, 1))
  }

  lemma {:induction false} SalesOf(n: nat)
    ensures SideEvents(Bid, Sales(n)) == Copies(n) && SideEvents(Ask, Sales(n)) == []
  {
    if n > 0 {
      SalesOf(n - 1);
      assert Sales(n)[..n - 1] == Sales(n - 1);
      assert Sales(n)[n - 1] == SALE;
      assert Copies(n) == Copies(n - 1) + [Level(1, 1)];
    }
  }

  lemma {:induction false} CopiesMeaning(n: nat)
    requires n > 0
    ensures LastWrites(Copies(n)) == map[1 := 1] && SetLevels(map[], Copies(n)) == map[1 := 1]
  {
    assert Copies(n)[..n - 1] == Copies(n - 1);
    if n > 1 {
      CopiesMeaning(n - 1);
    } else {
      assert Copies(0) == [];
    }
  }

  lemma SaleBookMeaning()
    ensures Lists(Bid, SALE_BOOK, map[1 := 1]) && Lists(Ask, [], map[])
    ensures LastWrites(SALE_BOOK) == map[1 := 1] && LastWrites([]) == map[]
  {
    assert SALE_BOOK[1..] == [] && SALE_BOOK[..0] == [];
  }

  lemma SnapshotIsHonest(log: seq<Event>, u: OrderBookUpdate)
    requires u.isSnapshot && u.updateId <= |log| && NonNegative(u.bids) && NonNegative(u.asks)
    requires Lists(Bid, u.bids, StateAt(Bid, log, u.updateId)) && Lists(Ask, u.asks, StateAt(Ask, log, u.updateId))
    ensures Honest(log, u)
  {
    forall s ensures Lists(s, UpdateSide(s, u), StateAt(s, log, u.updateId)) {
      match s
      case Bid =>
      case Ask =>
    }
  }

  lemma StateOfSales(n: nat, id: nat)
    requires 1 <= id <= n
    ensures StateAt(Bid, Sales(n), id) == map[1 := 1] && StateAt(Ask, Sales(n), id) == map[]
  {
    SalesOf(id);
    CopiesMeaning(id);
    assert Sales(n)[..id] == Sales(id);
  }

  lemma ListingIsHonest(n: nat, id: nat)
    requires 1 <= id <= n
    ensures Honest(Sales(n), Listing(id))
  {
    SaleBookMeaning();
    StateOfSales(n, id);
    SnapshotIsHonest(Sales(n), Listing(id));
  }

  lemma RangeIsHonest(n: nat, first: nat, last: nat)
    requires 1 <= first <= last <= n
    ensures Honest(Sales(n), Range(first, last))
  {
    var covered := Sales(n)[first - 1..last];
    SaleBookMeaning();
    assert covered == Sales(last - first + 1);
    SalesOf(last - first + 1);
    CopiesMeaning(last - first + 1);
    assert LastWrites(SideEvents(Bid, covered)) == LastWrites(SALE_BOOK);
    assert LastWrites(SideEvents(Ask, covered)) == LastWrites([]);
    forall s ensures LastWrites(UpdateSide(s, Range(first, last))) == LastWrites(SideEvents(s, covered)) {
    }
  }

  lemma {:induction false} EmitSales(max: nat, n: nat) returns (acts: seq<Action>)
    requires max >= DROPPED_WHEN_FULL
    ensures Possible(max, acts) && Run(max, acts) == START.(log := Sales(n))
  {
    if n == 0 {
      acts := [];
      assert Sales(0) == [];
    } else {
      acts := EmitSales(max, n - 1);
      OneMoreAction(max, acts, Emit(SALE));
      acts := acts + [Emit(SALE)];
      assert Sales(n - 1) + [SALE] == Sales(n);
    }
  }

  /** n events, then one message. */
  lemma Announced(max: nat, n: nat, u: OrderBookUpdate) returns (acts: seq<Action>)
    requires max >= DROPPED_WHEN_FULL && Honest(Sales(n), u)
    ensures Possible(max, acts) && Run(max, acts) == START.(log := Sales(n), sent := {u})
  {
    var emitted := EmitSales(max, n);
    OneMoreAction(max, emitted, Send(u));
    acts := emitted + [Send(u)];
    assert {} + {u} == {u};
  }

  lemma SnapshotIsFetched(max: nat, w: World, u: OrderBookUpdate)
    requires max >= DROPPED_WHEN_FULL && u.isSnapshot
    requires w.turn.running && w.turn.builder.state == Buffering([])
    ensures var w' := After(max, w, Tick(Input(false, Got(u))));
      && w'.turn == Turn(Fetch(w.turn.builder, [u]), true) && w'.log == w.log && w'.sent == w.sent
  {
    assert Pushed(max, [], u) == [u];
  }

  lemma SnapshotGoesLive(max: nat, w: World, u: OrderBookUpdate, input: Input)
    requires max >= DROPPED_WHEN_FULL && u.isSnapshot
    requires w.turn.running && w.turn.builder.state == FetchingSnapshot([u], 1)
    ensures var w' := After(max, w, Tick(input));
      && w'.turn.running && w'.turn.builder.state == Live(u.updateId, 1)
      && w'.log == w.log && w'.sent == w.sent && w'.base == u.updateId && w'.accepted == []
  {
  }

  /** A buffering builder that receives a snapshot first is live two turns later. */
  lemma ThenLive(max: nat, before: seq<Action>, u: OrderBookUpdate) returns (acts: seq<Action>)
    requires max >= DROPPED_WHEN_FULL && Possible(max, before) && u.isSnapshot
    requires var w := Run(max, before); u in w.sent && w.turn.running && w.turn.builder.state == Buffering([])
    ensures Possible(max, acts)
    ensures var w, w' := Run(max, before), Run(max, acts);
      && w'.turn.running && w'.turn.builder.state == Live(u.updateId, 1)
      && w'.log == w.log && w'.sent == w.sent && w'.base == u.updateId && w'.accepted == []
  {
    var w := Run(max, before);
    var tick := Tick(Input(false, Got(u)));
    SnapshotIsFetched(max, w, u);
    OneMoreAction(max, before, tick);
    var fetched := After(max, w, tick);
    SnapshotGoesLive(max, fetched, u, Input(false, Quiet));
    OneMoreAction(max, before + [tick], Tick(Input(false, Quiet)));
    acts := before + [tick] + [Tick(Input(false, Quiet))];
  }

  /** A run that is live at lastSeq, on an exchange that has gone one event further. */
  lemma LiveAt(max: nat, lastSeq: nat) returns (acts: seq<Action>)
    requires max >= DROPPED_WHEN_FULL && lastSeq >= 1
    ensures Possible(max, acts) && IsLiveAt(Run(max, acts), lastSeq)
  {
    ListingIsHonest(lastSeq + 1, lastSeq);
    var announced := Announced(max, lastSeq + 1, Listing(lastSeq));
    acts := ThenLive(max, announced, Listing(lastSeq));
  }

  ghost predicate IsLiveAt(w: World, lastSeq: nat) {
    && w.log == Sales(lastSeq + 1) && w.turn.running && w.turn.builder.state == Live(lastSeq, 1)
    && w.base == lastSeq && w.accepted == []
  }

  // ---- overlapping ranges ----------------------------------------------------------------

  lemma RangeIsAccepted(max: nat, w: World, lastSeq: nat, first: nat)
    requires max >= DROPPED_WHEN_FULL && 1 <= first <= lastSeq && IsLiveAt(w, lastSeq)
    ensures var u := Range(first, lastSeq + 1);
      var w' := After(max, w, Tick(Input(false, Got(u))));
      && w'.turn.builder.state == Live(lastSeq + 1, 2) && w'.accepted == [u]
      && !RangesDisjoint(w'.base, w'.accepted)
  {
    assert Covers([Range(first, lastSeq + 1)][0], lastSeq);
  }

  lemma MaySendRange(w: World, lastSeq: nat, first: nat)
    requires 1 <= first <= lastSeq && IsLiveAt(w, lastSeq)
    ensures Enabled(w, Send(Range(first, lastSeq + 1)))
  {
    RangeIsHonest(lastSeq + 1, first, lastSeq + 1);
  }

  lemma SendingKeepsLive(max: nat, w: World, u: OrderBookUpdate, lastSeq: nat)
    requires max >= DROPPED_WHEN_FULL && IsLiveAt(w, lastSeq)
    ensures IsLiveAt(After(max, w, Send(u)), lastSeq) && u in After(max, w, Send(u)).sent
  {
  }

  lemma LiveWithRange(max: nat, lastSeq: nat, first: nat) returns (acts: seq<Action>)
    requires max >= DROPPED_WHEN_FULL && 1 <= first <= lastSeq
    ensures Possible(max, acts) && IsLiveAt(Run(max, acts), lastSeq)
    ensures Range(first, lastSeq + 1) in Run(max, acts).sent
  {
    var live := LiveAt(max, lastSeq);
    var u := Range(first, lastSeq + 1);
    MaySendRange(Run(max, live), lastSeq, first);
    SendingKeepsLive(max, Run(max, live), u, lastSeq);
    OneMoreAction(max, live, Send(u));
    acts := live + [Send(u)];
  }

  /**
    Every overlap the gap test lets through does happen: for any lastSeq and any first up to it,
    some run is live at lastSeq and accepts the range first .. lastSeq + 1.
    */
  lemma OverlapIsReached(max: nat, lastSeq: nat, first: nat) returns (acts: seq<Action>)
    requires max >= DROPPED_WHEN_FULL && 1 <= first <= lastSeq
    ensures acts != [] && Possible(max, acts)
    ensures Run(max, acts[..|acts| - 1]).turn.builder.state == Live(lastSeq, 1)
    ensures var w := Run(max, acts);
      && w.turn.builder.state == Live(lastSeq + 1, 2) && w.accepted == [Range(first, lastSeq + 1)]
      && !RangesDisjoint(w.base, w.accepted)
  {
    var before := LiveWithRange(max, lastSeq, first);
    var tick := Tick(Input(false, Got(Range(first, lastSeq + 1))));
    RangeIsAccepted(max, Run(max, before), lastSeq, first);
    OneMoreAction(max, before, tick);
    acts := before + [tick];
    assert acts[..|acts| - 1] == before;
  }

  /** In particular the range 3 .. 6 is accepted after 5. */
  lemma OverlapIsAccepted() returns (acts: seq<Action>)
    ensures acts != [] && Possible(MAX_BUFFER_SIZE, acts)
    ensures Run(MAX_BUFFER_SIZE, acts[..|acts| - 1]).turn.builder.state == Live(5, 1)
    ensures Run(MAX_BUFFER_SIZE, acts).turn.builder.state == Live(6, 2)
    ensures Run(MAX_BUFFER_SIZE, acts).accepted == [Range(3, 6)]
  {
    acts := OverlapIsReached(MAX_BUFFER_SIZE, 5, 3);
  }

  // ---- stuck fetches ---------------------------------------------------------------------

  /** A fetch whose first update is not a snapshot is never left, whatever arrives. */
  lemma {:induction false} FetchWithoutSnapshotIsFinal(max: nat, t: Turn, inputs: seq<Input>)
    requires max >= DROPPED_WHEN_FULL
    requires t.builder.state.FetchingSnapshot? && t.builder.state.attempt <= MAX_RESYNC_ATTEMPTS
    requires t.builder.state.bufferedUpdates != [] && !t.builder.state.bufferedUpdates[0].isSnapshot
    ensures Turns(max, t, inputs) == t
    decreases |inputs|
  {
    if inputs != [] {
      FetchWithoutSnapshotIsFinal(max, t, inputs[..|inputs| - 1]);
    }
  }

  lemma {:induction false} StuckStays(max: nat, acts: seq<Action>, more: seq<Action>)
    requires max >= DROPPED_WHEN_FULL && Possible(max, acts + more)
    requires var state := Run(max, acts).turn.builder.state;
      && state.FetchingSnapshot? && state.attempt <= MAX_RESYNC_ATTEMPTS
      && state.bufferedUpdates != [] && !state.bufferedUpdates[0].isSnapshot
    ensures Run(max, acts + more).turn == Run(max, acts).turn
    decreases |more|
  {
    if more == [] {
      assert acts + more == acts;
    } else {
      assert (acts + more)[..|acts + more| - 1] == acts + more[..|more| - 1];
      StuckStays(max, acts, more[..|more| - 1]);
    }
  }

  lemma {:induction false} PrefixIsPossible(max: nat, acts: seq<Action>, more: seq<Action>)
    requires max >= DROPPED_WHEN_FULL && Possible(max, acts + more)
    ensures Possible(max, acts)
    decreases |more|
  {
    if more == [] {
      assert acts + more == acts;
    } else {
      assert (acts + more)[..|acts + more| - 1] == acts + more[..|more| - 1];
      PrefixIsPossible(max, acts, more[..|more| - 1]);
    }
  }

  /** In every run, a fetch can be left exactly if the oldest buffered update is a snapshot. */
  lemma FetchIsLeftIff(max: nat, acts: seq<Action>)
    requires max >= DROPPED_WHEN_FULL && Possible(max, acts)
    requires Run(max, acts).turn.builder.state.FetchingSnapshot?
    ensures Run(max, acts).turn.builder.state.bufferedUpdates != []
    ensures (exists more :: Possible(max, acts + more) && !Run(max, acts + more).turn.builder.state.FetchingSnapshot?)
      <==> Run(max, acts).turn.builder.state.bufferedUpdates[0].isSnapshot
  {
    EveryReachableWorld(max, acts);
    if Run(max, acts).turn.builder.state.bufferedUpdates[0].isSnapshot {
      OneMoreAction(max, acts, Tick(Input(false, Quiet)));
    } else {
      forall more | Possible(max, acts + more)
        ensures Run(max, acts + more).turn.builder.state.FetchingSnapshot?
      {
        StuckStays(max, acts, more);
      }
    }
  }

  /** Some run does get stuck: an increment comes first, then nothing within the wait. */
  lemma SomeRunGetsStuck(max: nat) returns (acts: seq<Action>)
    requires max >= DROPPED_WHEN_FULL
    ensures Possible(max, acts) && Run(max, acts).turn.builder.state == FetchingSnapshot([Range(1, 1)], 1)
    ensures forall more :: Possible(max, acts + more) ==>
      Run(max, acts + more).turn.builder.state == FetchingSnapshot([Range(1, 1)], 1)
  {
    var u := Range(1, 1);
    RangeIsHonest(1, 1, 1);
    acts := Announced(max, 1, u);
    OneMoreAction(max, acts, Tick(Input(false, Got(u))));
    acts := acts + [Tick(Input(false, Got(u)))];
    assert Pushed(max, [], u) == [u];
    OneMoreAction(max, acts, Tick(Input(false, Quiet)));
    acts := acts + [Tick(Input(false, Quiet))];
    forall more | Possible(max, acts + more)
      ensures Run(max, acts + more).turn.builder.state == FetchingSnapshot([u], 1)
    {
      StuckStays(max, acts, more);
    }
  }

  // ---- when buffering leads to the live state ----------------------------------------------

  /** From any buffer, two turns lead to the live state exactly in these cases. */
  lemma LiveInTwoTurnsIff(max: nat, b: Builder, first: Input, second: Input)
    requires max >= DROPPED_WHEN_FULL && b.state.Buffering?
    ensures Next(max, Step(max, b, first), second).builder.state.Live? <==>
      !first.expired &&
      match first.received
      case Got(u) =>
        u.isSnapshot && (b.state.buffer == [] || max <= |b.state.buffer| == DROPPED_WHEN_FULL)
      case Quiet => b.state.buffer != [] && b.state.buffer[0].isSnapshot
      case Closed => false
  {
    if first.received.Got? {
      var u := first.received.update;
      assert |Pushed(max, b.state.buffer, u)| == 1 ==> Pushed(max, b.state.buffer, u) == [u];
    }
  }

  /** How many of n updates received in a row a buffer has dropped: 100 whenever it was full. */
  function Dropped(max: nat, n: nat): (d: nat)
    requires max >= DROPPED_WHEN_FULL
    ensures d <= n && (n > 0 ==> d < n)
  {
    if n <= max then 0 else DROPPED_WHEN_FULL * ((n - max - 1) / DROPPED_WHEN_FULL + 1)
  }

  lemma DroppedStep(max: nat, n: nat)
    requires max > DROPPED_WHEN_FULL
    ensures Dropped(max, n + 1) ==
      if n - Dropped(max, n) >= max then Dropped(max, n) + DROPPED_WHEN_FULL else Dropped(max, n)
    ensures n > 0 ==> n + 1 - Dropped(max, n + 1) >= 2
  {
  }

  function Received(us: seq<OrderBookUpdate>): seq<Input> {
    seq(|us|, i requires 0 <= i < |us| => Input(false, Got(us[i])))
  }

  lemma BuffersOne(max: nat, b: Builder, buffer: seq<OrderBookUpdate>, u: OrderBookUpdate)
    requires max > DROPPED_WHEN_FULL && (buffer == [] ==> !u.isSnapshot)
    ensures Next(max, Turn(b.(state := Buffering(buffer)), true), Input(false, Got(u)))
      == Turn(b.(state := Buffering(Pushed(max, buffer, u))), true)
  {
  }

  lemma SliceAndPush<T>(us: seq<T>, n: nat, d: nat, k: nat)
    requires n < |us| && d + k <= n
    ensures us[..n][d..][k..] + [us[n]] == us[..n + 1][d + k..]
  {
  }

  lemma PushedSlice(max: nat, us: seq<OrderBookUpdate>, n: nat)
    requires max > DROPPED_WHEN_FULL && n < |us|
    ensures Pushed(max, us[..n][Dropped(max, n)..], us[n]) == us[..n + 1][Dropped(max, n + 1)..]
  {
    DroppedStep(max, n);
    SliceAndPush(us, n, Dropped(max, n), if n - Dropped(max, n) >= max then DROPPED_WHEN_FULL else 0);
  }

  /** Starting with no snapshot, what is received piles up, the oldest going first. */
  lemma {:induction false} Buffers(max: nat, b: Builder, us: seq<OrderBookUpdate>)
    requires max > DROPPED_WHEN_FULL && b.state == Buffering([])
    requires us != [] ==> !us[0].isSnapshot
    ensures Turns(max, Turn(b, true), Received(us)) ==
      Turn(b.(state := Buffering(us[Dropped(max, |us|)..])), true)
    decreases |us|
  {
    if us != [] {
      var n := |us| - 1;
      Buffers(max, b, us[..n]);
      assert Received(us)[..n] == Received(us[..n]);
      var buffer := us[..n][Dropped(max, n)..];
      BuffersOne(max, b, buffer, us[n]);
      PushedSlice(max, us, n);
      assert us[..n + 1] == us;
    }
  }

  lemma ReceivedPrefix(us: seq<OrderBookUpdate>, more: seq<Input>, k: nat)
    requires k <= |us|
    ensures (Received(us) + more)[..k] == Received(us[..k])
  {
    var inputs, own := (Received(us) + more)[..k], Received(us[..k]);
    forall i | 0 <= i < k ensures inputs[i] == own[i] {
    }
  }

  /**
    Updates arrive in a row, then nothing within the wait, then anything: the builder gets live
    exactly if the first update was a snapshot, or the oldest one left in the buffer is. Otherwise
    it never does.
    */
  lemma FirstUpdateDecides(max: nat, b: Builder, us: seq<OrderBookUpdate>, rest: seq<Input>)
    requires max > DROPPED_WHEN_FULL && b.state == Buffering([]) && us != [] && rest != []
    ensures GetsLive(max, Turn(b, true), Received(us) + [Input(false, Quiet)] + rest) <==>
      us[0].isSnapshot || us[Dropped(max, |us|)].isSnapshot
  {
    var t, inputs := Turn(b, true), Received(us) + [Input(false, Quiet)] + rest;
    if us[0].isSnapshot {
      assert inputs[..2][..1] == inputs[..1] && inputs[..1][..0] == [];
      assert Pushed(max, [], us[0]) == [us[0]];
      assert inputs[0] == Input(false, Got(us[0]));
      assert Turns(max, t, inputs[..1]) == Turn(Fetch(b, [us[0]]), true);
      assert LiveAfter(max, t, inputs, 2);
    } else {
      FetchFollows(max, b, us, rest);
      var n := |us|;
      var fetching := Turns(max, t, inputs[..n + 1]);
      if us[Dropped(max, n)].isSnapshot {
        assert inputs[..n + 2][..n + 1] == inputs[..n + 1];
        assert LiveAfter(max, t, inputs, n + 2);
      } else {
        forall k | 0 <= k <= |inputs| ensures !LiveAfter(max, t, inputs, k) {
          if k <= n {
            ReceivedPrefix(us, [Input(false, Quiet)] + rest, k);
            assert inputs == Received(us) + ([Input(false, Quiet)] + rest);
            Buffers(max, b, us[..k]);
          } else {
            assert inputs[..k] == inputs[..n + 1] + inputs[n + 1..k];
            TurnsAppend(max, t, inputs[..n + 1], inputs[n + 1..k]);
            FetchWithoutSnapshotIsFinal(max, fetching, inputs[n + 1..k]);
          }
        }
      }
    }
  }

  predicate LiveAfter(max: nat, t: Turn, inputs: seq<Input>, k: nat)
    requires max >= DROPPED_WHEN_FULL && k <= |inputs|
  {
    Turns(max, t, inputs[..k]).builder.state.Live?
  }

  predicate GetsLive(max: nat, t: Turn, inputs: seq<Input>)
    requires max >= DROPPED_WHEN_FULL
  {
    exists k :: 0 <= k <= |inputs| && LiveAfter(max, t, inputs, k)
  }

  lemma FetchFollows(max: nat, b: Builder, us: seq<OrderBookUpdate>, rest: seq<Input>)
    requires max > DROPPED_WHEN_FULL && b.state == Buffering([]) && us != [] && !us[0].isSnapshot
    ensures var inputs := Received(us) + [Input(false, Quiet)] + rest;
      Turns(max, Turn(b, true), inputs[..|us| + 1]) == Turn(Fetch(b, us[Dropped(max, |us|)..]), true)
  {
    var inputs := Received(us) + [Input(false, Quiet)] + rest;
    Buffers(max, b, us);
    assert inputs[..|us| + 1][..|us|] == Received(us);
    assert inputs[|us|] == Input(false, Quiet);
  }

  lemma {:induction false} TurnsAppend(max: nat, t: Turn, a: seq<Input>, c: seq<Input>)
    requires max >= DROPPED_WHEN_FULL
    ensures Turns(max, t, a + c) == Turns(max, Turns(max, t, a), c)
    decreases |c|
  {
    if c == [] {
      assert a + c == a;
    } else {
      assert (a + c)[..|a + c| - 1] == a + c[..|c| - 1];
      TurnsAppend(max, t, a, c[..|c| - 1]);
    }
  }

  // ---- the way back ------------------------------------------------------------------------

  /** Lists nothing: the exchange's book before its first event. */
  const NOTHING_YET := OrderBookUpdate(0, [], [], true, 0, 0)

  lemma NothingYetIsHonest(log: seq<Event>)
    ensures Honest(log, NOTHING_YET)
  {
    forall s ensures Lists(s, UpdateSide(s, NOTHING_YET), StateAt(s, log, 0)) {
      assert log[..0] == [] && SideEvents(s, []) == [];
    }
  }

  ghost predicate BuffersNothing(w: World) {
    w.turn.running && w.turn.builder.state == Buffering([])
  }

  /** From an empty buffer a snapshot can always be sent and adopted. */
  lemma LiveFromEmptyBuffer(max: nat, acts: seq<Action>) returns (all: seq<Action>)
    requires max >= DROPPED_WHEN_FULL && Possible(max, acts) && BuffersNothing(Run(max, acts))
    ensures Possible(max, all) && Run(max, all).turn.builder.state.Live? && acts <= all
  {
    NothingYetIsHonest(Run(max, acts).log);
    OneMoreAction(max, acts, Send(NOTHING_YET));
    var sent := acts + [Send(NOTHING_YET)];
    var tick := Tick(Input(false, Got(NOTHING_YET)));
    SnapshotIsFetched(max, Run(max, sent), NOTHING_YET);
    OneMoreAction(max, sent, tick);
    var fetched := sent + [tick];
    SnapshotGoesLive(max, Run(max, fetched), NOTHING_YET, Input(false, Quiet));
    OneMoreAction(max, fetched, Tick(Input(false, Quiet)));
    all := fetched + [Tick(Input(false, Quiet))];
  }

  /** A resync ends with an empty buffer after one turn, whatever that turn brings. */
  lemma ResyncLeadsBack(max: nat, acts: seq<Action>, input: Input)
    requires max >= DROPPED_WHEN_FULL && Possible(max, acts) && Enabled(Run(max, acts), Tick(input))
    requires Run(max, acts).turn.running && Run(max, acts).turn.builder.state.Resyncing?
    ensures Possible(max, acts + [Tick(input)]) && BuffersNothing(Run(max, acts + [Tick(input)]))
  {
    EveryReachableWorld(max, acts);
    OneMoreAction(max, acts, Tick(input));
  }

  /** A buffer that has waited too long is given up, whatever is in it. */
  lemma TimeoutLeadsBack(max: nat, acts: seq<Action>) returns (all: seq<Action>)
    requires max >= DROPPED_WHEN_FULL && Possible(max, acts)
    requires Run(max, acts).turn.running && Run(max, acts).turn.builder.state.Buffering?
    ensures all == acts + [Tick(Input(true, Quiet))] + [Tick(Input(false, Quiet))]
    ensures Possible(max, all) && BuffersNothing(Run(max, all))
  {
    OneMoreAction(max, acts, Tick(Input(true, Quiet)));
    var expired := acts + [Tick(Input(true, Quiet))];
    ResyncLeadsBack(max, expired, Input(false, Quiet));
    all := expired + [Tick(Input(false, Quiet))];
  }

  /** A fetch with a snapshot at the front gets live with the next turn. */
  lemma LiveFromFetch(max: nat, acts: seq<Action>) returns (all: seq<Action>)
    requires max >= DROPPED_WHEN_FULL && Possible(max, acts)
    requires var state := Run(max, acts).turn.builder.state;
      state.FetchingSnapshot? && state.bufferedUpdates != [] && state.bufferedUpdates[0].isSnapshot
    ensures Possible(max, all) && Run(max, all).turn.builder.state.Live? && acts <= all
  {
    EveryReachableWorld(max, acts);
    OneMoreAction(max, acts, Tick(Input(false, Quiet)));
    all := acts + [Tick(Input(false, Quiet))];
  }

  ghost predicate IsStuck(state: State) {
    state.FetchingSnapshot? && (state.bufferedUpdates == [] || !state.bufferedUpdates[0].isSnapshot)
  }

  lemma SomeWayLive(max: nat, acts: seq<Action>) returns (all: seq<Action>)
    requires max >= DROPPED_WHEN_FULL && Possible(max, acts)
    requires Run(max, acts).turn.running && !IsStuck(Run(max, acts).turn.builder.state)
    ensures Possible(max, all) && Run(max, all).turn.builder.state.Live? && acts <= all
  {
    EveryReachableWorld(max, acts);
    match Run(max, acts).turn.builder.state
    case Live(_, _) => all := acts;
    case FetchingSnapshot(_, _) => all := LiveFromFetch(max, acts);
    case Resyncing(_, _) =>
      ResyncLeadsBack(max, acts, Input(false, Quiet));
      all := LiveFromEmptyBuffer(max, acts + [Tick(Input(false, Quiet))]);
    case Buffering(_) =>
      var emptied := TimeoutLeadsBack(max, acts);
      all := LiveFromEmptyBuffer(max, emptied);
  }

  /** Some continuation of the run is live. */
  ghost predicate CanGetLive(max: nat, acts: seq<Action>)
    requires max >= DROPPED_WHEN_FULL
  {
    exists more :: Possible(max, acts + more) && Run(max, acts + more).turn.builder.state.Live?
  }

  /**
    From every state of every run whose loop still runs, gaps and timeouts included, some
    continuation is live: exactly unless the builder fetches with no snapshot at the front.
    */
  lemma CanGetLiveIff(max: nat, acts: seq<Action>)
    requires max >= DROPPED_WHEN_FULL && Possible(max, acts) && Run(max, acts).turn.running
    ensures CanGetLive(max, acts) <==> !IsStuck(Run(max, acts).turn.builder.state)
  {
    EveryReachableWorld(max, acts);
    if IsStuck(Run(max, acts).turn.builder.state) {
      forall more | Possible(max, acts + more) ensures !Run(max, acts + more).turn.builder.state.Live? {
        StuckStays(max, acts, more);
      }
    } else {
      var all := SomeWayLive(max, acts);
      assert acts + all[|acts|..] == all;
    }
  }
}
