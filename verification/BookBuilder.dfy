/**
  The order book builder: a state machine that buffers updates until a snapshot arrives, then
  follows the sequence numbers and starts over on a gap. One turn of its loop is a function of
  the builder and of what the update channel and the clock offered; the class runs the turns.
  */
module BookBuilder {
  import opened Levels
  import opened MarketTypes
  import opened MergedBook

  const MAX_BUFFER_SIZE: nat := 10000
  const DROPPED_WHEN_FULL: nat := 100
  const MAX_RESYNC_ATTEMPTS: nat := 5
  const PUBLISH_EVERY: nat := 100

  datatype ResyncReason =
    | SequenceGap(expected: nat, actual: nat)
    | ChecksumMismatch | CrossedBook | Timeout | ManualRequest | InitialSync

  datatype State =
    | Uninitialized
    | Buffering(buffer: seq<OrderBookUpdate>)
    | FetchingSnapshot(bufferedUpdates: seq<OrderBookUpdate>, attempt: nat)
    | Initializing(snapshotSeq: nat, pendingUpdates: seq<OrderBookUpdate>)
    | Live(lastSeq: nat, updatesSinceSync: nat)
    | Resyncing(reason: ResyncReason, resyncAttempt: nat)
    | Error(canRetry: bool)

  datatype Stats = Stats(totalUpdates: nat, gapsDetected: nat, resyncsTriggered: nat)

  /** What receiving gave: an update, a closed channel, or nothing within the wait. */
  datatype Receive = Got(update: OrderBookUpdate) | Closed | Quiet

  /** The clock and the channel as one turn finds them. */
  datatype Input = Input(expired: bool, received: Receive)

  /** published lists the books sent to the snapshot channel. */
  datatype Builder = Builder(state: State, book: OrderBook, stats: Stats, published: seq<OrderBook>)

  /** A builder between turns; running is false once the loop has been left. */
  datatype Turn = Turn(builder: Builder, running: bool)

  /** The gap test of the live state. */
  predicate HasGap(lastSeq: nat, u: OrderBookUpdate) {
    && !u.isSnapshot && u.updateId != lastSeq + 1
    && (if u.firstUpdateId > 0 then u.firstUpdateId != lastSeq + 1 else u.updateId != lastSeq + 1)
  }

  function Resync(b: Builder, reason: ResyncReason): Builder {
    b.(state := Resyncing(reason, 1),
       stats := b.stats.(gapsDetected := b.stats.gapsDetected + 1,
                         resyncsTriggered := b.stats.resyncsTriggered + 1))
  }

  function Fetch(b: Builder, buffered: seq<OrderBookUpdate>): Builder {
    b.(state := FetchingSnapshot(buffered, 1),
       stats := b.stats.(resyncsTriggered := b.stats.resyncsTriggered + 1))
  }

  /** The buffer after one more update: a full buffer first loses its oldest entries. */
  function Pushed(max: nat, buffer: seq<OrderBookUpdate>, u: OrderBookUpdate): seq<OrderBookUpdate>
    requires max >= DROPPED_WHEN_FULL
  {
    (if |buffer| >= max then buffer[DROPPED_WHEN_FULL..] else buffer) + [u]
  }

  function Buffered(max: nat, b: Builder, buffer: seq<OrderBookUpdate>, u: OrderBookUpdate): Builder
    requires max >= DROPPED_WHEN_FULL
  {
    var pushed := Pushed(max, buffer, u);
    if |pushed| == 1 && u.isSnapshot then Fetch(b, pushed) else b.(state := Buffering(pushed))
  }

  function Applied(b: Builder, lastSeq: nat, sinceSync: nat, u: OrderBookUpdate): Builder {
    var book := ApplyToBook(b.book, u);
    Builder(Live(u.updateId, sinceSync + 1), book,
            b.stats.(totalUpdates := b.stats.totalUpdates + 1),
            if sinceSync % PUBLISH_EVERY == 0 then b.published + [book] else b.published)
  }

  /** The pending updates newer than the snapshot. */
  function Newer(snapshotSeq: nat, us: seq<OrderBookUpdate>): seq<OrderBookUpdate>
    decreases |us|
  {
    if us == [] then []
    else Newer(snapshotSeq, us[..|us| - 1]) + if us[|us| - 1].updateId > snapshotSeq then [us[|us| - 1]] else []
  }

  function Initialized(b: Builder, snapshotSeq: nat, pending: seq<OrderBookUpdate>): Builder {
    var book := ApplyAllToBook(b.book, Newer(snapshotSeq, pending));
    Builder(Live(book.lastUpdateId, |Newer(snapshotSeq, pending)|), book, b.stats, b.published + [book])
  }

  /** One turn of the main loop. */
  function Step(max: nat, b: Builder, input: Input): Turn
    requires max >= DROPPED_WHEN_FULL
  {
    match b.state
    case Uninitialized => Turn(b.(state := Buffering([])), true)
    case Buffering(buffer) =>
      if input.expired then Turn(Resync(b, Timeout), true)
      else (
        match input.received
        case Got(u) => Turn(Buffered(max, b, buffer, u), true)
        case Closed => Turn(b, false)
        case Quiet => Turn(if buffer != [] then Fetch(b, buffer) else b, true))
    case FetchingSnapshot(buffered, attempt) =>
      if attempt > MAX_RESYNC_ATTEMPTS then Turn(b.(state := Error(true)), true)
      else if buffered != [] && buffered[0].isSnapshot then
        Turn(b.(state := Live(buffered[0].updateId, 1), book := ApplyToBook(b.book, buffered[0])), true)
      else Turn(b, true)
    case Initializing(snapshotSeq, pending) => Turn(Initialized(b, snapshotSeq, pending), true)
    case Live(lastSeq, sinceSync) => (
      match input.received
      case Got(u) =>
        if HasGap(lastSeq, u) then Turn(Resync(b, SequenceGap(lastSeq + 1, u.updateId)), true)
        else Turn(Applied(b, lastSeq, sinceSync, u), true)
      case Closed => Turn(b, false)
      case Quiet => Turn(b, true))
    case Resyncing(reason, attempt) =>
      if attempt > MAX_RESYNC_ATTEMPTS then Turn(b.(state := Error(true)), true)
      else Turn(b.(state := Buffering([])), true)
    case Error(canRetry) => if canRetry then Turn(b.(state := Uninitialized), true) else Turn(b, false)
  }

  function Next(max: nat, t: Turn, input: Input): Turn
    requires max >= DROPPED_WHEN_FULL
  {
    if t.running then Step(max, t.builder, input) else t
  }

  function Turns(max: nat, t: Turn, inputs: seq<Input>): Turn
    requires max >= DROPPED_WHEN_FULL
    decreases |inputs|
  {
    if inputs == [] then t else Next(max, Turns(max, t, inputs[..|inputs| - 1]), inputs[|inputs| - 1])
  }

  /** The builder as run enters its loop. */
  const STARTED := Turn(Builder(Buffering([]), NEW_BOOK, Stats(0, 0, 0), []), true)

  class OrderBookBuilder {
    var state: State
    var orderbook: OrderBook
    var stats: Stats
    var published: seq<OrderBook>
    const maxBufferSize: nat := MAX_BUFFER_SIZE

    ghost function Value(): Builder
      reads this
    {
      Builder(state, orderbook, stats, published)
    }

    constructor ()
      ensures Value() == STARTED.builder.(state := Uninitialized)
    {
      state, orderbook, stats, published := Uninitialized, NEW_BOOK, Stats(0, 0, 0), [];
    }

    /** The loop from its start, for as many turns as there are inputs. */
    method Run(inputs: seq<Input>) returns (running: bool)
      modifies this
      ensures Turn(Value(), running)
        == Turns(maxBufferSize, Turn(old(Value()).(state := Buffering([])), true), inputs)
    {
      state := Buffering([]);
      running := true;
      ghost var start := Turn(old(Value()).(state := Buffering([])), true);
      for i := 0 to |inputs|
        invariant Turn(Value(), running) == Turns(maxBufferSize, start, inputs[..i])
      {
        assert inputs[..i + 1][..i] == inputs[..i];
        if running {
          running := TakeTurn(inputs[i]);
        }
      }
      assert inputs[..|inputs|] == inputs;
    }

    method TakeTurn(input: Input) returns (running: bool)
      modifies this
      ensures Turn(Value(), running) == Step(maxBufferSize, old(Value()), input)
    {
      running := true;
      match state
      case Uninitialized =>
        state := Buffering([]);
      case Buffering(buffer) =>
        if input.expired {
          TriggerResync(Timeout);
          return;
        }
        match input.received {
          case Got(u) => HandleBufferingUpdate(u, buffer);
          case Closed => running := false;
          case Quiet =>
            if buffer != [] {
              FetchSnapshot(buffer);
            }
        }
      case FetchingSnapshot(buffered, attempt) =>
        if attempt > MAX_RESYNC_ATTEMPTS {
          state := Error(true);
          return;
        }
        if buffered != [] {
          var first := buffered[0];
          if first.isSnapshot {
            ApplyUpdate(first);
            state := Live(first.updateId, 1);
          }
        }
      case Initializing(snapshotSeq, pending) =>
        var applied := ApplyNewer(snapshotSeq, pending);
        state := Live(orderbook.lastUpdateId, applied);
        published := published + [orderbook];
      case Live(lastSeq, sinceSync) =>
        match input.received {
          case Got(u) =>
            if !u.isSnapshot && u.updateId != lastSeq + 1 {
              var hasGap := if u.firstUpdateId > 0 then u.firstUpdateId != lastSeq + 1
                            else u.updateId != lastSeq + 1;
              if hasGap {
                TriggerResync(SequenceGap(lastSeq + 1, u.updateId));
                return;
              }
            }
            ApplyUpdate(u);
            state := Live(u.updateId, sinceSync + 1);
            if sinceSync % PUBLISH_EVERY == 0 {
              published := published + [orderbook];
            }
            stats := stats.(totalUpdates := stats.totalUpdates + 1);
          case Closed => running := false;
          case Quiet =>
        }
      case Resyncing(reason, attempt) =>
        if attempt > MAX_RESYNC_ATTEMPTS {
          state := Error(true);
          return;
        }
        state := Buffering([]);
      case Error(canRetry) =>
        if canRetry {
          state := Uninitialized;
        } else {
          running := false;
        }
    }

    method HandleBufferingUpdate(u: OrderBookUpdate, buffer: seq<OrderBookUpdate>)
      modifies this
      ensures Value() == Buffered(maxBufferSize, old(Value()), buffer, u)
    {
      var kept := buffer;
      if |kept| >= maxBufferSize {
        kept := kept[DROPPED_WHEN_FULL..];
      }
      kept := kept + [u];
      state := Buffering(kept);
      if |kept| == 1 && u.isSnapshot {
        FetchSnapshot(kept);
      }
    }

    method FetchSnapshot(buffered: seq<OrderBookUpdate>)
      modifies `state, `stats
      ensures Value() == Fetch(old(Value()), buffered)
    {
      state := FetchingSnapshot(buffered, 1);
      stats := stats.(resyncsTriggered := stats.resyncsTriggered + 1);
    }

    method TriggerResync(reason: ResyncReason)
      modifies `state, `stats
      ensures Value() == Resync(old(Value()), reason)
    {
      state := Resyncing(reason, 1);
      stats := stats.(gapsDetected := stats.gapsDetected + 1,
                      resyncsTriggered := stats.resyncsTriggered + 1);
    }

    method ApplyNewer(snapshotSeq: nat, pending: seq<OrderBookUpdate>) returns (applied: nat)
      modifies `orderbook
      ensures applied == |Newer(snapshotSeq, pending)|
      ensures orderbook == ApplyAllToBook(old(orderbook), Newer(snapshotSeq, pending))
    {
      applied := 0;
      for i := 0 to |pending|
        invariant applied == |Newer(snapshotSeq, pending[..i])|
        invariant orderbook == ApplyAllToBook(old(orderbook), Newer(snapshotSeq, pending[..i]))
      {
        assert pending[..i + 1][..i] == pending[..i];
        ghost var newer := Newer(snapshotSeq, pending[..i]);
        if pending[i].updateId > snapshotSeq {
          ApplyUpdate(pending[i]);
          applied := applied + 1;
          assert (newer + [pending[i]])[..|newer|] == newer;
        } else {
          assert newer + [] == newer;
        }
      }
      assert pending[..|pending|] == pending;
    }

    method ApplyUpdate(u: OrderBookUpdate)
      modifies `orderbook
      ensures orderbook == ApplyToBook(old(orderbook), u)
    {
      orderbook := orderbook.(lastUpdateId := u.updateId, timestamp := u.timestamp,
                              updateCount := orderbook.updateCount + 1);
      if u.isSnapshot {
        orderbook := orderbook.(bids := u.bids, asks := u.asks);
      } else {
        ghost var start := orderbook;
        for i := 0 to |u.bids|
          invariant orderbook == start.(bids := MergeLevels(start.bids, u.bids[..i]))
        {
          assert u.bids[..i + 1][..i] == u.bids[..i];
          var level := u.bids[i];
          orderbook := orderbook.(bids := RetainOthers(orderbook.bids, level.price));
          if level.qty > 0 {
            orderbook := orderbook.(bids := orderbook.bids + [level]);
          } else {
            assert orderbook.bids + [] == orderbook.bids;
          }
        }
        assert u.bids[..|u.bids|] == u.bids;
        for i := 0 to |u.asks|
          invariant orderbook ==
            start.(bids := MergeLevels(start.bids, u.bids), asks := MergeLevels(start.asks, u.asks[..i]))
        {
          assert u.asks[..i + 1][..i] == u.asks[..i];
          var level := u.asks[i];
          orderbook := orderbook.(asks := RetainOthers(orderbook.asks, level.price));
          if level.qty > 0 {
            orderbook := orderbook.(asks := orderbook.asks + [level]);
          } else {
            assert orderbook.asks + [] == orderbook.asks;
          }
        }
        assert u.asks[..|u.asks|] == u.asks;
        orderbook := orderbook.(bids := SortLevels(Bid, orderbook.bids));
        orderbook := orderbook.(asks := SortLevels(Ask, orderbook.asks));
      }
    }
  }
}
