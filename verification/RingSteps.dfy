/**
  Push and pop of the ring, one atomic load or store per step, under every interleaving. A load
  of the other side's index may return any value that index has held since the last one seen.
  */
module RingSteps {
  import opened Wrapping

  /** Where push stands: which of its accesses come next. */
  datatype Producer<T> =
    | ProducerIdle
    | TailLoaded(update: T, tailSeen: nat)
    | RoomFound(update: T, tailSeen: nat)
    | SlotWritten(update: T, tailSeen: nat)

  /** Where pop stands. */
  datatype Consumer<T> =
    | ConsumerIdle
    | HeadLoaded(headSeen: nat)
    | ItemFound(headSeen: nat)
    | SlotRead(headSeen: nat, value: T)

  /**
    pushed and popped are the completed pushes and pops; headView and tailView count the stores
    of the other side's index up to the newest one seen.
    */
  datatype Ring<T> = Ring(
    buffer: seq<T>, head: nat, tail: nat, producer: Producer<T>, consumer: Consumer<T>,
    pushed: seq<T>, popped: seq<T>, headView: nat, tailView: nat)

  datatype Step<T> =
    | LoadTail(update: T)
    | CheckRoom(view: nat)
    | WriteSlot
    | StoreTail
    | LoadHead
    | CheckItem(view: nat)
    | ReadSlot
    | StoreHead

  /** A slot access also needs its index inside the buffer; elsewhere it would panic. */
  predicate Enabled<T>(r: Ring<T>, step: Step<T>) {
    |r.buffer| > 0 &&
    match step
    case LoadTail(_) => r.producer.ProducerIdle?
    case CheckRoom(view) => r.producer.TailLoaded? && r.headView <= view <= |r.popped|
    case WriteSlot => r.producer.RoomFound? && r.producer.tailSeen < |r.buffer|
    case StoreTail => r.producer.SlotWritten?
    case LoadHead => r.consumer.ConsumerIdle?
    case CheckItem(view) => r.consumer.HeadLoaded? && r.tailView <= view <= |r.pushed|
    case ReadSlot => r.consumer.ItemFound? && r.consumer.headSeen < |r.buffer|
    case StoreHead => r.consumer.SlotRead?
  }

  /** The value the index holds after its count-th store. */
  function IndexAt(count: nat, n: nat): nat
    requires n > 0
  {
    count % n
  }

  function Next<T>(r: Ring<T>, step: Step<T>): Ring<T>
    requires Enabled(r, step)
  {
    var n := |r.buffer|;
    match step
    case LoadTail(u) => r.(producer := TailLoaded(u, r.tail))
    case CheckRoom(view) =>
      if (r.producer.tailSeen + 1) % n == IndexAt(view, n) then
        r.(producer := ProducerIdle, headView := view)
      else
        r.(producer := RoomFound(r.producer.update, r.producer.tailSeen), headView := view)
    case WriteSlot =>
      r.(buffer := r.buffer[r.producer.tailSeen := r.producer.update],
         producer := SlotWritten(r.producer.update, r.producer.tailSeen))
    case StoreTail =>
      r.(tail := (r.producer.tailSeen + 1) % n, producer := ProducerIdle,
         pushed := r.pushed + [r.producer.update])
    case LoadHead => r.(consumer := HeadLoaded(r.head))
    case CheckItem(view) =>
      if r.consumer.headSeen == IndexAt(view, n) then
        r.(consumer := ConsumerIdle, tailView := view)
      else
        r.(consumer := ItemFound(r.consumer.headSeen), tailView := view)
    case ReadSlot =>
      r.(consumer := SlotRead(r.consumer.headSeen, r.buffer[r.consumer.headSeen]))
    case StoreHead =>
      r.(head := (r.consumer.headSeen + 1) % n, consumer := ConsumerIdle,
         popped := r.popped + [r.consumer.value])
  }

  ghost predicate Indices<T>(r: Ring<T>) {
    var n := |r.buffer|;
    && n > 0 && r.headView <= |r.popped| <= r.tailView <= |r.pushed| < r.headView + n
    && r.head == IndexAt(|r.popped|, n) && r.tail == IndexAt(|r.pushed|, n)
  }

  /** The slots between head and tail hold the pushed values not yet popped. */
  ghost predicate Stored<T>(r: Ring<T>)
    requires Indices(r)
  {
    forall k :: 0 <= k < |r.pushed| - |r.popped| ==>
      r.buffer[Slot(r.head, k, |r.buffer|)] == r.pushed[|r.popped| + k]
  }

  ghost predicate ProducerFits<T>(r: Ring<T>)
    requires Indices(r)
  {
    match r.producer
    case ProducerIdle => true
    case TailLoaded(_, t) => t == r.tail
    case RoomFound(_, t) => t == r.tail && |r.pushed| + 1 < r.headView + |r.buffer|
    case SlotWritten(u, t) => t == r.tail && |r.pushed| + 1 < r.headView + |r.buffer| && r.buffer[t] == u
  }

  ghost predicate ConsumerFits<T>(r: Ring<T>)
    requires Indices(r)
  {
    match r.consumer
    case ConsumerIdle => true
    case HeadLoaded(h) => h == r.head
    case ItemFound(h) => h == r.head && |r.popped| < r.tailView
    case SlotRead(h, v) => h == r.head && |r.popped| < r.tailView && v == r.pushed[|r.popped|]
  }

  ghost predicate Invariant<T>(r: Ring<T>) {
    Indices(r) && r.popped <= r.pushed && Stored(r) && ProducerFits(r) && ConsumerFits(r)
  }

  /** An empty ring over any initial slot contents. */
  function Empty<T>(buffer: seq<T>): Ring<T> {
    Ring(buffer, 0, 0, ProducerIdle, ConsumerIdle, [], [], 0, 0)
  }

  lemma EmptyInvariant<T>(buffer: seq<T>)
    requires buffer != []
    ensures Invariant(Empty(buffer))
  {
    WrapOnce(0, |buffer|);
  }

  /** What the comparison against a view decides: whether the view shows no free slot. */
  lemma RoomCheckMeaning<T>(r: Ring<T>, view: nat)
    requires Invariant(r) && Enabled(r, CheckRoom(view))
    ensures Next(r, CheckRoom(view)).producer.ProducerIdle? <==> |r.pushed| - view == |r.buffer| - 1
  {
    SlotOfCount(view, |r.pushed|, |r.buffer|);
    WrapOnce(r.tail + 1, |r.buffer|);
  }

  /** A pop reports empty exactly when its view shows nothing beyond what was popped. */
  lemma ItemCheckMeaning<T>(r: Ring<T>, view: nat)
    requires Invariant(r) && Enabled(r, CheckItem(view))
    ensures Next(r, CheckItem(view)).consumer.ConsumerIdle? <==> view == |r.popped|
  {
    SlotOfCount(|r.popped|, view, |r.buffer|);
  }

  lemma WriteKeepsInvariant<T>(r: Ring<T>)
    requires Invariant(r) && Enabled(r, WriteSlot)
    ensures Invariant(Next(r, WriteSlot))
  {
    SlotOfCount(|r.popped|, |r.pushed|, |r.buffer|);
  }

  lemma StoreTailKeepsInvariant<T>(r: Ring<T>)
    requires Invariant(r) && Enabled(r, StoreTail)
    ensures Invariant(Next(r, StoreTail))
  {
    var n := |r.buffer|;
    SlotOfCount(|r.popped|, |r.pushed|, n);
    SlotOfCount(|r.pushed|, |r.pushed| + 1, n);
    WrapOnce(r.tail + 1, n);
  }

  lemma StoreHeadKeepsInvariant<T>(r: Ring<T>)
    requires Invariant(r) && Enabled(r, StoreHead)
    ensures Invariant(Next(r, StoreHead))
  {
    var n := |r.buffer|;
    var r' := Next(r, StoreHead);
    SlotOfCount(|r.popped|, |r.popped| + 1, n);
    WrapOnce(r.head + 1, n);
    forall k | 0 <= k < |r'.pushed| - |r'.popped|
      ensures r'.buffer[Slot(r'.head, k, n)] == r'.pushed[|r'.popped| + k]
    {
      assert Slot(r'.head, k, n) == Slot(r.head, k + 1, n);
    }
  }

  lemma StepKeepsInvariant<T>(r: Ring<T>, step: Step<T>)
    requires Invariant(r) && Enabled(r, step)
    ensures Invariant(Next(r, step))
  {
    match step
    case LoadTail(_) =>
    case CheckRoom(view) => RoomCheckMeaning(r, view);
    case WriteSlot => WriteKeepsInvariant(r);
    case StoreTail => StoreTailKeepsInvariant(r);
    case LoadHead =>
    case CheckItem(view) => ItemCheckMeaning(r, view);
    case ReadSlot =>
      assert Slot(r.head, 0, |r.buffer|) == r.head;
      assert r.buffer[Slot(r.head, 0, |r.buffer|)] == r.pushed[|r.popped| + 0];
    case StoreHead => StoreHeadKeepsInvariant(r);
  }

  function Run<T>(buffer: seq<T>, steps: seq<Step<T>>): Ring<T>
    requires Possible(buffer, steps)
    decreases |steps|, 1
  {
    if steps == [] then Empty(buffer)
    else Next(Run(buffer, steps[..|steps| - 1]), steps[|steps| - 1])
  }

  /** Every step is enabled where it is taken. */
  predicate Possible<T>(buffer: seq<T>, steps: seq<Step<T>>)
    decreases |steps|, 0
  {
    steps != [] ==>
      && Possible(buffer, steps[..|steps| - 1])
      && Enabled(Run(buffer, steps[..|steps| - 1]), steps[|steps| - 1])
  }

  lemma {:induction false} EveryRunKeepsInvariant<T>(buffer: seq<T>, steps: seq<Step<T>>)
    requires buffer != [] && Possible(buffer, steps)
    ensures Invariant(Run(buffer, steps))
    decreases |steps|
  {
    if steps == [] {
      EmptyInvariant(buffer);
    } else {
      EveryRunKeepsInvariant(buffer, steps[..|steps| - 1]);
      StepKeepsInvariant(Run(buffer, steps[..|steps| - 1]), steps[|steps| - 1]);
    }
  }

  // ---- what the values are, told from the steps alone ---------------------------------------

  /** The value the producer was handed last. */
  function Handed<T>(steps: seq<Step<T>>): (u: T)
    requires exists i :: 0 <= i < |steps| && steps[i].LoadTail?
    decreases |steps|
  {
    if steps[|steps| - 1].LoadTail? then steps[|steps| - 1].update
    else
      assert forall i :: 0 <= i < |steps| - 1 ==> steps[..|steps| - 1][i] == steps[i];
      Handed(steps[..|steps| - 1])
  }

  ghost predicate HasHanded<T>(steps: seq<Step<T>>) {
    exists i :: 0 <= i < |steps| && steps[i].LoadTail?
  }

  /** The values handed over, one for each store of the tail, in order. */
  ghost function Collected<T>(steps: seq<Step<T>>): seq<T>
    decreases |steps|
  {
    if steps == [] then []
    else
      var before := steps[..|steps| - 1];
      Collected(before) + if steps[|steps| - 1].StoreTail? && HasHanded(before) then [Handed(before)] else []
  }

  /** How often the head was stored. */
  function HeadStores<T>(steps: seq<Step<T>>): nat
    decreases |steps|
  {
    if steps == [] then 0
    else HeadStores(steps[..|steps| - 1]) + if steps[|steps| - 1].StoreHead? then 1 else 0
  }

  lemma HandedStep<T>(steps: seq<Step<T>>, step: Step<T>)
    ensures HasHanded(steps + [step]) <==> step.LoadTail? || HasHanded(steps)
    ensures HasHanded(steps + [step]) ==>
      Handed(steps + [step]) == if step.LoadTail? then step.update else Handed(steps)
  {
    var all := steps + [step];
    assert all[..|all| - 1] == steps && all[|all| - 1] == step;
    if i :| 0 <= i < |steps| && steps[i].LoadTail? {
      assert all[i].LoadTail?;
    }
    if i :| 0 <= i < |all| && all[i].LoadTail? && !step.LoadTail? {
      assert steps[i].LoadTail?;
    }
  }

  /** A producer that is not idle holds what it was handed last. */
  ghost predicate HoldsHanded<T>(r: Ring<T>, steps: seq<Step<T>>) {
    !r.producer.ProducerIdle? ==> HasHanded(steps) && r.producer.update == Handed(steps)
  }

  lemma LedgerStep<T>(r: Ring<T>, before: seq<Step<T>>, step: Step<T>)
    requires Enabled(r, step) && r.pushed == Collected(before) && HoldsHanded(r, before)
    requires |r.popped| == HeadStores(before)
    ensures Next(r, step).pushed == Collected(before + [step]) && HoldsHanded(Next(r, step), before + [step])
    ensures |Next(r, step).popped| == HeadStores(before + [step])
  {
    HandedStep(before, step);
    assert (before + [step])[..|before|] == before;
    match step
    case StoreTail =>
    case StoreHead =>
    case _ =>
      assert Next(r, step).pushed == r.pushed && Next(r, step).popped == r.popped;
  }

  /**
    Over every run: what counts as pushed is what was handed over for each store of the tail, a
    busy producer holds what it was handed last, and there are as many pops as stores of the head.
    */
  lemma {:induction false} PushedIsWhatWasHanded<T>(buffer: seq<T>, steps: seq<Step<T>>)
    requires Possible(buffer, steps)
    ensures Run(buffer, steps).pushed == Collected(steps)
    ensures HoldsHanded(Run(buffer, steps), steps)
    ensures |Run(buffer, steps).popped| == HeadStores(steps)
    decreases |steps|
  {
    if steps != [] {
      var before, step := steps[..|steps| - 1], steps[|steps| - 1];
      PushedIsWhatWasHanded(buffer, before);
      LedgerStep(Run(buffer, before), before, step);
      assert before + [step] == steps;
    }
  }

  /**
    In every interleaving: what is pushed are the values handed over, pops return a prefix of
    them, at most size - 1 values are in the ring, no slot is ever written and read at once, no
    access leaves the buffer, and a value about to be returned is the oldest one not yet popped.
    */
  lemma RingIsSafe<T>(buffer: seq<T>, steps: seq<Step<T>>)
    requires buffer != [] && Possible(buffer, steps)
    ensures var r := Run(buffer, steps);
      && r.pushed == Collected(steps) && r.popped <= r.pushed && |r.popped| == HeadStores(steps)
      && |r.pushed| - |r.popped| <= |buffer| - 1
      && (r.producer.RoomFound? && r.consumer.ItemFound? ==> r.producer.tailSeen != r.consumer.headSeen)
      && (r.producer.RoomFound? ==> Enabled(r, WriteSlot))
      && (r.consumer.ItemFound? ==> Enabled(r, ReadSlot))
      && (r.consumer.SlotRead? ==> |r.popped| < |r.pushed| && r.consumer.value == r.pushed[|r.popped|])
  {
    EveryRunKeepsInvariant(buffer, steps);
    SlotCountNeverChanges(buffer, steps);
    PushedIsWhatWasHanded(buffer, steps);
    var r := Run(buffer, steps);
    SlotOfCount(|r.popped|, |r.pushed|, |buffer|);
  }

  // ---- nothing gets stuck --------------------------------------------------------------------

  lemma OneMoreStep<T>(buffer: seq<T>, steps: seq<Step<T>>, step: Step<T>)
    requires Possible(buffer, steps) && Enabled(Run(buffer, steps), step)
    ensures Possible(buffer, steps + [step]) && Run(buffer, steps + [step]) == Next(Run(buffer, steps), step)
  {
    assert (steps + [step])[..|steps|] == steps;
  }

  /** While the ring has room, an idle producer that sees the newest head gets its value in. */
  lemma PushGoesThrough<T>(buffer: seq<T>, steps: seq<Step<T>>, u: T) returns (more: seq<Step<T>>)
    requires buffer != [] && Possible(buffer, steps) && Run(buffer, steps).producer.ProducerIdle?
    requires |Run(buffer, steps).pushed| - |Run(buffer, steps).popped| < |buffer| - 1
    ensures more == steps + [LoadTail(u)] + [CheckRoom(|Run(buffer, steps).popped|)] + [WriteSlot] + [StoreTail]
    ensures Possible(buffer, more)
    ensures var r, r' := Run(buffer, steps), Run(buffer, more);
      r'.pushed == r.pushed + [u] && r'.popped == r.popped && r'.producer.ProducerIdle?
  {
    var view := |Run(buffer, steps).popped|;
    EveryRunKeepsInvariant(buffer, steps);
    SlotCountNeverChanges(buffer, steps);
    OneMoreStep(buffer, steps, LoadTail(u));
    var loaded := steps + [LoadTail(u)];
    EveryRunKeepsInvariant(buffer, loaded);
    RoomCheckMeaning(Run(buffer, loaded), view);
    OneMoreStep(buffer, loaded, CheckRoom(view));
    var checked := loaded + [CheckRoom(view)];
    RingIsSafe(buffer, checked);
    OneMoreStep(buffer, checked, WriteSlot);
    OneMoreStep(buffer, checked + [WriteSlot], StoreTail);
    more := checked + [WriteSlot] + [StoreTail];
  }

  /** While the ring holds a value, an idle consumer that sees the newest tail gets the oldest one out. */
  lemma PopGoesThrough<T>(buffer: seq<T>, steps: seq<Step<T>>) returns (more: seq<Step<T>>)
    requires buffer != [] && Possible(buffer, steps) && Run(buffer, steps).consumer.ConsumerIdle?
    requires |Run(buffer, steps).popped| < |Run(buffer, steps).pushed|
    ensures more == steps + [LoadHead] + [CheckItem(|Run(buffer, steps).pushed|)] + [ReadSlot] + [StoreHead]
    ensures Possible(buffer, more)
    ensures var r, r' := Run(buffer, steps), Run(buffer, more);
      && r'.popped == r.popped + [r.pushed[|r.popped|]] && r'.pushed == r.pushed && r'.consumer.ConsumerIdle?
  {
    var view := |Run(buffer, steps).pushed|;
    EveryRunKeepsInvariant(buffer, steps);
    OneMoreStep(buffer, steps, LoadHead);
    var loaded := steps + [LoadHead];
    EveryRunKeepsInvariant(buffer, loaded);
    ItemCheckMeaning(Run(buffer, loaded), view);
    OneMoreStep(buffer, loaded, CheckItem(view));
    var checked := loaded + [CheckItem(view)];
    RingIsSafe(buffer, checked);
    OneMoreStep(buffer, checked, ReadSlot);
    var read := checked + [ReadSlot];
    RingIsSafe(buffer, read);
    OneMoreStep(buffer, read, StoreHead);
    more := read + [StoreHead];
  }

  lemma {:induction false} SlotCountNeverChanges<T>(buffer: seq<T>, steps: seq<Step<T>>)
    requires Possible(buffer, steps)
    ensures |Run(buffer, steps).buffer| == |buffer|
    decreases |steps|
  {
    if steps != [] {
      SlotCountNeverChanges(buffer, steps[..|steps| - 1]);
    }
  }

  /** A push is refused exactly when its view shows a full ring, a pop when it shows an empty one. */
  lemma RefusalsAreJustified<T>(buffer: seq<T>, steps: seq<Step<T>>, view: nat)
    requires buffer != [] && Possible(buffer, steps)
    ensures var r := Run(buffer, steps);
      && (Enabled(r, CheckRoom(view)) ==>
           (Next(r, CheckRoom(view)).producer.ProducerIdle? <==> |r.pushed| - view == |buffer| - 1))
      && (Enabled(r, CheckItem(view)) ==>
           (Next(r, CheckItem(view)).consumer.ConsumerIdle? <==> view == |r.popped|))
  {
    EveryRunKeepsInvariant(buffer, steps);
    SlotCountNeverChanges(buffer, steps);
    var r := Run(buffer, steps);
    if Enabled(r, CheckRoom(view)) {
      RoomCheckMeaning(r, view);
    }
    if Enabled(r, CheckItem(view)) {
      ItemCheckMeaning(r, view);
    }
  }

  // ---- neither side waits --------------------------------------------------------------------

  /** What the producer saw of the head when it last looked; 0 before it did. */
  function HeadSeen<T>(steps: seq<Step<T>>): nat
    decreases |steps|
  {
    if steps == [] then 0
    else if steps[|steps| - 1].CheckRoom? then steps[|steps| - 1].view
    else HeadSeen(steps[..|steps| - 1])
  }

  /** What the consumer saw of the tail when it last looked; 0 before it did. */
  function TailSeen<T>(steps: seq<Step<T>>): nat
    decreases |steps|
  {
    if steps == [] then 0
    else if steps[|steps| - 1].CheckItem? then steps[|steps| - 1].view
    else TailSeen(steps[..|steps| - 1])
  }

  lemma {:induction false} ViewsAreWhatWasSeen<T>(buffer: seq<T>, steps: seq<Step<T>>)
    requires buffer != [] && Possible(buffer, steps)
    ensures Run(buffer, steps).headView == HeadSeen(steps) && Run(buffer, steps).tailView == TailSeen(steps)
    decreases |steps|
  {
    if steps != [] {
      ViewsAreWhatWasSeen(buffer, steps[..|steps| - 1]);
    }
  }

  /**
    Each side can always take a step, whatever the other one does, and at its check it may see any
    index the other side has stored since it last looked.
    */
  lemma NeitherSideWaits<T>(buffer: seq<T>, steps: seq<Step<T>>, u: T, head: nat, tail: nat)
    requires buffer != [] && Possible(buffer, steps)
    requires HeadSeen(steps) <= head <= |Run(buffer, steps).popped|
    requires TailSeen(steps) <= tail <= |Run(buffer, steps).pushed|
    ensures var r := Run(buffer, steps);
      && (Enabled(r, LoadTail(u)) || Enabled(r, CheckRoom(head)) || Enabled(r, WriteSlot) || Enabled(r, StoreTail))
      && (Enabled(r, LoadHead) || Enabled(r, CheckItem(tail)) || Enabled(r, ReadSlot) || Enabled(r, StoreHead))
  {
    EveryRunKeepsInvariant(buffer, steps);
    ViewsAreWhatWasSeen(buffer, steps);
  }
}
