/**
  The sequence lock of a market cache slot: one writer, any number of readers, one atomic load
  or store per step, every interleaving. The sequence number is even while stable and odd while
  an update is being stored.
  */
module Seqlock {

  /** The guarded fields in store order: bid, ask, bid qty, ask qty, exchange ts, local ts. */
  const FIELDS: nat := 6

  /** The last-trade field is loaded after this many guarded fields; it is not guarded. */
  const BEFORE_TRADE: nat := 4

  type Quote = q: seq<int> | |q| == 6 witness [0, 0, 0, 0, 0, 0]

  const ZERO_QUOTE: Quote := [0, 0, 0, 0, 0, 0]

  datatype Writer =
    | WriterIdle
    | NumberLoaded(quote: Quote, number: nat)
    | Storing(quote: Quote, number: nat, stored: nat)

  /** What a read returned, and how many updates were complete when it began and ended. */
  datatype Result = Result(quote: seq<int>, began: nat, ended: nat)

  datatype Phase =
    | ReaderIdle
    | Reading(first: nat, loaded: seq<int>, tradeLoaded: bool, began: nat)

  datatype Reader = Reader(phase: Phase, results: seq<Result>)

  /** history[0] is the initial quote, history[n] the n-th completed update. */
  datatype Slot = Slot(
    number: nat, fields: Quote, writer: Writer, readers: seq<Reader>, history: seq<Quote>)

  datatype Step =
    | LoadNumber(quote: Quote)
    | MarkUpdating
    | StoreField
    | MarkStable
    | BeginRead(r: nat)
    | LoadField(r: nat)
    | LoadTrade(r: nat)
    | EndRead(r: nat)

  /** number | 1 */
  function WithLowBit(number: nat): nat {
    if number % 2 == 0 then number + 1 else number
  }

  /** number & !1 */
  function WithoutLowBit(number: nat): nat {
    number - number % 2
  }

  predicate Enabled(s: Slot, step: Step) {
    match step
    case LoadNumber(_) => s.writer.WriterIdle?
    case MarkUpdating => s.writer.NumberLoaded?
    case StoreField => s.writer.Storing? && s.writer.stored < FIELDS
    case MarkStable => s.writer.Storing? && s.writer.stored == FIELDS
    case BeginRead(r) => r < |s.readers| && s.readers[r].phase.ReaderIdle?
    case LoadField(r) =>
      && r < |s.readers| && s.readers[r].phase.Reading? && |s.readers[r].phase.loaded| < FIELDS
      && (|s.readers[r].phase.loaded| == BEFORE_TRADE ==> s.readers[r].phase.tradeLoaded)
    case LoadTrade(r) =>
      && r < |s.readers| && s.readers[r].phase.Reading?
      && |s.readers[r].phase.loaded| == BEFORE_TRADE && !s.readers[r].phase.tradeLoaded
    case EndRead(r) => r < |s.readers| && s.readers[r].phase.Reading? && |s.readers[r].phase.loaded| == FIELDS
  }

  function Completed(s: Slot): nat {
    if s.history == [] then 0 else |s.history| - 1
  }

  /** A read is accepted if the number is unchanged and even, and retried otherwise. */
  function Ended(s: Slot, reader: Reader): Reader
    requires reader.phase.Reading?
  {
    if reader.phase.first == s.number && reader.phase.first % 2 == 0 then
      Reader(ReaderIdle, reader.results + [Result(reader.phase.loaded, reader.phase.began, Completed(s))])
    else
      Reader(ReaderIdle, reader.results)
  }

  function Next(s: Slot, step: Step): Slot
    requires Enabled(s, step)
  {
    match step
    case LoadNumber(q) => s.(writer := NumberLoaded(q, s.number + 1))
    case MarkUpdating =>
      s.(number := WithLowBit(s.writer.number), writer := Storing(s.writer.quote, s.writer.number, 0))
    case StoreField =>
      var i := s.writer.stored;
      s.(fields := s.fields[i := s.writer.quote[i]], writer := s.writer.(stored := i + 1))
    case MarkStable =>
      s.(number := WithoutLowBit(s.writer.number + 1), writer := WriterIdle,
         history := s.history + [s.writer.quote])
    case BeginRead(r) =>
      WithReader(s, r, s.readers[r].(phase := Reading(s.number, [], false, Completed(s))))
    case LoadField(r) =>
      var p := s.readers[r].phase;
      WithReader(s, r, s.readers[r].(phase := p.(loaded := p.loaded + [s.fields[|p.loaded|]])))
    case LoadTrade(r) =>
      WithReader(s, r, s.readers[r].(phase := s.readers[r].phase.(tradeLoaded := true)))
    case EndRead(r) => WithReader(s, r, Ended(s, s.readers[r]))
  }

  function WithReader(s: Slot, r: nat, reader: Reader): Slot
    requires r < |s.readers|
  {
    s.(readers := s.readers[r := reader])
  }

  ghost predicate WriterFits(s: Slot) {
    && s.history != []
    && var last := s.history[|s.history| - 1];
       match s.writer
       case WriterIdle => s.number == 2 * Completed(s) && s.fields == last
       case NumberLoaded(_, n) => s.number == 2 * Completed(s) && n == s.number + 1 && s.fields == last
       case Storing(q, n, i) =>
         && s.number == 2 * Completed(s) + 1 && n == s.number && i <= FIELDS
         && (forall j :: 0 <= j < i ==> s.fields[j] == q[j])
  }

  /** An accepted result is one completed update, the newest both when the read began and ended. */
  ghost predicate GoodResult(s: Slot, x: Result) {
    x.began == x.ended <= Completed(s) && x.ended < |s.history| && x.quote == s.history[x.ended]
  }

  ghost predicate ReaderFits(s: Slot, reader: Reader) {
    && (forall k :: 0 <= k < |reader.results| ==> GoodResult(s, reader.results[k]))
    && (forall j, k :: 0 <= j < k < |reader.results| ==> reader.results[j].ended <= reader.results[k].ended)
    && (reader.phase.Reading? ==>
         var p := reader.phase;
         && |p.loaded| <= FIELDS && p.first <= s.number && p.began <= Completed(s)
         && (forall k :: 0 <= k < |reader.results| ==> reader.results[k].ended <= p.began)
         && (p.first % 2 == 0 ==> p.first == 2 * p.began)
         && (p.first % 2 == 0 && p.first == s.number ==>
              p.began < |s.history| && p.loaded == s.history[p.began][..|p.loaded|]))
  }

  ghost predicate Invariant(s: Slot) {
    WriterFits(s) && forall r :: 0 <= r < |s.readers| ==> ReaderFits(s, s.readers[r])
  }

  function Start(readers: nat): Slot {
    Slot(0, ZERO_QUOTE, WriterIdle, seq(readers, _ => Reader(ReaderIdle, [])), [ZERO_QUOTE])
  }

  function Run(readers: nat, steps: seq<Step>): Slot
    requires Possible(readers, steps)
    decreases |steps|, 1
  {
    if steps == [] then Start(readers)
    else Next(Run(readers, steps[..|steps| - 1]), steps[|steps| - 1])
  }

  predicate Possible(readers: nat, steps: seq<Step>)
    decreases |steps|, 0
  {
    steps != [] ==>
      && Possible(readers, steps[..|steps| - 1])
      && Enabled(Run(readers, steps[..|steps| - 1]), steps[|steps| - 1])
  }

  lemma WriterStepKeepsInvariant(s: Slot, step: Step)
    requires Invariant(s) && Enabled(s, step)
    requires step.LoadNumber? || step.MarkUpdating? || step.StoreField? || step.MarkStable?
    ensures Invariant(Next(s, step))
  {
    var s' := Next(s, step);
    forall r | 0 <= r < |s'.readers| ensures ReaderFits(s', s'.readers[r]) {
      assert ReaderFits(s, s.readers[r]);
    }
  }

  lemma EndReadFits(s: Slot, r: nat)
    requires Invariant(s) && Enabled(s, EndRead(r))
    ensures ReaderFits(s, Ended(s, s.readers[r]))
  {
    var reader := s.readers[r];
    assert ReaderFits(s, reader);
    if reader.phase.first == s.number && reader.phase.first % 2 == 0 {
      var x := Result(reader.phase.loaded, reader.phase.began, Completed(s));
      assert s.history[reader.phase.began][..FIELDS] == s.history[reader.phase.began];
      assert GoodResult(s, x);
    }
  }

  lemma LoadFieldFits(s: Slot, r: nat)
    requires Invariant(s) && Enabled(s, LoadField(r))
    ensures ReaderFits(Next(s, LoadField(r)), Next(s, LoadField(r)).readers[r])
  {
    assert ReaderFits(s, s.readers[r]);
  }

  lemma ReaderStepKeepsInvariant(s: Slot, step: Step, r: nat)
    requires Invariant(s) && Enabled(s, step)
    requires step == BeginRead(r) || step == LoadField(r) || step == LoadTrade(r) || step == EndRead(r)
    ensures Invariant(Next(s, step))
  {
    var s' := Next(s, step);
    forall q | 0 <= q < |s'.readers| ensures ReaderFits(s', s'.readers[q]) {
      if q != r {
        assert ReaderFits(s, s.readers[q]);
      } else {
        OwnReaderFits(s, step, r);
      }
    }
  }

  lemma OwnReaderFits(s: Slot, step: Step, r: nat)
    requires Invariant(s) && Enabled(s, step)
    requires step == BeginRead(r) || step == LoadField(r) || step == LoadTrade(r) || step == EndRead(r)
    ensures ReaderFits(Next(s, step), Next(s, step).readers[r])
  {
    assert ReaderFits(s, s.readers[r]);
    match step
    case LoadField(_) => LoadFieldFits(s, r);
    case EndRead(_) => EndReadFits(s, r);
    case BeginRead(_) =>
    case LoadTrade(_) =>
  }

  lemma {:induction false} EveryRunKeepsInvariant(readers: nat, steps: seq<Step>)
    requires Possible(readers, steps)
    ensures Invariant(Run(readers, steps))
    decreases |steps|
  {
    if steps != [] {
      var s, step := Run(readers, steps[..|steps| - 1]), steps[|steps| - 1];
      EveryRunKeepsInvariant(readers, steps[..|steps| - 1]);
      match step
      case BeginRead(r) => ReaderStepKeepsInvariant(s, step, r);
      case LoadField(r) => ReaderStepKeepsInvariant(s, step, r);
      case LoadTrade(r) => ReaderStepKeepsInvariant(s, step, r);
      case EndRead(r) => ReaderStepKeepsInvariant(s, step, r);
      case _ => WriterStepKeepsInvariant(s, step);
    }
  }

  /**
    In every interleaving each accepted read returned all six fields of one completed update (or
    of the initial state), the newest one throughout the read, and a reader never goes back.
    */
  lemma AcceptedReadsAreConsistent(readers: nat, steps: seq<Step>, r: nat)
    requires Possible(readers, steps) && r < |Run(readers, steps).readers|
    ensures var s := Run(readers, steps); var results := s.readers[r].results;
      && (forall k :: 0 <= k < |results| ==>
           && results[k].began == results[k].ended < |s.history|
           && results[k].quote == s.history[results[k].ended])
      && (forall j, k :: 0 <= j < k < |results| ==> results[j].ended <= results[k].ended)
  {
    EveryRunKeepsInvariant(readers, steps);
    var s := Run(readers, steps);
    assert ReaderFits(s, s.readers[r]);
  }

  /** The history the reads are measured against: exactly the quotes handed to the writer, in order. */
  function Written(steps: seq<Step>): seq<Quote>
    decreases |steps|
  {
    if steps == [] then []
    else Written(steps[..|steps| - 1]) + if steps[|steps| - 1].LoadNumber? then [steps[|steps| - 1].quote] else []
  }

  function InFlight(s: Slot): seq<Quote> {
    if s.writer.WriterIdle? then [] else [s.writer.quote]
  }

  lemma HistoryStep(s: Slot, step: Step)
    requires Enabled(s, step)
    ensures Next(s, step).history + InFlight(Next(s, step)) ==
      s.history + InFlight(s) + if step.LoadNumber? then [step.quote] else []
  {
    match step
    case LoadNumber(_) =>
    case MarkUpdating =>
    case StoreField =>
    case MarkStable =>
    case _ =>
      assert Next(s, step).writer == s.writer && Next(s, step).history == s.history;
  }

  lemma {:induction false} HistoryIsWhatWasWritten(readers: nat, steps: seq<Step>)
    requires Possible(readers, steps)
    ensures var s := Run(readers, steps); s.history + InFlight(s) == [ZERO_QUOTE] + Written(steps)
    decreases |steps|
  {
    if steps != [] {
      HistoryIsWhatWasWritten(readers, steps[..|steps| - 1]);
      HistoryStep(Run(readers, steps[..|steps| - 1]), steps[|steps| - 1]);
    }
  }

  // ---- which reads are accepted, told from the steps alone ----------------------------------

  lemma OneMoreStep(readers: nat, steps: seq<Step>, step: Step)
    requires Possible(readers, steps) && Enabled(Run(readers, steps), step)
    ensures Possible(readers, steps + [step]) && Run(readers, steps + [step]) == Next(Run(readers, steps), step)
  {
    assert (steps + [step])[..|steps|] == steps;
  }

  lemma {:induction false} PrefixIsPossible(readers: nat, steps: seq<Step>, k: nat)
    requires Possible(readers, steps) && k <= |steps|
    ensures Possible(readers, steps[..k])
    decreases |steps|
  {
    if k == |steps| {
      assert steps[..k] == steps;
    } else {
      PrefixIsPossible(readers, steps[..|steps| - 1], k);
      assert steps[..|steps| - 1][..k] == steps[..k];
    }
  }

  /** An update began at step i and was not marked stable by step n. */
  ghost predicate StoresFrom(steps: seq<Step>, i: nat, n: nat)
    requires i < n <= |steps|
  {
    steps[i] == MarkUpdating && forall j :: i < j < n ==> steps[j] != MarkStable
  }

  /** After the first n steps an update is being stored. */
  ghost predicate StoringAt(steps: seq<Step>, n: nat)
    requires n <= |steps|
  {
    exists i :: 0 <= i < n && StoresFrom(steps, i, n)
  }

  lemma StoringStep(steps: seq<Step>, n: nat)
    requires n < |steps|
    ensures StoringAt(steps, n + 1) <==> steps[n] == MarkUpdating || (StoringAt(steps, n) && steps[n] != MarkStable)
  {
    if StoringAt(steps, n) && steps[n] != MarkStable {
      var i :| 0 <= i < n && StoresFrom(steps, i, n);
      assert StoresFrom(steps, i, n + 1);
    }
    if steps[n] == MarkUpdating {
      assert StoresFrom(steps, n, n + 1);
    }
    if StoringAt(steps, n + 1) && steps[n] != MarkUpdating {
      var i :| 0 <= i < n + 1 && StoresFrom(steps, i, n + 1);
      assert StoresFrom(steps, i, n);
    }
  }

  lemma {:induction false} WriterStoresIff(readers: nat, steps: seq<Step>, n: nat)
    requires n <= |steps| && Possible(readers, steps[..n])
    ensures Run(readers, steps[..n]).writer.Storing? <==> StoringAt(steps, n)
    decreases n
  {
    if n > 0 {
      assert steps[..n][..n - 1] == steps[..n - 1];
      WriterStoresIff(readers, steps, n - 1);
      StoringStep(steps, n - 1);
    }
  }

  lemma NumberStep(s: Slot, step: Step)
    requires Invariant(s) && Enabled(s, step)
    ensures Next(s, step).number == s.number + if IsMark(step) then 1 else 0
  {
  }

  lemma ParityTellsStoring(s: Slot)
    requires Invariant(s)
    ensures s.number % 2 == 1 <==> s.writer.Storing?
  {
  }

  /** Whether steps from b up to n leave the number alone. */
  ghost predicate NoMarks(steps: seq<Step>, b: nat, n: nat)
    requires n <= |steps|
  {
    forall j :: b <= j < n ==> !IsMark(steps[j])
  }

  predicate IsMark(step: Step) {
    step == MarkUpdating || step == MarkStable
  }

  lemma NumberOneStep(readers: nat, steps: seq<Step>, n: nat)
    requires n < |steps| && Possible(readers, steps[..n + 1])
    ensures Possible(readers, steps[..n])
    ensures Run(readers, steps[..n + 1]).number == Run(readers, steps[..n]).number + if IsMark(steps[n]) then 1 else 0
  {
    assert steps[..n + 1][..n] == steps[..n];
    EveryRunKeepsInvariant(readers, steps[..n]);
    NumberStep(Run(readers, steps[..n]), steps[n]);
  }

  lemma {:induction false} NumberSinceIff(readers: nat, steps: seq<Step>, b: nat, n: nat)
    requires b <= n <= |steps| && Possible(readers, steps[..b]) && Possible(readers, steps[..n])
    ensures Run(readers, steps[..b]).number <= Run(readers, steps[..n]).number
    ensures Run(readers, steps[..n]).number == Run(readers, steps[..b]).number <==> NoMarks(steps, b, n)
    decreases n
  {
    if b < n {
      NumberOneStep(readers, steps, n - 1);
      NumberSinceIff(readers, steps, b, n - 1);
      NoMarksStep(steps, b, n - 1);
    }
  }

  lemma NoMarksStep(steps: seq<Step>, b: nat, n: nat)
    requires b <= n < |steps|
    ensures NoMarks(steps, b, n + 1) <==> NoMarks(steps, b, n) && !IsMark(steps[n])
  {
  }

  /** With no update being stored at b, none is marked stable later unless one begins. */
  lemma {:induction false} NoUpdateNoMarks(readers: nat, steps: seq<Step>, b: nat, n: nat)
    requires b <= n <= |steps| && Possible(readers, steps[..n]) && !StoringAt(steps, b)
    requires forall j :: b <= j < n ==> steps[j] != MarkUpdating
    ensures NoMarks(steps, b, n) && !StoringAt(steps, n)
    decreases n
  {
    if b < n {
      assert steps[..n][..n - 1] == steps[..n - 1];
      NoUpdateNoMarks(readers, steps, b, n - 1);
      WriterStoresIff(readers, steps, n - 1);
      StoringStep(steps, n - 1);
    }
  }

  /** Reader r is done with its read, or still holds this first number. */
  ghost predicate Holds(s: Slot, r: nat, first: nat) {
    r < |s.readers| && (s.readers[r].phase.Reading? ==> s.readers[r].phase.first == first)
  }

  lemma HoldsOneStep(s: Slot, step: Step, r: nat, first: nat)
    requires Enabled(s, step) && Holds(s, r, first) && step != BeginRead(r)
    ensures Holds(Next(s, step), r, first)
  {
  }

  /** A reader that began at b and not again since is done, or still holds the number it saw at b. */
  lemma {:induction false} HoldsFirstNumber(readers: nat, steps: seq<Step>, b: nat, n: nat, r: nat)
    requires b < n <= |steps| && Possible(readers, steps[..n]) && Possible(readers, steps[..b])
    requires steps[b] == BeginRead(r) && forall j :: b < j < n ==> steps[j] != BeginRead(r)
    ensures Holds(Run(readers, steps[..n]), r, Run(readers, steps[..b]).number)
    decreases n
  {
    assert steps[..n][..n - 1] == steps[..n - 1];
    if n > b + 1 {
      HoldsFirstNumber(readers, steps, b, n - 1, r);
      HoldsOneStep(Run(readers, steps[..n - 1]), steps[n - 1], r, Run(readers, steps[..b]).number);
    }
  }

  /** No update was being stored at step b, and none has begun since. */
  ghost predicate Undisturbed(steps: seq<Step>, b: nat) {
    b < |steps| && !StoringAt(steps, b) && forall j :: b < j < |steps| ==> steps[j] != MarkUpdating
  }

  /**
    A read that began at step b is accepted, and adds a result, exactly if no update was being
    stored when it began and none began while it lasted.
    */
  lemma ReadIsAcceptedIff(readers: nat, steps: seq<Step>, b: nat, r: nat)
    requires Possible(readers, steps) && Enabled(Run(readers, steps), EndRead(r))
    requires b < |steps| && steps[b] == BeginRead(r) && forall j :: b < j < |steps| ==> steps[j] != BeginRead(r)
    ensures Possible(readers, steps + [EndRead(r)])
    ensures var before := Run(readers, steps).readers[r].results;
      var after := Run(readers, steps + [EndRead(r)]).readers[r].results;
      if Undisturbed(steps, b) then |after| == |before| + 1 && after[..|before|] == before else after == before
  {
    var n := |steps|;
    assert steps[..n] == steps;
    OneMoreStep(readers, steps, EndRead(r));
    PrefixIsPossible(readers, steps, b);
    EveryRunKeepsInvariant(readers, steps[..b]);
    ParityTellsStoring(Run(readers, steps[..b]));
    WriterStoresIff(readers, steps, b);
    HoldsFirstNumber(readers, steps, b, n, r);
    NumberSinceIff(readers, steps, b, n);
    if Undisturbed(steps, b) {
      assert forall j :: b <= j < n ==> steps[j] != MarkUpdating;
      NoUpdateNoMarks(readers, steps, b, n);
    } else if !StoringAt(steps, b) {
      assert !NoMarks(steps, b, n);
    }
  }

  /** A read that can end has begun. */
  lemma {:induction false} EndedReadHasBegun(readers: nat, steps: seq<Step>, r: nat) returns (b: nat)
    requires Possible(readers, steps) && r < |Run(readers, steps).readers|
    requires Run(readers, steps).readers[r].phase.Reading?
    ensures b < |steps| && steps[b] == BeginRead(r) && forall j :: b < j < |steps| ==> steps[j] != BeginRead(r)
    decreases |steps|
  {
    var n := |steps| - 1;
    if steps[n] == BeginRead(r) {
      b := n;
    } else {
      b := EndedReadHasBegun(readers, steps[..n], r);
    }
  }

  // ---- nothing gets stuck --------------------------------------------------------------------

  /** The slot with reader r having loaded k fields of what is stored now. */
  ghost function Loaded(s: Slot, r: nat, k: nat, tradeLoaded: bool): Slot
    requires r < |s.readers| && k <= FIELDS
  {
    WithReader(s, r, s.readers[r].(phase := Reading(s.number, s.fields[..k], tradeLoaded, Completed(s))))
  }

  lemma LoadsOne(s: Slot, r: nat, k: nat, tradeLoaded: bool)
    requires r < |s.readers| && k < FIELDS && (k == BEFORE_TRADE ==> tradeLoaded)
    ensures Enabled(Loaded(s, r, k, tradeLoaded), LoadField(r))
    ensures Next(Loaded(s, r, k, tradeLoaded), LoadField(r)) == Loaded(s, r, k + 1, tradeLoaded)
  {
    assert s.fields[..k] + [s.fields[k]] == s.fields[..k + 1];
  }

  lemma LoadsTrade(s: Slot, r: nat)
    requires r < |s.readers|
    ensures Enabled(Loaded(s, r, BEFORE_TRADE, false), LoadTrade(r))
    ensures Next(Loaded(s, r, BEFORE_TRADE, false), LoadTrade(r)) == Loaded(s, r, BEFORE_TRADE, true)
  {
  }

  lemma {:induction false} LoadsFields(readers: nat, steps: seq<Step>, r: nat, k: nat) returns (more: seq<Step>)
    requires Possible(readers, steps) && r < |Run(readers, steps).readers| && k <= FIELDS
    requires Run(readers, steps).readers[r].phase.ReaderIdle?
    ensures Possible(readers, more) && Run(readers, more) == Loaded(Run(readers, steps), r, k, k > BEFORE_TRADE)
    decreases k
  {
    var s := Run(readers, steps);
    if k == 0 {
      OneMoreStep(readers, steps, BeginRead(r));
      more := steps + [BeginRead(r)];
      assert s.fields[..0] == [];
    } else {
      more := LoadsFields(readers, steps, r, k - 1);
      if k - 1 == BEFORE_TRADE {
        LoadsTrade(s, r);
        OneMoreStep(readers, more, LoadTrade(r));
        more := more + [LoadTrade(r)];
      }
      LoadsOne(s, r, k - 1, k > BEFORE_TRADE);
      OneMoreStep(readers, more, LoadField(r));
      more := more + [LoadField(r)];
    }
  }

  lemma LoadedIsAccepted(s: Slot, r: nat)
    requires Invariant(s) && r < |s.readers| && !s.writer.Storing?
    ensures Enabled(Loaded(s, r, FIELDS, true), EndRead(r))
    ensures Next(Loaded(s, r, FIELDS, true), EndRead(r)).readers[r].results ==
      s.readers[r].results + [Result(s.history[|s.history| - 1], Completed(s), Completed(s))]
  {
    assert s.fields[..FIELDS] == s.fields;
  }

  /** A read that meets no update returns the newest quote. */
  lemma ReadGoesThrough(readers: nat, steps: seq<Step>, r: nat) returns (more: seq<Step>)
    requires Possible(readers, steps) && r < |Run(readers, steps).readers|
    requires Run(readers, steps).readers[r].phase.ReaderIdle? && !Run(readers, steps).writer.Storing?
    ensures Possible(readers, more)
    ensures var s, s' := Run(readers, steps), Run(readers, more);
      && s.history != [] && r < |s'.readers|
      && s'.readers[r].results ==
        s.readers[r].results + [Result(s.history[|s.history| - 1], Completed(s), Completed(s))]
  {
    EveryRunKeepsInvariant(readers, steps);
    LoadedIsAccepted(Run(readers, steps), r);
    more := LoadsFields(readers, steps, r, FIELDS);
    OneMoreStep(readers, more, EndRead(r));
    more := more + [EndRead(r)];
  }

  lemma {:induction false} StoresFields(readers: nat, steps: seq<Step>, q: Quote, k: nat) returns (more: seq<Step>)
    requires Possible(readers, steps) && Run(readers, steps).writer.WriterIdle? && k <= FIELDS
    ensures Possible(readers, more)
    ensures var s, s' := Run(readers, steps), Run(readers, more);
      && s'.writer.Storing? && s'.writer.quote == q && s'.writer.stored == k
      && s'.history == s.history && s'.readers == s.readers
    decreases k
  {
    if k == 0 {
      OneMoreStep(readers, steps, LoadNumber(q));
      OneMoreStep(readers, steps + [LoadNumber(q)], MarkUpdating);
      more := steps + [LoadNumber(q)] + [MarkUpdating];
    } else {
      more := StoresFields(readers, steps, q, k - 1);
      OneMoreStep(readers, more, StoreField);
      more := more + [StoreField];
    }
  }

  /** An idle writer can always complete an update. */
  lemma UpdateGoesThrough(readers: nat, steps: seq<Step>, q: Quote) returns (more: seq<Step>)
    requires Possible(readers, steps) && Run(readers, steps).writer.WriterIdle?
    ensures Possible(readers, more) && Run(readers, more).writer.WriterIdle?
    ensures Run(readers, more).history == Run(readers, steps).history + [q]
  {
    more := StoresFields(readers, steps, q, FIELDS);
    OneMoreStep(readers, more, MarkStable);
    more := more + [MarkStable];
  }

  lemma SomeReaderStepIsEnabled(s: Slot, r: nat)
    requires Invariant(s) && r < |s.readers|
    ensures Enabled(s, BeginRead(r)) || Enabled(s, LoadField(r)) || Enabled(s, LoadTrade(r)) || Enabled(s, EndRead(r))
  {
    assert ReaderFits(s, s.readers[r]);
  }

  lemma {:induction false} ReaderCountNeverChanges(readers: nat, steps: seq<Step>)
    requires Possible(readers, steps)
    ensures |Run(readers, steps).readers| == readers
    decreases |steps|
  {
    if steps != [] {
      ReaderCountNeverChanges(readers, steps[..|steps| - 1]);
    }
  }

  /** The writer never waits for a reader, and no reader for the writer or for another reader. */
  lemma NobodyWaits(readers: nat, steps: seq<Step>, q: Quote, r: nat)
    requires Possible(readers, steps) && r < readers
    ensures var s := Run(readers, steps);
      && (Enabled(s, LoadNumber(q)) || Enabled(s, MarkUpdating) || Enabled(s, StoreField) || Enabled(s, MarkStable))
      && (Enabled(s, BeginRead(r)) || Enabled(s, LoadField(r)) || Enabled(s, LoadTrade(r)) || Enabled(s, EndRead(r)))
  {
    EveryRunKeepsInvariant(readers, steps);
    ReaderCountNeverChanges(readers, steps);
    SomeReaderStepIsEnabled(Run(readers, steps), r);
  }
}
