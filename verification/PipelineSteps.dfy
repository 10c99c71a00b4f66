/**
  The consumer loop among its producers and readers, one pop, one applied update, one push or
  one read per step, in every interleaving. Each ring is the queue the ring steps justify.
  */
module PipelineSteps {
  import opened Levels
  import opened FastOrderBooks
  import opened DepthExactness
  import opened Wrappers
  import opened Pipeline

  /** Collecting: about to pop into this slot. Applying: holding the write lock, about to apply it. */
  datatype Phase = Collecting(slot: nat) | Applying(next: nat)

  /** An applied update and the ring it came from. */
  datatype Entry = Entry(ring: nat, update: FastUpdate)

  /** A book a reader took, and the length of the trace when it did. */
  datatype Reading = Reading(symbol: nat, cut: nat, book: Book)

  /**
    pushed[r] is everything ever pushed into ring r and taken[r] how much of it has been popped;
    trace lists the applied updates, cuts its lengths at which the write lock was released.
    */
  datatype Pipe = Pipe(
    pushed: seq<seq<FastUpdate>>, taken: seq<nat>, current: nat, phase: Phase, count: nat,
    batch: seq<Option<FastUpdate>>, books: seq<Book>,
    trace: seq<Entry>, cuts: set<nat>, readings: seq<Reading>)

  /** Pop(false) takes the next update; Pop(true) finds the ring empty, or sees an outdated tail. */
  datatype Step = Push(ring: nat, update: FastUpdate) | Pop(sawEmpty: bool) | Apply | Read(symbol: nat)

  predicate Shape(p: Pipe) {
    && |p.pushed| == RINGS && |p.taken| == RINGS && p.current < RINGS
    && |p.batch| == BATCH_SIZE && |p.books| == MAX_SYMBOLS
  }

  predicate Enabled(p: Pipe, step: Step) {
    Shape(p) &&
    match step
    case Push(r, u) => r < RINGS && ValidId(u)
    case Pop(sawEmpty) =>
      && p.phase.Collecting? && p.phase.slot < BATCH_SIZE
      && (!sawEmpty ==> p.taken[p.current] < |p.pushed[p.current]|)
    case Apply => p.phase.Applying? && p.phase.next < p.count && p.phase.next < BATCH_SIZE
      && (p.batch[p.phase.next].Some? ==> p.batch[p.phase.next].value.symbolId < MAX_SYMBOLS)
    case Read(symbol) => symbol < MAX_SYMBOLS && p.phase.Collecting?
  }

  function NextRing(p: Pipe): Pipe {
    p.(current := (p.current + 1) % RINGS, phase := Collecting(0), count := 0)
  }

  /** After the last pop of a visit: take the lock if there is anything to apply. */
  function Collected(p: Pipe): Pipe {
    if p.count == 0 then NextRing(p) else p.(phase := Applying(0))
  }

  /** The lock is released after the last slot; that is where a reader can see the books. */
  function Released(p: Pipe): Pipe {
    NextRing(p.(cuts := p.cuts + {|p.trace|}))
  }

  function Next(p: Pipe, step: Step): Pipe
    requires Enabled(p, step)
  {
    match step
    case Push(r, u) => p.(pushed := p.pushed[r := p.pushed[r] + [u]])
    case Pop(sawEmpty) =>
      var slot := p.phase.slot;
      if sawEmpty then Collected(p.(batch := p.batch[slot := None]))
      else
        var u := p.pushed[p.current][p.taken[p.current]];
        var popped := p.(taken := p.taken[p.current := p.taken[p.current] + 1],
                         phase := Collecting(slot + 1));
        var stored :=
          if ValidId(u) then popped.(batch := p.batch[slot := Some(u)], count := p.count + 1)
          else popped.(batch := p.batch[slot := None]);
        if slot + 1 == BATCH_SIZE then Collected(stored) else stored
    case Apply =>
      var i := p.phase.next;
      var applied :=
        match p.batch[i]
        case None => p.(phase := Applying(i + 1))
        case Some(u) => p.(books := ApplyTo(p.books, u), trace := p.trace + [Entry(p.current, u)],
                           phase := Applying(i + 1));
      if i + 1 == p.count then Released(applied) else applied
    case Read(symbol) =>
      p.(readings := p.readings + [Reading(symbol, |p.trace|, p.books[symbol])])
  }

  /** The updates of the trace that came from one ring. */
  function FromRing(trace: seq<Entry>, r: nat): seq<FastUpdate>
    decreases |trace|
  {
    if trace == [] then []
    else
      var e := trace[|trace| - 1];
      FromRing(trace[..|trace| - 1], r) + if e.ring == r then [e.update] else []
  }

  /** The updates of the trace for one symbol. */
  function ForSymbol(trace: seq<Entry>, symbol: nat): seq<FastUpdate>
    decreases |trace|
  {
    if trace == [] then []
    else
      var e := trace[|trace| - 1];
      ForSymbol(trace[..|trace| - 1], symbol) + if e.update.symbolId == symbol then [e.update] else []
  }

  /** What has been popped from ring r but not yet applied. */
  ghost function Pending(p: Pipe, r: nat): seq<FastUpdate>
    requires Shape(p)
  {
    if r != p.current then []
    else
      var lo, hi := if p.phase.Applying? then p.phase.next else 0,
                    if p.phase.Applying? then p.count else p.phase.slot;
      if lo <= hi <= |p.batch| && (forall i :: lo <= i < hi ==> p.batch[i].Some?) then
        seq(hi - lo, i requires 0 <= i < hi - lo => p.batch[lo + i].value)
      else []
  }

  ghost predicate BatchFits(p: Pipe)
    requires Shape(p)
  {
    && p.count <= BATCH_SIZE
    && (p.phase.Collecting? ==> p.phase.slot == p.count < BATCH_SIZE)
    && (p.phase.Applying? ==> p.phase.next < p.count)
    && (forall i :: 0 <= i < p.count ==> p.batch[i].Some? && ValidId(p.batch[i].value))
  }

  ghost predicate RingFits(p: Pipe, r: nat)
    requires Shape(p) && r < RINGS
  {
    && p.taken[r] <= |p.pushed[r]| && AllValid(p.pushed[r])
    && p.pushed[r][..p.taken[r]] == FromRing(p.trace, r) + Pending(p, r)
  }

  ghost predicate BooksFit(p: Pipe)
    requires Shape(p)
  {
    forall symbol :: 0 <= symbol < MAX_SYMBOLS ==>
      p.books[symbol] == ApplyUpdates(EMPTY_BOOK, ForSymbol(p.trace, symbol))
  }

  ghost predicate ReadingFits(p: Pipe, x: Reading) {
    && x.cut in p.cuts && x.cut <= |p.trace|
    && x.book == ApplyUpdates(EMPTY_BOOK, ForSymbol(p.trace[..x.cut], x.symbol))
  }

  ghost predicate Invariant(p: Pipe) {
    && Shape(p) && BatchFits(p) && BooksFit(p)
    && (forall r :: 0 <= r < RINGS ==> RingFits(p, r))
    && (p.phase.Collecting? ==> |p.trace| in p.cuts)
    && (forall k :: 0 <= k < |p.readings| ==> ReadingFits(p, p.readings[k]))
  }

  function Start(): Pipe {
    Pipe(seq(RINGS, _ => []), seq(RINGS, _ => 0), 0, Collecting(0), 0, seq(BATCH_SIZE, _ => None),
         seq(MAX_SYMBOLS, _ => EMPTY_BOOK), [], {0}, [])
  }

  lemma PushKeepsInvariant(p: Pipe, r: nat, u: FastUpdate)
    requires Invariant(p) && Enabled(p, Push(r, u))
    ensures Invariant(Next(p, Push(r, u)))
  {
    var p' := Next(p, Push(r, u));
    forall q | 0 <= q < RINGS ensures RingFits(p', q) {
      assert RingFits(p, q);
      assert Pending(p', q) == Pending(p, q);
      assert p'.pushed[q][..p'.taken[q]] == p.pushed[q][..p.taken[q]];
    }
    forall k | 0 <= k < |p'.readings| ensures ReadingFits(p', p'.readings[k]) {
      assert ReadingFits(p, p.readings[k]);
    }
  }

  lemma CollectedKeepsRings(p: Pipe, q: nat)
    requires Shape(p) && p.phase.Collecting? && p.phase.slot == p.count <= BATCH_SIZE && q < RINGS
    requires forall i :: 0 <= i < p.count ==> p.batch[i].Some?
    ensures Shape(Collected(p)) && Pending(Collected(p), q) == Pending(p, q)
  {
  }

  /** Popping adds the next update of the current ring to what is pending, and nothing else. */
  lemma PopAddsPending(p: Pipe, sawEmpty: bool, q: nat)
    requires Shape(p) && BatchFits(p) && Enabled(p, Pop(sawEmpty)) && q < RINGS
    requires p.taken[p.current] <= |p.pushed[p.current]| && AllValid(p.pushed[p.current])
    ensures Shape(Next(p, Pop(sawEmpty)))
    ensures Pending(Next(p, Pop(sawEmpty)), q) == Pending(p, q) +
      if q == p.current && !sawEmpty then [p.pushed[q][p.taken[q]]] else []
  {
    var c, slot := p.current, p.phase.slot;
    if sawEmpty {
      var cleared := p.(batch := p.batch[slot := None]);
      assert Pending(cleared, q) == Pending(p, q);
      CollectedKeepsRings(cleared, q);
    } else {
      var u := p.pushed[c][p.taken[c]];
      var stored := p.(taken := p.taken[c := p.taken[c] + 1], phase := Collecting(slot + 1),
                       batch := p.batch[slot := Some(u)], count := p.count + 1);
      if q == c {
        assert Pending(stored, c) == Pending(p, c) + [u];
      }
      CollectedKeepsRings(stored, q);
    }
  }

  lemma PopKeepsInvariant(p: Pipe, sawEmpty: bool)
    requires Invariant(p) && Enabled(p, Pop(sawEmpty))
    ensures Invariant(Next(p, Pop(sawEmpty)))
  {
    var p' := Next(p, Pop(sawEmpty));
    assert RingFits(p, p.current);
    forall q | 0 <= q < RINGS ensures RingFits(p', q) {
      assert RingFits(p, q);
      PopAddsPending(p, sawEmpty, q);
      if q == p.current && !sawEmpty {
        assert p.pushed[q][..p.taken[q] + 1] == p.pushed[q][..p.taken[q]] + [p.pushed[q][p.taken[q]]];
      }
    }
    forall k | 0 <= k < |p'.readings| ensures ReadingFits(p', p'.readings[k]) {
      assert ReadingFits(p, p.readings[k]);
    }
  }

  lemma ReadingsSurviveApply(p: Pipe, p': Pipe, e: Entry)
    requires forall k :: 0 <= k < |p.readings| ==> ReadingFits(p, p.readings[k])
    requires p'.trace == p.trace + [e] && p.cuts <= p'.cuts && p'.readings == p.readings
    ensures forall k :: 0 <= k < |p'.readings| ==> ReadingFits(p', p'.readings[k])
  {
    forall k | 0 <= k < |p'.readings| ensures ReadingFits(p', p'.readings[k]) {
      var x := p.readings[k];
      assert ReadingFits(p, x);
      assert p'.trace[..x.cut] == p.trace[..x.cut];
    }
  }

  lemma ApplyKeepsBooks(p: Pipe, p': Pipe, e: Entry)
    requires Shape(p) && Shape(p') && BooksFit(p) && ValidId(e.update)
    requires p'.trace == p.trace + [e] && p'.books == ApplyTo(p.books, e.update)
    ensures BooksFit(p')
  {
    forall symbol | 0 <= symbol < MAX_SYMBOLS
      ensures p'.books[symbol] == ApplyUpdates(EMPTY_BOOK, ForSymbol(p'.trace, symbol))
    {
      assert p'.trace[..|p'.trace| - 1] == p.trace;
      var before := ForSymbol(p.trace, symbol);
      if symbol == e.update.symbolId {
        assert (before + [e.update])[..|before|] == before;
      } else {
        assert before + [] == before;
      }
    }
  }

  lemma FromRingAppends(trace: seq<Entry>, e: Entry, r: nat)
    ensures FromRing(trace + [e], r) == FromRing(trace, r) + if e.ring == r then [e.update] else []
  {
    assert (trace + [e])[..|trace + [e]| - 1] == trace;
  }

  /** Applying takes the first pending update of the current ring, and of no other. */
  lemma ApplyTakesPending(p: Pipe, q: nat)
    requires Shape(p) && BatchFits(p) && Enabled(p, Apply) && q < RINGS
    ensures Shape(Next(p, Apply))
    ensures Pending(p, q) == (if q == p.current then [p.batch[p.phase.next].value] else []) + Pending(Next(p, Apply), q)
  {
    if q == p.current && p.phase.next + 1 < p.count {
      var rest := Pending(Next(p, Apply), q);
      assert Pending(p, q)[1..] == rest;
    }
  }

  lemma RingStillFits(p: Pipe, p': Pipe, e: Entry, q: nat)
    requires Shape(p) && Shape(p') && q < RINGS && RingFits(p, q)
    requires p'.pushed == p.pushed && p'.taken == p.taken && p'.trace == p.trace + [e]
    requires Pending(p, q) == (if q == e.ring then [e.update] else []) + Pending(p', q)
    ensures RingFits(p', q)
  {
    FromRingAppends(p.trace, e, q);
    var applied, one, rest := FromRing(p.trace, q), if q == e.ring then [e.update] else [], Pending(p', q);
    assert applied + (one + rest) == (applied + one) + rest;
  }

  lemma ApplyKeepsInvariant(p: Pipe)
    requires Invariant(p) && Enabled(p, Apply)
    ensures Invariant(Next(p, Apply))
  {
    var p' := Next(p, Apply);
    var e := Entry(p.current, p.batch[p.phase.next].value);
    assert p'.trace == p.trace + [e];
    forall q | 0 <= q < RINGS ensures RingFits(p', q) {
      ApplyTakesPending(p, q);
      RingStillFits(p, p', e, q);
    }
    ApplyKeepsBooks(p, p', e);
    ReadingsSurviveApply(p, p', e);
  }

  lemma ReadKeepsInvariant(p: Pipe, symbol: nat)
    requires Invariant(p) && Enabled(p, Read(symbol))
    ensures Invariant(Next(p, Read(symbol)))
  {
    var p' := Next(p, Read(symbol));
    forall q | 0 <= q < RINGS ensures RingFits(p', q) {
      assert RingFits(p, q);
    }
    assert p.trace[..|p.trace|] == p.trace;
    forall k | 0 <= k < |p'.readings| ensures ReadingFits(p', p'.readings[k]) {
      if k < |p.readings| {
        assert ReadingFits(p, p.readings[k]);
      }
    }
  }

  function Run(steps: seq<Step>): Pipe
    requires Possible(steps)
    decreases |steps|, 1
  {
    if steps == [] then Start() else Next(Run(steps[..|steps| - 1]), steps[|steps| - 1])
  }

  predicate Possible(steps: seq<Step>)
    decreases |steps|, 0
  {
    steps != [] ==>
      Possible(steps[..|steps| - 1]) && Enabled(Run(steps[..|steps| - 1]), steps[|steps| - 1])
  }

  lemma {:induction false} EveryRunKeepsInvariant(steps: seq<Step>)
    requires Possible(steps)
    ensures Invariant(Run(steps))
    decreases |steps|
  {
    if steps != [] {
      var p := Run(steps[..|steps| - 1]);
      EveryRunKeepsInvariant(steps[..|steps| - 1]);
      match steps[|steps| - 1]
      case Push(r, u) => PushKeepsInvariant(p, r, u);
      case Pop(sawEmpty) => PopKeepsInvariant(p, sawEmpty);
      case Apply => ApplyKeepsInvariant(p);
      case Read(symbol) => ReadKeepsInvariant(p, symbol);
    }
  }

  lemma TakenIsAppliedOrPending(p: Pipe, r: nat)
    requires Invariant(p) && r < RINGS
    ensures p.taken[r] <= |p.pushed[r]| && p.pushed[r][..p.taken[r]] == FromRing(p.trace, r) + Pending(p, r)
    ensures r != p.current || p.phase == Collecting(0) ==> p.pushed[r][..p.taken[r]] == FromRing(p.trace, r)
    ensures FromRing(p.trace, r) <= p.pushed[r]
  {
    assert RingFits(p, r);
    var applied, taken := FromRing(p.trace, r), p.pushed[r][..p.taken[r]];
    assert applied == taken[..|applied|] == p.pushed[r][..|applied|];
    if r != p.current || p.phase == Collecting(0) {
      assert Pending(p, r) == [];
      assert applied + [] == applied;
    }
  }

  /**
    The trace interleaves prefixes of what was pushed into each ring, in push order, nothing
    lost or repeated: what was taken is what was applied, followed by what the current batch
    still holds.
    */
  lemma TraceInterleavesPushes(steps: seq<Step>, r: nat)
    requires Possible(steps) && r < RINGS
    ensures var p := Run(steps);
      && Shape(p) && p.taken[r] <= |p.pushed[r]|
      && p.pushed[r][..p.taken[r]] == FromRing(p.trace, r) + Pending(p, r)
      && (r != p.current || p.phase == Collecting(0) ==> p.pushed[r][..p.taken[r]] == FromRing(p.trace, r))
      && FromRing(p.trace, r) <= p.pushed[r]
  {
    EveryRunKeepsInvariant(steps);
    TakenIsAppliedOrPending(Run(steps), r);
  }

  /**
    Every book a reader got is the fold of one symbol's updates over the trace, cut where the
    write lock was free, so no reader ever sees part of a batch.
    */
  lemma ReadersSeeBatchBoundaries(steps: seq<Step>, k: nat)
    requires Possible(steps) && k < |Run(steps).readings|
    ensures var p := Run(steps); var x := p.readings[k];
      && x.cut in p.cuts && x.cut <= |p.trace|
      && x.book == ApplyUpdates(EMPTY_BOOK, ForSymbol(p.trace[..x.cut], x.symbol))
  {
    EveryRunKeepsInvariant(steps);
    assert ReadingFits(Run(steps), Run(steps).readings[k]);
  }

  /** Put together with the depth bound: what a reader got is the true top of the symbol's book. */
  lemma ReadersSeeTheTopOfTheBook(steps: seq<Step>, k: nat, s: Side)
    requires Possible(steps) && k < |Run(steps).readings|
    ensures var p := Run(steps); var x := p.readings[k];
      x.cut <= |p.trace| &&
      var levels := AllLevels(s, Advancing(ForSymbol(p.trace[..x.cut], x.symbol)));
      var n := ExactDepth(Deletes(levels));
      && GoodSide(s, BookSide(s, x.book))
      && Take(BookSide(s, x.book), n) == Take(ApplyLevels(s, [], levels), n)
  {
    ReadersSeeBatchBoundaries(steps, k);
    var p := Run(steps);
    var x := p.readings[k];
    BookDepthExact(s, ForSymbol(p.trace[..x.cut], x.symbol));
    RunKeepsSidesGood(EMPTY_BOOK, ForSymbol(p.trace[..x.cut], x.symbol));
  }
}
