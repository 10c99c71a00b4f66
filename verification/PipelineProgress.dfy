/**
  What the pipeline's ledgers stand for, told from the steps alone, and that the loop reaches every
  ring: left to itself it applies everything that was pushed.
  */
module PipelineProgress {
  import opened FastOrderBooks
  import opened Pipeline
  import opened PipelineSteps

  // ---- ledgers -----------------------------------------------------------------------------

  /** The updates handed to push on ring r, in order. */
  function PushedInto(steps: seq<Step>, r: nat): seq<FastUpdate>
    decreases |steps|
  {
    if steps == [] then []
    else
      var step := steps[|steps| - 1];
      PushedInto(steps[..|steps| - 1], r) + if step.Push? && step.ring == r then [step.update] else []
  }

  lemma PushedOneStep(p: Pipe, step: Step, r: nat)
    requires Enabled(p, step) && r < RINGS
    ensures Shape(Next(p, step))
    ensures Next(p, step).pushed[r] == p.pushed[r] + if step.Push? && step.ring == r then [step.update] else []
  {
    match step
    case Push(_, _) =>
    case Pop(_) => assert Next(p, step).pushed == p.pushed;
    case Apply => assert Next(p, step).pushed == p.pushed;
    case Read(_) =>
  }

  lemma {:induction false} PushedIsWhatWasPushed(steps: seq<Step>, r: nat)
    requires Possible(steps) && r < RINGS
    ensures Shape(Run(steps)) && Run(steps).pushed[r] == PushedInto(steps, r)
    decreases |steps|
  {
    if steps != [] {
      PushedIsWhatWasPushed(steps[..|steps| - 1], r);
      PushedOneStep(Run(steps[..|steps| - 1]), steps[|steps| - 1], r);
    }
  }

  /** Whatever the loop and the readers do, an update with a registered symbol can be pushed. */
  lemma PushIsAlwaysPossible(steps: seq<Step>, r: nat, u: FastUpdate)
    requires Possible(steps) && r < RINGS && ValidId(u)
    ensures Possible(steps + [Push(r, u)])
  {
    EveryRunKeepsInvariant(steps);
    assert (steps + [Push(r, u)])[..|steps|] == steps;
  }

  /** The symbols readers asked for, in order. */
  function Asked(steps: seq<Step>): seq<nat>
    decreases |steps|
  {
    if steps == [] then []
    else
      var step := steps[|steps| - 1];
      Asked(steps[..|steps| - 1]) + if step.Read? then [step.symbol] else []
  }

  function SymbolsOf(readings: seq<Reading>): seq<nat> {
    seq(|readings|, k requires 0 <= k < |readings| => readings[k].symbol)
  }

  lemma SymbolsOneMore(readings: seq<Reading>, x: Reading)
    ensures SymbolsOf(readings + [x]) == SymbolsOf(readings) + [x.symbol]
  {
  }

  lemma ReadingsOneStep(p: Pipe, step: Step)
    requires Enabled(p, step)
    ensures SymbolsOf(Next(p, step).readings) == SymbolsOf(p.readings) + if step.Read? then [step.symbol] else []
  {
    match step
    case Read(symbol) => SymbolsOneMore(p.readings, Reading(symbol, |p.trace|, p.books[symbol]));
    case Push(_, _) =>
    case Pop(_) => assert Next(p, step).readings == p.readings;
    case Apply => assert Next(p, step).readings == p.readings;
  }

  /** Every reader gets an answer, for the symbol it asked for. */
  lemma {:induction false} ReadingsAnswerReads(steps: seq<Step>)
    requires Possible(steps)
    ensures SymbolsOf(Run(steps).readings) == Asked(steps)
    decreases |steps|
  {
    if steps != [] {
      var p, step := Run(steps[..|steps| - 1]), steps[|steps| - 1];
      ReadingsAnswerReads(steps[..|steps| - 1]);
      ReadingsOneStep(p, step);
    }
  }

  /** And the answer is up to date: it holds every update applied so far, and the lock is free. */
  lemma ReadIsCurrent(steps: seq<Step>, symbol: nat)
    requires Possible(steps) && Enabled(Run(steps), Read(symbol))
    ensures Run(steps).phase.Collecting?
    ensures Possible(steps + [Read(symbol)])
    ensures Run(steps + [Read(symbol)]).readings == Run(steps).readings +
      [Reading(symbol, |Run(steps).trace|, ApplyUpdates(EMPTY_BOOK, ForSymbol(Run(steps).trace, symbol)))]
  {
    EveryRunKeepsInvariant(steps);
    assert (steps + [Read(symbol)])[..|steps|] == steps;
  }

  /** A length at which the lock was free after some of the steps. */
  ghost predicate WasFree(steps: seq<Step>, cut: nat)
    requires Possible(steps)
  {
    exists n :: 0 <= n <= |steps| && FreeAt(steps, n, cut)
  }

  ghost predicate FreeAt(steps: seq<Step>, n: nat, cut: nat)
    requires n <= |steps|
  {
    Possible(steps[..n]) && Run(steps[..n]).phase.Collecting? && |Run(steps[..n]).trace| == cut
  }

  lemma CutsOneStep(p: Pipe, step: Step, cut: nat)
    requires Enabled(p, step) && cut in Next(p, step).cuts && cut !in p.cuts
    ensures Next(p, step).phase.Collecting? && |Next(p, step).trace| == cut
  {
  }

  /** The cuts are exactly such lengths: no reader can see into a batch. */
  lemma {:induction false} CutsAreFreePoints(steps: seq<Step>, cut: nat)
    requires Possible(steps) && cut in Run(steps).cuts
    ensures WasFree(steps, cut)
    decreases |steps|
  {
    assert steps[..|steps|] == steps;
    if steps == [] {
      assert FreeAt(steps, 0, cut);
    } else {
      var before := steps[..|steps| - 1];
      if cut in Run(before).cuts {
        CutsAreFreePoints(before, cut);
        var n :| 0 <= n <= |before| && FreeAt(before, n, cut);
        assert before[..n] == steps[..n];
        assert FreeAt(steps, n, cut);
      } else {
        CutsOneStep(Run(before), steps[|steps| - 1], cut);
        assert FreeAt(steps, |steps|, cut);
      }
    }
  }

  // ---- the rings take turns ----------------------------------------------------------------

  /** The visit to the current ring ends with this step: nothing was collected, or the last update is applied. */
  predicate EndsVisit(p: Pipe, step: Step)
    requires Enabled(p, step)
  {
    match step
    case Pop(sawEmpty) => sawEmpty && p.count == 0
    case Apply => p.phase.next + 1 == p.count
    case _ => false
  }

  ghost predicate Rotates(p: Pipe, step: Step, p': Pipe)
    requires Enabled(p, step)
  {
    if EndsVisit(p, step) then
      p'.current == (if p.current == 6 then 0 else p.current + 1) && p'.phase == Collecting(0) && p'.count == 0
    else p'.current == p.current && (step.Push? || step.Read? || p'.phase != Collecting(0))
  }

  lemma PopRotates(p: Pipe, sawEmpty: bool)
    requires Invariant(p) && Enabled(p, Pop(sawEmpty))
    ensures Rotates(p, Pop(sawEmpty), Next(p, Pop(sawEmpty)))
  {
    assert RingFits(p, p.current);
  }

  lemma ApplyRotates(p: Pipe)
    requires Invariant(p) && Enabled(p, Apply)
    ensures Rotates(p, Apply, Next(p, Apply))
  {
  }

  /** After a visit to ring r comes ring r + 1, after the last the first, and never in between. */
  lemma VisitsRotate(steps: seq<Step>, step: Step)
    requires Possible(steps) && Enabled(Run(steps), step)
    ensures Rotates(Run(steps), step, Next(Run(steps), step))
  {
    EveryRunKeepsInvariant(steps);
    match step
    case Pop(sawEmpty) => PopRotates(Run(steps), sawEmpty);
    case Apply => ApplyRotates(Run(steps));
    case Push(_, _) =>
    case Read(_) =>
  }

  // ---- everything gets applied -------------------------------------------------------------

  /** A run of the loop alone from p: it pops and applies, nobody pushes or reads. */
  ghost predicate Can(p: Pipe, more: seq<Step>)
    decreases |more|
  {
    more != [] ==> (more[0].Pop? || more[0].Apply?) && Enabled(p, more[0]) && Can(Next(p, more[0]), more[1..])
  }

  ghost function After(p: Pipe, more: seq<Step>): Pipe
    requires Can(p, more)
    decreases |more|
  {
    if more == [] then p else After(Next(p, more[0]), more[1..])
  }

  lemma {:induction false} CanAppend(p: Pipe, a: seq<Step>, b: seq<Step>)
    requires Can(p, a) && Can(After(p, a), b)
    ensures Can(p, a + b) && After(p, a + b) == After(After(p, a), b)
    decreases |a|
  {
    if a == [] {
      assert a + b == b;
    } else {
      CanAppend(Next(p, a[0]), a[1..], b);
      assert (a + b)[1..] == a[1..] + b;
    }
  }

  /** What a run of the loop leaves: the same pushes, at least as much popped, the invariant. */
  ghost predicate Continues(p: Pipe, p': Pipe) {
    && Invariant(p) && Invariant(p') && p'.pushed == p.pushed
    && forall r :: 0 <= r < RINGS ==> p.taken[r] <= p'.taken[r]
  }

  lemma LoopStepContinues(p: Pipe, step: Step)
    requires Invariant(p) && Enabled(p, step) && (step.Pop? || step.Apply?)
    ensures Continues(p, Next(p, step))
  {
    match step
    case Pop(sawEmpty) => PopKeepsInvariant(p, sawEmpty);
    case Apply => ApplyKeepsInvariant(p);
  }

  lemma {:induction false} LoopContinues(p: Pipe, more: seq<Step>)
    requires Invariant(p) && Can(p, more)
    ensures Continues(p, After(p, more))
    decreases |more|
  {
    if more != [] {
      LoopStepContinues(p, more[0]);
      LoopContinues(Next(p, more[0]), more[1..]);
    }
  }

  function RingAfter(r: nat): nat {
    if r == 6 then 0 else r + 1
  }

  /** From the middle of a batch, the rest of it gets applied and the next ring's visit begins. */
  lemma {:induction false} FinishApplying(p: Pipe) returns (more: seq<Step>)
    requires Invariant(p) && p.phase.Applying?
    ensures Can(p, more) && Continues(p, After(p, more))
    ensures After(p, more).phase == Collecting(0) && After(p, more).current == RingAfter(p.current)
    decreases p.count - p.phase.next
  {
    var p' := Next(p, Apply);
    LoopStepContinues(p, Apply);
    if p.phase.next + 1 == p.count {
      more := [Apply];
      assert more[1..] == [];
    } else {
      var rest := FinishApplying(p');
      more := [Apply] + rest;
      assert more[1..] == rest;
    }
    LoopContinues(p, more);
  }

  lemma {:induction false} FinishVisit(p: Pipe) returns (more: seq<Step>)
    requires Invariant(p)
    ensures Can(p, more) && Continues(p, After(p, more))
    ensures After(p, more).phase == Collecting(0) && After(p, more).current == RingAfter(p.current)
    ensures p.phase.Collecting? && p.taken[p.current] < |p.pushed[p.current]| ==>
      p.taken[p.current] < After(p, more).taken[p.current]
    decreases if p.phase.Collecting? then BATCH_SIZE + 1 - p.phase.slot else 0
  {
    if p.phase.Applying? {
      more := FinishApplying(p);
    } else {
      assert RingFits(p, p.current);
      var step := Pop(p.taken[p.current] == |p.pushed[p.current]|);
      var p' := Next(p, step);
      LoopStepContinues(p, step);
      var rest := [];
      if p'.current == p.current {
        rest := FinishVisit(p');
        LoopContinues(p', rest);
      }
      more := [step] + rest;
      assert more[1..] == rest;
      LoopContinues(p, more);
    }
  }

  /** How many rings come before ring r. */
  function Ahead(current: nat, r: nat): nat {
    if current <= r then r - current else if r + 7 >= current then r + 7 - current else 0
  }

  /** The loop reaches the start of a visit to any ring. */
  lemma {:induction false} ReachRing(p: Pipe, r: nat) returns (more: seq<Step>)
    requires Invariant(p) && p.phase == Collecting(0) && r < RINGS
    ensures Can(p, more) && Continues(p, After(p, more))
    ensures After(p, more).phase == Collecting(0) && After(p, more).current == r
    decreases Ahead(p.current, r)
  {
    if p.current == r {
      more := [];
    } else {
      var visit := FinishVisit(p);
      LoopContinues(p, visit);
      var rest := ReachRing(After(p, visit), r);
      CanAppend(p, visit, rest);
      more := visit + rest;
      LoopContinues(p, more);
    }
  }

  lemma {:induction false} DrainRing(p: Pipe, r: nat) returns (more: seq<Step>)
    requires Invariant(p) && p.phase == Collecting(0) && r < RINGS
    ensures Can(p, more) && Continues(p, After(p, more)) && After(p, more).phase == Collecting(0)
    ensures After(p, more).taken[r] == |p.pushed[r]|
    decreases |p.pushed[r]| - p.taken[r]
  {
    assert RingFits(p, r);
    if p.taken[r] == |p.pushed[r]| {
      more := [];
    } else {
      var reach := ReachRing(p, r);
      LoopContinues(p, reach);
      var there := After(p, reach);
      assert RingFits(there, r);
      var visit := [];
      if there.taken[r] < |there.pushed[r]| {
        visit := FinishVisit(there);
      }
      LoopContinues(there, visit);
      CanAppend(p, reach, visit);
      var rest := DrainRing(After(there, visit), r);
      CanAppend(p, reach + visit, rest);
      more := reach + visit + rest;
      LoopContinues(p, more);
    }
  }

  lemma {:induction false} DrainRings(p: Pipe, n: nat) returns (more: seq<Step>)
    requires Invariant(p) && p.phase == Collecting(0) && n <= RINGS
    ensures Can(p, more) && Continues(p, After(p, more)) && After(p, more).phase == Collecting(0)
    ensures forall r :: 0 <= r < n ==> After(p, more).taken[r] == |p.pushed[r]|
    decreases n
  {
    if n == 0 {
      more := [];
    } else {
      var before := DrainRings(p, n - 1);
      LoopContinues(p, before);
      var p' := After(p, before);
      var last := DrainRing(p', n - 1);
      LoopContinues(p', last);
      CanAppend(p, before, last);
      more := before + last;
      LoopContinues(p, more);
      forall r | 0 <= r < n - 1 ensures After(p, more).taken[r] == |p.pushed[r]| {
        assert RingFits(After(p, more), r);
      }
    }
  }

  lemma OneMoreStep(steps: seq<Step>, step: Step)
    requires Possible(steps) && Enabled(Run(steps), step)
    ensures Possible(steps + [step]) && Run(steps + [step]) == Next(Run(steps), step)
  {
    assert (steps + [step])[..|steps|] == steps;
  }

  lemma HeadMoves(steps: seq<Step>, more: seq<Step>)
    requires more != []
    ensures (steps + [more[0]]) + more[1..] == steps + more
  {
  }

  /** The steps lead from the start to p. */
  ghost predicate Leads(steps: seq<Step>, p: Pipe) {
    Possible(steps) && Run(steps) == p
  }

  lemma LeadsOneStep(steps: seq<Step>, p: Pipe, step: Step)
    requires Leads(steps, p) && Enabled(p, step)
    ensures Leads(steps + [step], Next(p, step))
  {
    OneMoreStep(steps, step);
  }

  lemma {:induction false} LoopRunIsRun(steps: seq<Step>, p: Pipe, more: seq<Step>)
    requires Leads(steps, p) && Can(p, more)
    ensures Leads(steps + more, After(p, more))
    decreases |more|
  {
    if more == [] {
      assert steps + more == steps;
    } else {
      HeadMoves(steps, more);
      LeadsOneStep(steps, p, more[0]);
      LoopRunIsRun(steps + [more[0]], Next(p, more[0]), more[1..]);
    }
  }

  lemma {:induction false} LoopStepsOnly(p: Pipe, more: seq<Step>)
    requires Can(p, more)
    ensures forall i :: 0 <= i < |more| ==> more[i].Pop? || more[i].Apply?
    decreases |more|
  {
    if more != [] {
      LoopStepsOnly(Next(p, more[0]), more[1..]);
      assert forall i :: 0 < i < |more| ==> more[i] == more[1..][i - 1];
    }
  }

  /**
    From every reachable state, pops and applies alone bring the loop to a state where all that was
    ever pushed into any of the rings is applied, in order, once.
    */
  lemma EverythingGetsApplied(steps: seq<Step>) returns (more: seq<Step>)
    requires Possible(steps)
    ensures Possible(steps + more)
    ensures forall i :: 0 <= i < |more| ==> more[i].Pop? || more[i].Apply?
    ensures forall r :: 0 <= r < 7 ==>
      FromRing(Run(steps + more).trace, r) == Run(steps + more).pushed[r] == PushedInto(steps, r)
  {
    EveryRunKeepsInvariant(steps);
    var p := Run(steps);
    var visit := FinishVisit(p);
    LoopContinues(p, visit);
    var there := After(p, visit);
    var rest := DrainRings(there, RINGS);
    LoopContinues(there, rest);
    CanAppend(p, visit, rest);
    more := visit + rest;
    LoopRunIsRun(steps, p, more);
    LoopStepsOnly(p, more);
    forall r | 0 <= r < 7
      ensures FromRing(Run(steps + more).trace, r) == Run(steps + more).pushed[r] == PushedInto(steps, r)
    {
      TakenIsAppliedOrPending(Run(steps + more), r);
      PushedIsWhatWasPushed(steps, r);
    }
  }
}
