/**
  The interleaved ring refines a bounded queue: a push takes effect when its tail is stored, a pop
  when its head is stored, and no other step has any effect.
  */
module RingRefinement {
  import opened RingSteps

  datatype QueueStep<T> = Enqueue(item: T) | Dequeue(item: T)

  /** A queue takes an item if it has room and gives away its front. */
  predicate Allowed<T(==)>(size: nat, queue: seq<T>, step: QueueStep<T>) {
    match step
    case Enqueue(_) => |queue| + 1 < size
    case Dequeue(x) => queue != [] && queue[0] == x
  }

  function AfterStep<T>(queue: seq<T>, step: QueueStep<T>): seq<T> {
    match step
    case Enqueue(x) => queue + [x]
    case Dequeue(_) => if queue == [] then [] else queue[1..]
  }

  function Queue<T>(steps: seq<QueueStep<T>>): seq<T>
    decreases |steps|
  {
    if steps == [] then [] else AfterStep(Queue(steps[..|steps| - 1]), steps[|steps| - 1])
  }

  /** A run of the queue: every step is allowed where it is taken. */
  predicate IsQueueRun<T(==)>(size: nat, steps: seq<QueueStep<T>>)
    decreases |steps|
  {
    steps != [] ==>
      && IsQueueRun(size, steps[..|steps| - 1])
      && Allowed(size, Queue(steps[..|steps| - 1]), steps[|steps| - 1])
  }

  /**
    What a step of the ring means for the queue, after the steps before it: storing the tail puts
    in the value handed over last, storing the head gives away the value about to be returned.
    */
  ghost function Effect<T>(buffer: seq<T>, before: seq<Step<T>>, step: Step<T>): seq<QueueStep<T>>
    requires Possible(buffer, before) && Enabled(Run(buffer, before), step)
  {
    match step
    case StoreTail => if HasHanded(before) then [Enqueue(Handed(before))] else []
    case StoreHead => [Dequeue(Run(buffer, before).consumer.value)]
    case _ => []
  }

  ghost function Effects<T>(buffer: seq<T>, steps: seq<Step<T>>): seq<QueueStep<T>>
    requires Possible(buffer, steps)
    decreases |steps|
  {
    if steps == [] then []
    else
      var before := steps[..|steps| - 1];
      Effects(buffer, before) + Effect(buffer, before, steps[|steps| - 1])
  }

  /** The pushes not yet popped. */
  ghost function Waiting<T>(r: Ring<T>): seq<T> {
    if |r.popped| <= |r.pushed| then r.pushed[|r.popped|..] else []
  }

  /** One ring step is no step of the queue, or one allowed step with the same outcome. */
  lemma StepRefines<T>(buffer: seq<T>, before: seq<Step<T>>, step: Step<T>)
    requires buffer != [] && Possible(buffer, before) && Enabled(Run(buffer, before), step)
    ensures var r, effect := Run(buffer, before), Effect(buffer, before, step);
      && (effect == [] <==> !step.StoreTail? && !step.StoreHead?)
      && (effect == [] ==> Waiting(Next(r, step)) == Waiting(r))
      && (effect != [] ==>
           && effect == [effect[0]] && Allowed(|buffer|, Waiting(r), effect[0])
           && Waiting(Next(r, step)) == AfterStep(Waiting(r), effect[0]))
  {
    var r := Run(buffer, before);
    EveryRunKeepsInvariant(buffer, before);
    SlotCountNeverChanges(buffer, before);
    PushedIsWhatWasHanded(buffer, before);
    match step
    case StoreTail =>
      assert Waiting(Next(r, step)) == Waiting(r) + [r.producer.update];
    case StoreHead =>
      assert Waiting(r)[0] == r.pushed[|r.popped|];
      assert Waiting(Next(r, step)) == Waiting(r)[1..];
    case _ =>
      assert Next(r, step).pushed == r.pushed && Next(r, step).popped == r.popped;
  }

  /**
    Every interleaving of ring steps, with whatever outdated views, has the effect of a run of the
    bounded queue, and that queue holds exactly what was pushed and not yet popped.
    */
  lemma {:induction false} RingRefinesQueue<T>(buffer: seq<T>, steps: seq<Step<T>>)
    requires buffer != [] && Possible(buffer, steps)
    ensures IsQueueRun(|buffer|, Effects(buffer, steps))
    ensures Queue(Effects(buffer, steps)) == Waiting(Run(buffer, steps))
    decreases |steps|
  {
    if steps != [] {
      var before, step := steps[..|steps| - 1], steps[|steps| - 1];
      RingRefinesQueue(buffer, before);
      StepRefines(buffer, before, step);
      var done, now := Effects(buffer, before), Effects(buffer, steps);
      if Effect(buffer, before, step) == [] {
        assert now == done;
      } else {
        assert now[..|now| - 1] == done;
      }
    }
  }
}
