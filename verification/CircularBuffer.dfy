/**
  The overwrite-oldest circular buffer: pushing into a full buffer drops the oldest item. Slots
  outside the live window are empty.
  */
module CircularBuffers {
  import opened Wrapping
  import opened Wrappers

  /** The last n items, or all of them if there are fewer. */
  function Last<T>(s: seq<T>, n: nat): seq<T> {
    if |s| <= n then s else s[|s| - n..]
  }

  function Min(a: nat, b: nat): nat {
    if a <= b then a else b
  }

  /** The slots hold contents from head on, and nothing else. */
  ghost predicate Window<T>(slots: seq<Option<T>>, head: nat, contents: seq<T>) {
    && head < |slots| && |contents| <= |slots|
    && (forall i :: 0 <= i < |contents| ==> slots[Slot(head, i, |slots|)] == Some(contents[i]))
    && (forall i :: |contents| <= i < |slots| ==> slots[Slot(head, i, |slots|)] == None)
  }

  lemma AppendToWindow<T>(slots: seq<Option<T>>, head: nat, contents: seq<T>, x: T)
    requires Window(slots, head, contents) && |contents| < |slots|
    ensures Window(slots[Slot(head, |contents|, |slots|) := Some(x)], head, contents + [x])
  {
  }

  lemma LastWhenFull<T>(s: seq<T>, x: T)
    requires s != []
    ensures Last(s + [x], |s|) == s[1..] + [x]
  {
  }

  lemma OverwriteOldest<T>(slots: seq<Option<T>>, head: nat, contents: seq<T>, x: T)
    requires Window(slots, head, contents) && |contents| == |slots|
    ensures Window(slots[head := Some(x)], Slot(head, 1, |slots|), contents[1..] + [x])
  {
    forall i | 0 <= i < |slots| - 1
      ensures slots[head := Some(x)][Slot(Slot(head, 1, |slots|), i, |slots|)] == Some(contents[i + 1])
    {
      assert Slot(Slot(head, 1, |slots|), i, |slots|) == Slot(head, i + 1, |slots|);
    }
  }

  /** Where the window starts after a push: one further on if it was full. */
  function HeadAfter(head: nat, size: nat, n: nat): nat
    requires head < n
  {
    if size == n then Slot(head, 1, n) else head
  }

  /** Storing an item at the slot behind the contents, over the oldest one if the window is full. */
  lemma PushedWindow<T>(slots: seq<Option<T>>, head: nat, contents: seq<T>, x: T)
    requires Window(slots, head, contents)
    ensures Window(slots[Slot(head, |contents|, |slots|) := Some(x)], HeadAfter(head, |contents|, |slots|),
                   Last(contents + [x], |slots|))
  {
    if |contents| == |slots| {
      OverwriteOldest(slots, head, contents, x);
      LastWhenFull(contents, x);
    } else {
      AppendToWindow(slots, head, contents, x);
    }
  }

  lemma RemoveOldest<T>(slots: seq<Option<T>>, head: nat, contents: seq<T>)
    requires Window(slots, head, contents) && contents != []
    ensures slots[head] == Some(contents[0])
    ensures Window(slots[head := None], Slot(head, 1, |slots|), contents[1..])
    ensures contents == [contents[0]] + contents[1..]
    ensures Slot(head, |contents|, |slots|) == Slot(Slot(head, 1, |slots|), |contents| - 1, |slots|)
  {
    var n, next := |slots|, Slot(head, 1, |slots|);
    assert slots[Slot(head, 0, n)] == Some(contents[0]);
    forall i | 0 <= i < n
      ensures slots[head := None][Slot(next, i, n)] == if i < |contents| - 1 then Some(contents[i + 1]) else None
    {
      assert Slot(next, i, n) == if i + 1 < n then Slot(head, i + 1, n) else head;
    }
  }

  class CircularBuffer<T(==)> {
    const buffer: array<Option<T>>
    const capacity: nat
    var head: nat
    var tail: nat
    var size: nat
    ghost var Contents: seq<T>

    ghost predicate Valid()
      reads this, buffer
    {
      && 0 < capacity == buffer.Length && size == |Contents| && Window(buffer[..], head, Contents)
      && tail == Slot(head, size, capacity)
    }

    /** A capacity of 0 would divide by zero on the first push. */
    constructor (capacity: nat)
      requires capacity > 0
      ensures Valid() && fresh(buffer) && this.capacity == capacity && Contents == []
    {
      buffer := new Option<T>[capacity](_ => None);
      this.capacity := capacity;
      head, tail, size, Contents := 0, 0, 0, [];
    }

    method Push(item: T) returns (ok: bool)
      requires Valid()
      modifies this`head, this`tail, this`size, this`Contents, buffer
      ensures Valid() && ok
      ensures Contents == Last(old(Contents) + [item], capacity) == After(capacity, old(Contents), Operation.Push(item))
    {
      WrapOnce(head + 1, capacity);
      WrapOnce(tail + 1, capacity);
      PushedWindow(buffer[..], head, Contents, item);
      ghost var slots, start := buffer[..][tail := Some(item)], HeadAfter(head, size, capacity);
      Contents := Last(Contents + [item], capacity);
      if size == capacity {
        head := (head + 1) % capacity;
      } else {
        size := size + 1;
      }
      buffer[tail] := Some(item);
      tail := (tail + 1) % capacity;
      assert buffer[..] == slots && head == start;
      ok := true;
    }

    method Pop() returns (item: Option<T>)
      requires Valid()
      modifies this`head, this`size, this`Contents, buffer
      ensures Valid()
      ensures item == if old(Contents) == [] then None else Some(old(Contents)[0])
      ensures old(Contents) == if item.None? then [] else [item.value] + Contents
      ensures Contents == After(capacity, old(Contents), Operation.Pop)
    {
      if size == 0 {
        return None;
      }
      WrapOnce(head + 1, capacity);
      RemoveOldest(buffer[..], head, Contents);
      ghost var slots, start := buffer[..][head := None], Slot(head, 1, capacity);
      Contents := Contents[1..];
      item := buffer[head];
      buffer[head] := None;
      head := (head + 1) % capacity;
      size := size - 1;
      assert buffer[..] == slots && head == start;
    }

    method Clear()
      requires Valid()
      modifies this`head, this`tail, this`size, this`Contents, buffer
      ensures Valid() && Contents == [] == After(capacity, old(Contents), Operation.Clear)
    {
      head, tail, size, Contents := 0, 0, 0, [];
      for i := 0 to buffer.Length
        invariant head == tail == size == 0 && Contents == []
        invariant forall j :: 0 <= j < i ==> buffer[j] == None
      {
        buffer[i] := None;
      }
    }

    /** The first min(n, len) items, oldest first. */
    method Drain(n: nat) returns (items: seq<T>)
      requires Valid()
      modifies this`head, this`size, this`Contents, buffer
      ensures Valid()
      ensures items == old(Contents)[..Min(n, |old(Contents)|)]
      ensures old(Contents) == items + Contents && |items| == Min(n, |old(Contents)|)
      ensures Contents == After(capacity, old(Contents), Operation.Drain(n))
    {
      items := [];
      var count := Min(n, size);
      for i := 0 to count
        invariant Valid() && i <= count <= |old(Contents)|
        invariant items == old(Contents)[..i] && Contents == old(Contents)[i..]
      {
        var item := Pop();
        if item.Some? {
          items := items + [item.value];
        } else {
          break;
        }
      }
    }
  }

  // ---- runs ------------------------------------------------------------------------------

  datatype Operation<T> = Push(item: T) | Pop | Drain(n: nat) | Clear

  /** What one operation does to the contents of a buffer of this capacity. */
  function After<T>(capacity: nat, s: seq<T>, op: Operation<T>): seq<T> {
    match op
    case Push(x) => Last(s + [x], capacity)
    case Pop => if s == [] then [] else s[1..]
    case Drain(n) => s[Min(n, |s|)..]
    case Clear => []
  }

  function Run<T>(capacity: nat, ops: seq<Operation<T>>): seq<T>
    decreases |ops|
  {
    if ops == [] then [] else After(capacity, Run(capacity, ops[..|ops| - 1]), ops[|ops| - 1])
  }

  /** What one operation does to the unbounded queue. */
  function IdealAfter<T>(q: seq<T>, op: Operation<T>): seq<T> {
    match op
    case Push(x) => q + [x]
    case Pop => if q == [] then [] else q[1..]
    case Drain(n) => q[Min(n, |q|)..]
    case Clear => []
  }

  function Ideal<T>(ops: seq<Operation<T>>): seq<T>
    decreases |ops|
  {
    if ops == [] then [] else IdealAfter(Ideal(ops[..|ops| - 1]), ops[|ops| - 1])
  }

  function Pushed<T>(ops: seq<Operation<T>>): seq<T>
    decreases |ops|
  {
    if ops == [] then []
    else Pushed(ops[..|ops| - 1]) + if ops[|ops| - 1].Push? then [ops[|ops| - 1].item] else []
  }

  lemma SuffixOfLast<T>(p: seq<T>, s: seq<T>, k: nat)
    requires |s| <= |p| && s == Last(p, |s|) && k <= |s|
    ensures s[|s| - k..] == Last(p, k)
  {
  }

  lemma PushedOntoLast<T>(p: seq<T>, s: seq<T>, x: T)
    requires |s| <= |p| && s == Last(p, |s|)
    ensures s + [x] == Last(p + [x], |s| + 1)
  {
  }

  /** Keeping only the last items early does not change which are last. */
  lemma LastOfPush<T>(q: seq<T>, x: T, n: nat)
    ensures Last(Last(q, n) + [x], n) == Last(q + [x], n)
  {
    var kept := |q| - |Last(q, n)|;
    assert Last(q, n) + [x] == (q + [x])[kept..];
  }

  /** s is the last |s| of the items p. */
  ghost predicate IsLatest<T>(s: seq<T>, p: seq<T>) {
    |s| <= |p| && s == Last(p, |s|)
  }

  lemma PushIsLatest<T>(capacity: nat, p: seq<T>, s: seq<T>, x: T)
    requires IsLatest(s, p) && |s| <= capacity
    ensures IsLatest(Last(s + [x], capacity), p + [x])
  {
    PushedOntoLast(p, s, x);
    SuffixOfLast(p + [x], s + [x], Min(capacity, |s| + 1));
  }

  lemma AfterIsLatest<T>(capacity: nat, p: seq<T>, s: seq<T>, op: Operation<T>)
    requires IsLatest(s, p) && |s| <= capacity
    ensures |After(capacity, s, op)| <= capacity
    ensures IsLatest(After(capacity, s, op), if op.Push? then p + [op.item] else p)
  {
    match op
    case Push(x) => PushIsLatest(capacity, p, s, x);
    case Pop => SuffixOfLast(p, s, if s == [] then 0 else |s| - 1);
    case Drain(n) => SuffixOfLast(p, s, |s| - Min(n, |s|));
    case Clear => SuffixOfLast(p, s, 0);
  }

  /** After every run the buffer holds the most recent pushes, at most capacity of them. */
  lemma {:induction false} ContentsAreTheLatestPushes<T>(capacity: nat, ops: seq<Operation<T>>)
    ensures |Run(capacity, ops)| <= capacity
    ensures IsLatest(Run(capacity, ops), Pushed(ops))
    decreases |ops|
  {
    if ops != [] {
      var before, op := ops[..|ops| - 1], ops[|ops| - 1];
      ContentsAreTheLatestPushes(capacity, before);
      AfterIsLatest(capacity, Pushed(before), Run(capacity, before), op);
      if !op.Push? {
        assert Pushed(ops) == Pushed(before);
      }
    }
  }

  /** No item has been dropped so far: the unbounded queue never outgrew the buffer. */
  ghost predicate NeverOverflows<T>(capacity: nat, ops: seq<Operation<T>>) {
    forall n :: 0 <= n <= |ops| ==> |Ideal(ops[..n])| <= capacity
  }

  /** Pushing only, the buffer is the last capacity items of the unbounded queue. */
  lemma {:induction false} PushesKeepTheLast<T>(capacity: nat, ops: seq<Operation<T>>)
    requires forall i :: 0 <= i < |ops| ==> ops[i].Push?
    ensures Run(capacity, ops) == Last(Ideal(ops), capacity)
    decreases |ops|
  {
    if ops != [] {
      var before, x := ops[..|ops| - 1], ops[|ops| - 1].item;
      PushesKeepTheLast(capacity, before);
      LastOfPush(Ideal(before), x, capacity);
    }
  }

  /** Without overflow it is the unbounded queue itself. */
  lemma {:induction false} WithoutOverflowNothingIsLost<T>(capacity: nat, ops: seq<Operation<T>>)
    requires NeverOverflows(capacity, ops)
    ensures Run(capacity, ops) == Ideal(ops)
    decreases |ops|
  {
    if ops != [] {
      var before := ops[..|ops| - 1];
      forall n | 0 <= n <= |before| ensures |Ideal(before[..n])| <= capacity {
        assert before[..n] == ops[..n];
      }
      WithoutOverflowNothingIsLost(capacity, before);
      assert ops[..|ops|] == ops;
    }
  }

  /**
    From a buffer that holds the last capacity items of the unbounded queue q, one operation
    leads to such a buffer again exactly when it removes nothing, removes everything, or nothing
    had been overwritten.
    */
  lemma StaysInStepIff<T>(capacity: nat, q: seq<T>, op: Operation<T>)
    requires capacity > 0
    ensures After(capacity, Last(q, capacity), op) == Last(IdealAfter(q, op), capacity) <==>
      Harmless(capacity, q, op)
  {
    var s := Last(q, capacity);
    match op
    case Push(x) => LastOfPush(q, x, capacity);
    case Pop =>
    case Drain(n) =>
    case Clear =>
  }

  /** After the first n operations the buffer holds the last capacity items of the unbounded queue. */
  ghost predicate InStepAt<T>(capacity: nat, ops: seq<Operation<T>>, n: nat)
    requires n <= |ops|
  {
    Run(capacity, ops[..n]) == Last(Ideal(ops[..n]), capacity)
  }

  /** Whether an operation on the unbounded queue q can be told apart from one on its last items. */
  predicate Harmless<T>(capacity: nat, q: seq<T>, op: Operation<T>) {
    |q| <= capacity || op.Push? || op.Clear? || (op.Drain? && (op.n == 0 || op.n >= |q|))
  }

  predicate HarmlessAt<T>(capacity: nat, ops: seq<Operation<T>>, n: nat)
    requires n < |ops|
  {
    Harmless(capacity, Ideal(ops[..n]), ops[n])
  }

  lemma InStepNextIff<T>(capacity: nat, ops: seq<Operation<T>>, n: nat)
    requires capacity > 0 && n < |ops| && InStepAt(capacity, ops, n)
    ensures InStepAt(capacity, ops, n + 1) <==> HarmlessAt(capacity, ops, n)
  {
    assert ops[..n + 1][..n] == ops[..n];
    StaysInStepIff(capacity, Ideal(ops[..n]), ops[n]);
  }

  /** It stays in step exactly as long as nothing is removed one by one after an overwrite. */
  lemma {:induction false} InStepIff<T>(capacity: nat, ops: seq<Operation<T>>, m: nat)
    requires capacity > 0 && m <= |ops|
    ensures (forall n :: 0 <= n <= m ==> InStepAt(capacity, ops, n)) <==>
      (forall n :: 0 <= n < m ==> HarmlessAt(capacity, ops, n))
    decreases m
  {
    if m == 0 {
      assert InStepAt(capacity, ops, 0);
    } else {
      InStepIff(capacity, ops, m - 1);
      if forall n :: 0 <= n <= m - 1 ==> InStepAt(capacity, ops, n) {
        InStepNextIff(capacity, ops, m - 1);
      }
    }
  }

  lemma OneMore<T>(capacity: nat, ops: seq<Operation<T>>, op: Operation<T>)
    ensures Run(capacity, ops + [op]) == After(capacity, Run(capacity, ops), op)
    ensures Ideal(ops + [op]) == IdealAfter(Ideal(ops), op)
  {
    assert (ops + [op])[..|ops|] == ops;
  }

  /** It does get out of step: capacity 2, three pushes, one pop. */
  lemma PopAfterOverwriteDiffers()
    ensures var ops := [Push(1), Push(2), Push(3), Pop];
      Run(2, ops) == [3] && Ideal(ops) == [2, 3] && !InStepAt(2, ops, 4)
  {
    var ops := [Push(1), Push(2), Push(3), Pop];
    OneMore(2, [], Push(1));
    OneMore(2, [Push(1)], Push(2));
    OneMore(2, [Push(1), Push(2)], Push(3));
    OneMore(2, [Push(1), Push(2), Push(3)], Pop);
    assert [Push(1), Push(2), Push(3)] + [Pop] == ops == ops[..4];
  }
}
