/** The single-producer single-consumer ring as a sequential object: a bounded queue. */
module RingBuffers {
  import opened Wrappers
  import opened Wrapping

  class RingBuffer<T(0)> {
    const buffer: array<T>
    var head: nat
    var tail: nat
    ghost var Contents: seq<T>

    ghost predicate Valid()
      reads this, buffer
    {
      && head < buffer.Length && |Contents| < buffer.Length
      && tail == Slot(head, |Contents|, buffer.Length)
      && forall i :: 0 <= i < |Contents| ==> buffer[Slot(head, i, buffer.Length)] == Contents[i]
    }

    constructor (size: nat)
      requires size > 0
      ensures Valid() && fresh(buffer) && buffer.Length == size && Contents == []
    {
      buffer := new T[size];
      head, tail, Contents := 0, 0, [];
    }

    /** One slot always stays free, so that head == tail can only mean empty. */
    method Push(update: T) returns (ok: bool)
      requires Valid()
      modifies this`tail, this`Contents, buffer
      ensures Valid()
      ensures ok <==> |old(Contents)| < buffer.Length - 1
      ensures Contents == if ok then old(Contents) + [update] else old(Contents)
    {
      WrapOnce(tail + 1, buffer.Length);
      var nextTail := (tail + 1) % buffer.Length;
      if nextTail == head {
        return false;
      }
      buffer[tail] := update;
      tail := nextTail;
      Contents := Contents + [update];
      ok := true;
    }

    method Pop() returns (update: Option<T>)
      requires Valid()
      modifies this`head, this`Contents
      ensures Valid()
      ensures update.None? <==> old(Contents) == []
      ensures update.None? ==> Contents == []
      ensures update.Some? ==> old(Contents) == [update.value] + Contents
    {
      if head == tail {
        return None;
      }
      assert buffer[Slot(head, 0, buffer.Length)] == Contents[0];
      update := Some(buffer[head]);
      ghost var was := head;
      WrapOnce(head + 1, buffer.Length);
      head := (head + 1) % buffer.Length;
      Contents := Contents[1..];
      forall i | 0 <= i < |Contents| ensures buffer[Slot(head, i, buffer.Length)] == Contents[i] {
        assert Slot(head, i, buffer.Length) == Slot(was, i + 1, buffer.Length);
      }
    }
  }
}
