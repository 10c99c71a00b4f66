/**
  One visit of the batched consumer to a ring: collect up to BATCH_SIZE updates, then apply them
  in one pass over the books.
  */
module Pipeline {
  import opened FastOrderBooks
  import opened RingBuffers
  import opened Wrappers

  const MAX_SYMBOLS: nat := 2048
  const BATCH_SIZE: nat := 16
  const RINGS: nat := 7

  predicate ValidId(u: FastUpdate) {
    u.symbolId < MAX_SYMBOLS
  }

  ghost predicate AllValid(us: seq<FastUpdate>) {
    forall i :: 0 <= i < |us| ==> ValidId(us[i])
  }

  /** The updates with a valid id, in order. */
  function Valids(us: seq<FastUpdate>): (vs: seq<FastUpdate>)
    ensures AllValid(vs) && |vs| <= |us|
    decreases |us|
  {
    if us == [] then []
    else Valids(us[..|us| - 1]) + if ValidId(us[|us| - 1]) then [us[|us| - 1]] else []
  }

  /**
    What one batch applies: an invalid id takes a slot but is not counted, and only the first
    count slots are visited.
    */
  function BatchApplied(popped: seq<FastUpdate>): seq<FastUpdate> {
    Valids(popped[..|Valids(popped)|])
  }

  lemma {:induction false} AllValidIff(us: seq<FastUpdate>)
    ensures |Valids(us)| == |us| <==> AllValid(us)
    ensures AllValid(us) ==> Valids(us) == us
    decreases |us|
  {
    if us != [] {
      var n := |us| - 1;
      AllValidIff(us[..n]);
      assert us == us[..n] + [us[n]];
    }
  }

  lemma {:induction false} NoneValidIff(us: seq<FastUpdate>)
    ensures Valids(us) == [] <==> forall i :: 0 <= i < |us| ==> !ValidId(us[i])
    decreases |us|
  {
    if us != [] {
      var n := |us| - 1;
      NoneValidIff(us[..n]);
      assert us == us[..n] + [us[n]];
    }
  }

  lemma {:induction false} ValidsAppend(us: seq<FastUpdate>, vs: seq<FastUpdate>)
    ensures Valids(us + vs) == Valids(us) + Valids(vs)
    decreases |vs|
  {
    if vs == [] {
      assert us + vs == us;
    } else {
      assert (us + vs)[..|us + vs| - 1] == us + vs[..|vs| - 1];
      ValidsAppend(us, vs[..|vs| - 1]);
    }
  }

  /** Every valid id comes before every invalid one. */
  ghost predicate ValidFirst(us: seq<FastUpdate>) {
    forall i, j :: 0 <= i < j < |us| && ValidId(us[j]) ==> ValidId(us[i])
  }

  lemma CountedSlots(early: seq<FastUpdate>, late: seq<FastUpdate>)
    requires |early| == |Valids(early + late)|
    ensures Valids(late) == [] <==> AllValid(early)
    ensures Valids(early) == Valids(early + late) <==> Valids(late) == []
    ensures Valids(late) == [] <==> forall i :: 0 <= i < |late| ==> !ValidId(late[i])
  {
    ValidsAppend(early, late);
    AllValidIff(early);
    NoneValidIff(late);
  }

  lemma ValidFirstSplits(early: seq<FastUpdate>, late: seq<FastUpdate>)
    ensures ValidFirst(early + late) ==> AllValid(early) || forall j :: 0 <= j < |late| ==> !ValidId(late[j])
    ensures AllValid(early) && (forall j :: 0 <= j < |late| ==> !ValidId(late[j])) ==> ValidFirst(early + late)
  {
    var all := early + late;
    assert forall i :: 0 <= i < |early| ==> all[i] == early[i];
    assert forall j :: 0 <= j < |late| ==> all[|early| + j] == late[j];
    assert forall k :: |early| <= k < |all| ==> all[k] == late[k - |early|];
  }

  /** A batch applies every valid update popped exactly when no invalid id precedes a valid one. */
  lemma BatchLosesNothingIff(popped: seq<FastUpdate>)
    ensures BatchApplied(popped) == Valids(popped) <==> ValidFirst(popped)
  {
    var c := |Valids(popped)|;
    assert popped == popped[..c] + popped[c..];
    CountedSlots(popped[..c], popped[c..]);
    ValidFirstSplits(popped[..c], popped[c..]);
  }

  /** The valid updates a batch pops are those it applies, then those popped behind the counted slots. */
  lemma BatchAppliesTheCounted(popped: seq<FastUpdate>)
    ensures BatchApplied(popped) + Valids(popped[|Valids(popped)|..]) == Valids(popped)
  {
    var c := |Valids(popped)|;
    assert popped == popped[..c] + popped[c..];
    ValidsAppend(popped[..c], popped[c..]);
  }

  /** Valids keeps exactly the updates with an id below 2048, in order. */
  lemma ValidsOfOne(us: seq<FastUpdate>, u: FastUpdate)
    ensures Valids([]) == [] && Valids(us + [u]) == Valids(us) + if u.symbolId < 2048 then [u] else []
  {
    assert (us + [u])[..|us|] == us;
  }

  /** It does lose one: a valid update popped behind an invalid id is not applied. */
  lemma InvalidIdHidesTheNext(u: FastUpdate, v: FastUpdate)
    requires !ValidId(u) && ValidId(v)
    ensures Valids([u, v]) == [v] && BatchApplied([u, v]) == []
  {
    assert [u, v][..1] == [u] && [u][..0] == [];
    assert Valids([u]) == [] && Valids([u, v]) == [v];
  }

  // ---- one batch, as the code runs it ----------------------------------------------------

  function ApplyTo(books: seq<Book>, u: FastUpdate): seq<Book>
    requires |books| == MAX_SYMBOLS && ValidId(u)
  {
    books[u.symbolId := ApplyUpdate(books[u.symbolId], u)]
  }

  function ApplyAllTo(books: seq<Book>, us: seq<FastUpdate>): (after: seq<Book>)
    requires |books| == MAX_SYMBOLS && AllValid(us)
    ensures |after| == |books|
    decreases |us|
  {
    if us == [] then books else ApplyTo(ApplyAllTo(books, us[..|us| - 1]), us[|us| - 1])
  }

  /** The slots a collection leaves: every popped update in its slot, or nothing for an invalid id. */
  ghost predicate SlotsHold(slots: seq<Option<FastUpdate>>, popped: seq<FastUpdate>) {
    |popped| <= |slots| &&
    forall i :: 0 <= i < |popped| ==> slots[i] == if ValidId(popped[i]) then Some(popped[i]) else None
  }

  lemma SlotsHoldOneMore(slots: seq<Option<FastUpdate>>, popped: seq<FastUpdate>, u: FastUpdate)
    requires SlotsHold(slots, popped) && |popped| < |slots|
    ensures SlotsHold(slots[|popped| := if ValidId(u) then Some(u) else None], popped + [u])
    ensures |Valids(popped + [u])| == |Valids(popped)| + if ValidId(u) then 1 else 0
  {
    assert (popped + [u])[..|popped|] == popped;
  }

  lemma MovesOver<T>(popped: seq<T>, u: T, rest: seq<T>)
    ensures popped + ([u] + rest) == popped + [u] + rest
  {
  }

  /** Step 1: pop until the batch is full or the ring is empty. */
  method CollectBatch(ring: RingBuffer<FastUpdate>, batch: array<Option<FastUpdate>>)
    returns (count: nat, ghost popped: seq<FastUpdate>)
    requires ring.Valid() && batch.Length == BATCH_SIZE
    modifies ring`head, ring`Contents, batch
    ensures ring.Valid()
    ensures old(ring.Contents) == popped + ring.Contents
    ensures |popped| == BATCH_SIZE || (|popped| < BATCH_SIZE && ring.Contents == [])
    ensures count == |Valids(popped)| && SlotsHold(batch[..], popped)
  {
    count, popped := 0, [];
    var slot := 0;
    while slot < BATCH_SIZE
      invariant slot <= BATCH_SIZE && slot == |popped| && ring.Valid()
      invariant old(ring.Contents) == popped + ring.Contents
      invariant count == |Valids(popped)| && SlotsHold(batch[..], popped)
    {
      var update := ring.Pop();
      if update.None? {
        batch[slot] := None;
        break;
      }
      ghost var slots, before := batch[..], popped;
      popped := popped + [update.value];
      MovesOver(before, update.value, ring.Contents);
      SlotsHoldOneMore(slots, before, update.value);
      if update.value.symbolId < MAX_SYMBOLS {
        batch[slot] := update;
        count := count + 1;
      } else {
        batch[slot] := None;
      }
      assert batch[..] == slots[slot := if ValidId(update.value) then Some(update.value) else None];
      slot := slot + 1;
    }
  }

  /** Step 3: visit the first count slots, under the write lock. */
  method ApplyBatch(books: array<Book>, batch: array<Option<FastUpdate>>, count: nat, ghost popped: seq<FastUpdate>)
    requires books.Length == MAX_SYMBOLS && SlotsHold(batch[..], popped) && count == |Valids(popped)|
    modifies books
    ensures books[..] == ApplyAllTo(old(books[..]), BatchApplied(popped))
  {
    for i := 0 to count
      invariant books[..] == ApplyAllTo(old(books[..]), Valids(popped[..i]))
    {
      assert popped[..i + 1][..i] == popped[..i];
      assert batch[..][i] == batch[i];
      ghost var done := Valids(popped[..i]);
      match batch[i]
      case Some(update) =>
        assert (done + [update])[..|done|] == done;
        books[update.symbolId] := ApplyUpdate(books[update.symbolId], update);
      case None =>
        assert done + [] == done;
    }
  }

  /** One visit to a ring: at most BATCH_SIZE pops, then one locked pass over the books. */
  method ProcessRingBatched(ring: RingBuffer<FastUpdate>, books: array<Book>, batch: array<Option<FastUpdate>>)
    returns (processed: nat, ghost popped: seq<FastUpdate>)
    requires ring.Valid() && books.Length == MAX_SYMBOLS && batch.Length == BATCH_SIZE
    modifies ring`head, ring`Contents, books, batch
    ensures ring.Valid()
    ensures old(ring.Contents) == popped + ring.Contents
    ensures |popped| == 16 || (|popped| < 16 && ring.Contents == [])
    ensures processed == |Valids(popped)|
    ensures books[..] == ApplyAllTo(old(books[..]), BatchApplied(popped))
  {
    processed, popped := CollectBatch(ring, batch);
    if processed == 0 {
      assert popped[..processed] == [];
      return;
    }
    ApplyBatch(books, batch, processed, popped);
  }
}
