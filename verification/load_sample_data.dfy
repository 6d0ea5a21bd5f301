/**
 * The sample-data loader: the core entities followed by the adjacency relationships, cut
 * into batches of 25 and written one batch after another with `BatchWriteCommand`. The
 * JSON files it reads are its parameters; the first batch the store refuses ends the run,
 * as the thrown error does.
 */
module LoadSampleData {
  import opened Wrappers
  import opened Store
  import opened Batching

  /** Puts of 1 to 25 items, taken in a row from items with distinct keys, form an accepted batch. */
  lemma DistinctPutsAccepted(items: seq<Row>, lo: nat, hi: nat)
    requires lo < hi <= |items| && hi - lo <= BatchSize
    requires UniqueKeys(items)
    ensures BatchAccepted(PutRequests(items[lo..hi]))
  {
    var reqs := PutRequests(items[lo..hi]);
    PutRequestsIndex(items[lo..hi]);
    forall i, j | 0 <= i < j < |reqs|
      ensures RequestKey(reqs[i]) != RequestKey(reqs[j])
    {
      assert reqs[i] == PutRequest(items[lo + i]) && reqs[j] == PutRequest(items[lo + j]);
    }
  }

  /** The puts for any batch of items with distinct primary keys form a batch the store accepts. */
  lemma PutBatchAccepted(items: seq<Row>, k: nat)
    requires BatchSize * k < |items|
    ensures UniqueKeys(items) ==> BatchAccepted(PutRequests(Slice(items, k)))
  {
    if UniqueKeys(items) {
      DistinctPutsAccepted(items, BatchSize * k, Min(BatchSize * k + BatchSize, |items|));
    }
  }

  /**
   * `loadSampleData`: `done` counts the batches written, as the progress lines report them.
   * When every batch goes through, all items are written in order; otherwise the run stops at
   * the first refused batch, after the batches before it. With distinct primary keys no batch
   * is refused.
   */
  method LoadSampleData(t: Table, coreEntities: seq<Row>, adjacencyRelationships: seq<Row>)
      returns (ok: bool, done: nat)
    requires t.Valid()
    modifies t
    ensures t.Valid()
    ensures var allItems := coreEntities + adjacencyRelationships;
      t.rows == ApplyAll(old(t.rows), PutRequests(allItems[..Min(BatchSize * done, |allItems|)]))
    ensures ok ==> t.rows == ApplyAll(old(t.rows), PutRequests(coreEntities + adjacencyRelationships))
    ensures !ok ==> var allItems := coreEntities + adjacencyRelationships;
      BatchSize * done < |allItems| && !BatchAccepted(PutRequests(Slice(allItems, done)))
    ensures UniqueKeys(coreEntities + adjacencyRelationships) ==> ok
  {
    var allItems := coreEntities + adjacencyRelationships;
    var batches := Chunk(allItems);
    ok, done := WriteBatches(t, batches);
    FlattenPrefix(allItems, batches, done);
    if !ok {
      PutBatchAccepted(allItems, done);
    } else {
      assert batches[..done] == batches;
    }
  }

  /**
   * The loader's loop: the batches written one after another, stopping at the first one the
   * store refuses; `done` counts the batches written.
   */
  method WriteBatches(t: Table, batches: seq<seq<Row>>) returns (ok: bool, done: nat)
    requires t.Valid()
    modifies t
    ensures t.Valid()
    ensures done <= |batches| && (ok <==> done == |batches|)
    ensures t.rows == ApplyAll(old(t.rows), PutRequests(Flatten(batches[..done])))
    ensures !ok ==> !BatchAccepted(PutRequests(batches[done]))
  {
    ok, done := true, 0;
    while done < |batches|
      invariant 0 <= done <= |batches|
      invariant t.Valid()
      invariant t.rows == ApplyAll(old(t.rows), PutRequests(Flatten(batches[..done])))
    {
      var accepted := PutBatch(t, old(t.rows), Flatten(batches[..done]), batches[done]);
      if !accepted {
        ok := false;
        return;
      }
      FlattenSnoc(batches, done);
      done := done + 1;
    }
  }

  /**
   * One turn of the loader's loop: the put requests for one batch, sent as one batch write
   * after the items `loaded` have been written to the table that held `start`.
   */
  method PutBatch(t: Table, ghost start: seq<Row>, ghost loaded: seq<Row>, batch: seq<Row>)
      returns (accepted: bool)
    requires t.Valid() && t.rows == ApplyAll(start, PutRequests(loaded))
    modifies t
    ensures t.Valid()
    ensures accepted == BatchAccepted(PutRequests(batch))
    ensures t.rows == ApplyAll(start, PutRequests(if accepted then loaded + batch else loaded))
  {
    ghost var before := t.rows;
    var writeRequests := PutRequests(batch);
    accepted := t.BatchWrite(writeRequests);
    if accepted {
      PutsInSequence(start, before, t.rows, loaded, batch);
    }
  }

  /** Writing the items of `a` and then those of `b` writes the items of `a + b`. */
  lemma PutsInSequence(rows: seq<Row>, middle: seq<Row>, after: seq<Row>, a: seq<Row>, b: seq<Row>)
    requires middle == ApplyAll(rows, PutRequests(a))
    requires after == ApplyAll(middle, PutRequests(b))
    ensures after == ApplyAll(rows, PutRequests(a + b))
  {
    PutRequestsConcat(a, b);
    ApplyAllAppend(rows, PutRequests(a), PutRequests(b));
  }

  /** After puts of items with distinct primary keys, a read of an item's key returns that item. */
  lemma {:induction false} LoadedItemReadable(rows: seq<Row>, items: seq<Row>, k: nat)
    requires UniqueKeys(items) && k < |items|
    ensures Get(ApplyAll(rows, PutRequests(items)), items[k].PK, items[k].SK) == Some(items[k])
  {
    var front, last := items[..|items| - 1], items[|items| - 1];
    assert items == front + [last];
    ApplyPutsSnoc(rows, front, last);
    var before := ApplyAll(rows, PutRequests(front));
    if k == |items| - 1 {
      GetAfterPut(before, last);
    } else {
      assert front[k] == items[k];
      assert UniqueKeys(front);
      LoadedItemReadable(rows, front, k);
      GetOtherAfterPut(before, last, items[k].PK, items[k].SK);
    }
  }

  /** Puts leave a read of any key that none of the items has as it was. */
  lemma {:induction false} LoadKeepsOtherKeys(rows: seq<Row>, items: seq<Row>, pk: string, sk: string)
    requires forall x :: x in items ==> KeyOf(x) != Key(pk, sk)
    ensures Get(ApplyAll(rows, PutRequests(items)), pk, sk) == Get(rows, pk, sk)
  {
    if items != [] {
      var front, last := items[..|items| - 1], items[|items| - 1];
      assert items == front + [last];
      ApplyPutsSnoc(rows, front, last);
      LoadKeepsOtherKeys(rows, front, pk, sk);
      GetOtherAfterPut(ApplyAll(rows, PutRequests(front)), last, pk, sk);
    }
  }
}
