/**
 * The table-cleaning script: one key-only scan, then batch deletes of the scanned keys, 25
 * at a time, in scan order. A table that is already empty is left alone.
 */
module CleanTable {
  import opened Store
  import opened Batching

  /** Deletes of 1 to 25 scanned keys, taken in a row, form a batch the store accepts. */
  lemma DistinctDeletesAccepted(rows: seq<Row>, lo: nat, hi: nat)
    requires lo < hi <= |rows| && hi - lo <= BatchSize
    requires UniqueKeys(rows)
    ensures BatchAccepted(DeleteRequests(ScanKeys(rows)[lo..hi]))
  {
    var keys := ScanKeys(rows)[lo..hi];
    DeleteRequestsIndex(keys);
    ScanKeysDistinct(rows, lo, hi);
    assert forall i :: 0 <= i < |keys| ==> RequestKey(DeleteRequests(keys)[i]) == keys[i];
  }

  /**
   * Batch `k` of the scanned keys of a table with unique keys is accepted, and deleting it
   * from the rows that start at that batch leaves the rows after it.
   */
  lemma DeleteBatch(rows: seq<Row>, k: nat)
    requires UniqueKeys(rows) && BatchSize * k < |rows|
    ensures BatchAccepted(DeleteRequests(Slice(ScanKeys(rows), k)))
    ensures ApplyAll(rows[BatchSize * k..], DeleteRequests(Slice(ScanKeys(rows), k)))
         == rows[Min(BatchSize * k + BatchSize, |rows|)..]
  {
    var lo, hi := BatchSize * k, Min(BatchSize * k + BatchSize, |rows|);
    DistinctDeletesAccepted(rows, lo, hi);
    DeleteScannedRange(rows, lo, hi);
  }

  /**
   * `cleanTable`: `found` is the number of items the scan reports. Every batch of deletes
   * is accepted, and afterwards the table is empty.
   */
  method CleanTable(t: Table) returns (found: nat)
    requires t.Valid()
    modifies t
    ensures t.Valid() && t.rows == []
    ensures found == |old(t.rows)|
  {
    var items := ScanKeys(t.rows);
    found := |items|;
    if items == [] {
      return;
    }
    var batches := Chunk(items);
    ghost var start := t.rows;
    var i := 0;
    while i < |batches|
      invariant 0 <= i <= |batches|
      invariant t.Valid() && UniqueKeys(start)
      invariant t.rows == start[Min(BatchSize * i, |start|)..]
    {
      assert BatchSize * i < |items| && batches[i] == Slice(items, i);
      DeleteBatch(start, i);
      var deleteRequests := DeleteRequests(batches[i]);
      var accepted := t.BatchWrite(deleteRequests);
      i := i + 1;
    }
  }
}
