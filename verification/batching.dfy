/**
 * Splitting a list of items into the batches a `BatchWriteCommand` can carry, as both
 * maintenance scripts do before writing: consecutive slices of 25 items, the last one
 * possibly shorter.
 */
module Batching {
  import opened Store

  /** The scripts' `batchSize`: the store's limit of 25 requests per batch write. */
  const BatchSize := 25

  /** The batches joined back together, first to last (`batches.flat()`). */
  function Flatten<T>(batches: seq<seq<T>>): seq<T>
  {
    if batches == [] then [] else Flatten(batches[..|batches| - 1]) + batches[|batches| - 1]
  }

  /** Batch `k` of a chunking: `items.slice(25 * k, 25 * k + 25)`. */
  function Slice<T>(items: seq<T>, k: nat): seq<T>
    requires BatchSize * k <= |items|
  {
    items[BatchSize * k..Min(BatchSize * k + BatchSize, |items|)]
  }

  /**
   * The chunking loop: `for (i = 0; i < items.length; i += 25) batches.push(items.slice(i, i + 25))`.
   * Joining the batches gives the items back, there are as many batches as 25 goes into the
   * item count, rounded up, and batch `k` is the slice that starts at item `25 * k`.
   */
  method Chunk<T>(items: seq<T>) returns (batches: seq<seq<T>>)
    ensures Flatten(batches) == items
    ensures |batches| == (|items| + BatchSize - 1) / BatchSize
    ensures |items| <= BatchSize * |batches|
    ensures forall k :: 0 <= k < |batches| ==> BatchSize * k < |items| && batches[k] == Slice(items, k)
  {
    batches := [];
    var i := 0;
    while i < |items|
      invariant i == BatchSize * |batches|
      invariant i < |items| + BatchSize
      invariant Flatten(batches) == items[..Min(i, |items|)]
      invariant forall k :: 0 <= k < |batches| ==> BatchSize * k < |items| && batches[k] == Slice(items, k)
    {
      var batch := items[i..Min(i + BatchSize, |items|)];
      assert items[..i] + batch == items[..Min(i + BatchSize, |items|)];
      batches := batches + [batch];
      i := i + BatchSize;
    }
    assert items[..Min(i, |items|)] == items;
  }

  /** Every batch of a chunking holds 1 to 25 items, and every batch but the last exactly 25. */
  lemma ChunkSizes<T>(items: seq<T>, batches: seq<seq<T>>)
    requires |batches| == (|items| + BatchSize - 1) / BatchSize
    requires forall k :: 0 <= k < |batches| ==> BatchSize * k < |items| && batches[k] == Slice(items, k)
    ensures forall k :: 0 <= k < |batches| ==> 1 <= |batches[k]| <= BatchSize
    ensures forall k :: 0 <= k < |batches| - 1 ==> |batches[k]| == BatchSize
  {
  }

  /** Joining one more batch adds that batch's items at the end. */
  lemma FlattenSnoc<T>(batches: seq<seq<T>>, i: nat)
    requires i < |batches|
    ensures Flatten(batches[..i + 1]) == Flatten(batches[..i]) + batches[i]
  {
    assert batches[..i + 1][..i] == batches[..i];
  }

  /** Joining is the inverse of cutting at a boundary: the batches before and after it. */
  lemma {:induction false} FlattenAppend<T>(a: seq<seq<T>>, b: seq<seq<T>>)
    ensures Flatten(a + b) == Flatten(a) + Flatten(b)
    decreases |b|
  {
    if b == [] {
      assert a + b == a;
    } else {
      var c := a + b;
      assert c[..|c| - 1] == a + b[..|b| - 1];
      FlattenAppend(a, b[..|b| - 1]);
    }
  }

  /** The first `k` batches of a chunking are the first `25 * k` items. */
  lemma {:induction false} FlattenPrefix<T>(items: seq<T>, batches: seq<seq<T>>, k: nat)
    requires k <= |batches|
    requires forall j :: 0 <= j < |batches| ==> BatchSize * j < |items| && batches[j] == Slice(items, j)
    ensures Flatten(batches[..k]) == items[..Min(BatchSize * k, |items|)]
  {
    if k > 0 {
      FlattenPrefix(items, batches, k - 1);
      assert batches[..k][..k - 1] == batches[..k - 1];
      assert items[..BatchSize * (k - 1)] + Slice(items, k - 1) == items[..Min(BatchSize * k, |items|)];
    }
  }
}
