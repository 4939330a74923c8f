/**
 * The storage loop of `split_and_store_documents`: the splits are handed to
 * the vector store in consecutive batches of at most 5000, and the ids the
 * store returns are collected in order. A store call that raises ends the
 * loop, and the error propagates to the caller.
 */
module BatchStore {
  import opened Base

  /** `batch_size`: kept below the store's per-call limit of 5461 documents. */
  const BatchSize: nat := 5000

  /** An id the vector store assigns to a stored document. */
  type DocId = string

  /** The message of the exception a store call raises. */
  type StoreError = string

  /** The concatenation of a list of lists, in order. */
  function Concat<T>(bs: seq<seq<T>>): seq<T> {
    if bs == [] then [] else bs[0] + Concat(bs[1..])
  }

  /** `xs[i:i+size]` for `i` in `range(0, len(xs), size)`. */
  function Batches<T>(xs: seq<T>, size: nat): seq<seq<T>>
    requires size > 0
    decreases |xs|
  {
    if xs == [] then []
    else if |xs| <= size then [xs]
    else [xs[..size]] + Batches(xs[size..], size)
  }

  /**
   * The batches are consecutive and non-empty, cover `xs` in order, and are
   * all full except possibly the last.
   */
  lemma {:induction false} BatchesShape<T>(xs: seq<T>, size: nat)
    requires size > 0
    ensures Concat(Batches(xs, size)) == xs
    ensures forall j :: 0 <= j < |Batches(xs, size)| ==> 0 < |Batches(xs, size)[j]| <= size
    ensures forall j :: 0 <= j < |Batches(xs, size)| - 1 ==> |Batches(xs, size)[j]| == size
    decreases |xs|
  {
    var bs := Batches(xs, size);
    if xs == [] {
    } else if |xs| <= size {
      assert Concat([xs]) == xs + Concat([]);
    } else {
      var rest := xs[size..];
      BatchesShape(rest, size);
      assert bs[1..] == Batches(rest, size);
      assert xs[..size] + rest == xs;
      forall j | 1 <= j < |bs| ensures bs[j] == Batches(rest, size)[j - 1] {
      }
    }
  }

  /** There are as few batches as cover `xs`: one fewer would hold fewer than `|xs|` splits. */
  lemma {:induction false} BatchesBounds<T>(xs: seq<T>, size: nat)
    requires size > 0
    ensures (|Batches(xs, size)| - 1) * size < |xs| <= |Batches(xs, size)| * size
    decreases |xs|
  {
    if |xs| > size {
      var rest := xs[size..];
      BatchesBounds(rest, size);
      BatchesTail(xs, size);
      MulSucc(|Batches(rest, size)|, size);
    }
  }

  lemma MulSucc(n: int, d: int)
    ensures (n + 1) * d == n * d + d
    ensures (n - 1) * d == n * d - d
  {
  }

  /** The smaller of two integers. */
  function Min(a: int, b: int): int {
    if a <= b then a else b
  }

  /** Where the loop's `j`-th slice starts: `j` batch sizes in. */
  function Offset(j: nat, size: nat): nat {
    if j == 0 then 0 else Offset(j - 1, size) + size
  }

  /** The `j`-th slice starts at `j * size`, the `j`-th value of `range(0, len, size)`. */
  lemma {:induction false} OffsetIsProduct(j: nat, size: nat)
    ensures Offset(j, size) == j * size
  {
    if j > 0 {
      OffsetIsProduct(j - 1, size);
      MulSucc(j - 1, size);
    }
  }

  /**
   * Batch `j` is the slice starting at `j * size` that the loop in
   * `split_and_store_documents` cuts on its `j`-th pass.
   */
  lemma {:induction false} BatchAt<T>(xs: seq<T>, size: nat, j: nat)
    requires size > 0 && j < |Batches(xs, size)|
    ensures j * size < |xs|
    ensures Batches(xs, size)[j] == xs[j * size .. Min(j * size + size, |xs|)]
  {
    BatchAtOffset(xs, size, j);
    OffsetIsProduct(j, size);
  }

  /** `BatchAt` with the start of batch `j` written as the running offset. */
  lemma {:induction false} BatchAtOffset<T>(xs: seq<T>, size: nat, j: nat)
    requires size > 0 && j < |Batches(xs, size)|
    ensures Offset(j, size) < |xs|
    ensures Batches(xs, size)[j] == xs[Offset(j, size) .. Min(Offset(j, size) + size, |xs|)]
    decreases j
  {
    if j == 0 {
      BatchesHead(xs, size);
    } else {
      var rest := xs[size..];
      assert |xs| > size by {
        if |xs| <= size {
          assert false;
        }
      }
      BatchesTail(xs, size);
      BatchAtOffset(rest, size, j - 1);
      ShiftBatch(xs, size, Offset(j - 1, size), Batches(rest, size)[j - 1]);
    }
  }


  /** A slice of `xs[size..]` is the slice of `xs` shifted by `size`. */
  lemma ShiftBatch<T>(xs: seq<T>, size: nat, lo: nat, b: seq<T>)
    requires 0 < size < |xs| && lo < |xs| - size
    requires b == xs[size..][lo .. Min(lo + size, |xs| - size)]
    ensures b == xs[lo + size .. Min(lo + size + size, |xs|)]
  {
    SliceOfSuffix(xs, size, lo, Min(lo + size, |xs| - size));
  }

  /** The first batch is the first `size` splits, or all of them when fewer remain. */
  lemma BatchesHead<T>(xs: seq<T>, size: nat)
    requires size > 0 && xs != []
    ensures |Batches(xs, size)| > 0 && Batches(xs, size)[0] == xs[..Min(size, |xs|)]
  {
    if |xs| <= size {
      assert xs[..|xs|] == xs;
    }
  }

  /** After a full first batch, the batches are those of the remaining splits. */
  lemma BatchesTail<T>(xs: seq<T>, size: nat)
    requires 0 < size < |xs|
    ensures |Batches(xs, size)| == 1 + |Batches(xs[size..], size)|
    ensures Batches(xs, size)[1..] == Batches(xs[size..], size)
  {
    assert Batches(xs, size) == [xs[..size]] + Batches(xs[size..], size);
  }

  lemma SliceOfSuffix<T>(xs: seq<T>, d: nat, lo: nat, hi: nat)
    requires d <= |xs| && lo <= hi <= |xs| - d
    ensures xs[d..][lo..hi] == xs[lo + d..hi + d]
  {
  }

  /**
   * The result of storing the batches one after another: the ids of every
   * batch in order, or the error of the first call that raised.
   */
  function StoreAll<T, Id, E>(bs: seq<seq<T>>, store: seq<T> -> Result<seq<Id>, E>): Result<seq<Id>, E> {
    if bs == [] then Success([])
    else match store(bs[0])
      case Failure(e) => Failure(e)
      case Success(ids) =>
        match StoreAll(bs[1..], store)
        case Failure(e) => Failure(e)
        case Success(more) => Success(ids + more)
  }

  /** How many store calls are made: up to and including the first that raises. */
  function CallsMade<T, Id, E>(bs: seq<seq<T>>, store: seq<T> -> Result<seq<Id>, E>): nat {
    if bs == [] then 0
    else if store(bs[0]).Failure? then 1
    else 1 + CallsMade(bs[1..], store)
  }

  /** Every batch is stored successfully. */
  predicate AllStored<T, Id, E>(bs: seq<seq<T>>, store: seq<T> -> Result<seq<Id>, E>) {
    forall j :: 0 <= j < |bs| ==> store(bs[j]).Success?
  }

  /** The concatenated ids of batches that are all stored successfully. */
  function IdsOf<T, Id, E>(bs: seq<seq<T>>, store: seq<T> -> Result<seq<Id>, E>): seq<Id>
    requires AllStored(bs, store)
  {
    if bs == [] then [] else store(bs[0]).value + IdsOf(bs[1..], store)
  }

  /**
   * Storing succeeds exactly when every batch call succeeds, and then yields
   * the per-batch id lists concatenated in batch order after one call per
   * batch; otherwise the first failing batch `j` decides the error, and no
   * batch after it is handed to the store.
   */
  lemma {:induction false} StoreAllOutcome<T, Id, E>(bs: seq<seq<T>>, store: seq<T> -> Result<seq<Id>, E>)
    ensures AllStored(bs, store) ==>
      StoreAll(bs, store) == Success(IdsOf(bs, store)) && CallsMade(bs, store) == |bs|
    ensures !AllStored(bs, store) ==>
      var j := CallsMade(bs, store) - 1;
      && 0 <= j < |bs|
      && store(bs[j]).Failure?
      && (forall i :: 0 <= i < j ==> store(bs[i]).Success?)
      && StoreAll(bs, store) == Failure(store(bs[j]).error)
  {
    if bs != [] {
      StoreAllOutcome(bs[1..], store);
      assert forall i :: 1 <= i < |bs| ==> bs[i] == bs[1..][i - 1];
    }
  }

  /** When each call returns one id per document, a successful run has one id per split. */
  lemma {:induction false} OneIdPerSplit<T, Id, E>(bs: seq<seq<T>>, store: seq<T> -> Result<seq<Id>, E>)
    requires forall b :: store(b).Success? ==> |store(b).value| == |b|
    requires StoreAll(bs, store).Success?
    ensures |StoreAll(bs, store).value| == |Concat(bs)|
  {
    if bs != [] {
      OneIdPerSplit(bs[1..], store);
    }
  }

  /**
   * The loop in `split_and_store_documents`: slices of `BatchSize` splits
   * are handed to `store` in order and the returned ids appended to
   * `vector_ids`; an error raised by `store` aborts the loop. `calls` counts the store calls made.
   */
  method StoreInBatches<T>(allSplits: seq<T>, store: seq<T> -> Result<seq<DocId>, StoreError>)
    returns (r: Result<seq<DocId>, StoreError>, calls: nat)
    ensures r == StoreAll(Batches(allSplits, BatchSize), store)
    ensures calls == CallsMade(Batches(allSplits, BatchSize), store)
  {
    ghost var bs := Batches(allSplits, BatchSize);
    var vectorIds: seq<DocId> := [];
    var i := 0;
    calls := 0;
    assert bs[0..] == bs;
    assert StoreAll(bs, store) == Prepend([], StoreAll(bs, store)) by {
      match StoreAll(bs, store)
      case Success(more) => assert [] + more == more;
      case Failure(_) =>
    }
    while i < |allSplits|
      invariant i == Offset(calls, BatchSize)
      invariant calls <= |bs|
      invariant StoreAll(bs, store) == Prepend(vectorIds, StoreAll(bs[calls..], store))
      invariant CallsMade(bs, store) == calls + CallsMade(bs[calls..], store)
      decreases |allSplits| - i
    {
      assert calls < |bs| by { BatchCount(allSplits, calls); }
      var hi := Min(i + BatchSize, |allSplits|);
      var batch := allSplits[i..hi];
      assert batch == bs[calls] by {
        BatchAtOffset(allSplits, BatchSize, calls);
      }
      StoreTurn(bs, calls, store, vectorIds);
      var res := store(batch);
      calls := calls + 1;
      match res {
        case Failure(e) =>
          r := Failure(e);
          return;
        case Success(ids) =>
          vectorIds := vectorIds + ids;
      }
      i := i + BatchSize;
    }
    assert calls == |bs| by { BatchCount(allSplits, calls); }
    assert bs[calls..] == [];
    assert vectorIds + [] == vectorIds;
    r := Success(vectorIds);
  }

  /** A run in which every store call succeeds makes one call per batch: `ceil(N / 5000)` calls. */
  lemma CallsOnSuccess<T, Id, E>(xs: seq<T>, store: seq<T> -> Result<seq<Id>, E>)
    requires StoreAll(Batches(xs, BatchSize), store).Success?
    ensures CallsMade(Batches(xs, BatchSize), store) == (|xs| + BatchSize - 1) / BatchSize
  {
    StoreAllOutcome(Batches(xs, BatchSize), store);
    BatchesCeil(xs);
  }

  /** There are `ceil(len(all_splits) / BatchSize)` batches. */
  lemma BatchesCeil<T>(xs: seq<T>)
    ensures |Batches(xs, BatchSize)| == (|xs| + BatchSize - 1) / BatchSize
  {
    var n := |Batches(xs, BatchSize)|;
    var m := |xs| + BatchSize - 1;
    BatchesBounds(xs, BatchSize);
    assert n * BatchSize <= m < n * BatchSize + BatchSize;
  }

  /** The loop's cursor is still inside the splits exactly while batches remain. */
  lemma BatchCount<T>(xs: seq<T>, c: nat)
    ensures Offset(c, BatchSize) < |xs| <==> c < |Batches(xs, BatchSize)|
  {
    var n := |Batches(xs, BatchSize)|;
    BatchesBounds(xs, BatchSize);
    OffsetIsProduct(c, BatchSize);
    if c < n {
      assert c * BatchSize <= (n - 1) * BatchSize;
    } else {
      assert n * BatchSize <= c * BatchSize;
    }
  }

  /** One turn of the loop: storing from batch `k` on is storing batch `k`, then the batches after it. */
  lemma StoreStep<T, Id, E>(bs: seq<seq<T>>, k: nat, store: seq<T> -> Result<seq<Id>, E>)
    requires k < |bs|
    ensures StoreAll(bs[k..], store) ==
      match store(bs[k])
      case Failure(e) => Failure(e)
      case Success(ids) => Prepend(ids, StoreAll(bs[k + 1..], store))
    ensures CallsMade(bs[k..], store) ==
      if store(bs[k]).Failure? then 1 else 1 + CallsMade(bs[k + 1..], store)
  {
    assert bs[k..][0] == bs[k] && bs[k..][1..] == bs[k + 1..];
  }

  /**
   * The loop invariant carried across one store call: with `done` collected
   * before batch `k`, a failing call decides the outcome, and a successful
   * one extends `done` by its ids.
   */
  lemma StoreTurn<T, Id, E>(bs: seq<seq<T>>, k: nat, store: seq<T> -> Result<seq<Id>, E>, done: seq<Id>)
    requires k < |bs|
    requires StoreAll(bs, store) == Prepend(done, StoreAll(bs[k..], store))
    requires CallsMade(bs, store) == k + CallsMade(bs[k..], store)
    ensures store(bs[k]).Failure? ==>
      StoreAll(bs, store) == Failure(store(bs[k]).error) && CallsMade(bs, store) == k + 1
    ensures store(bs[k]).Success? ==>
      && StoreAll(bs, store) == Prepend(done + store(bs[k]).value, StoreAll(bs[k + 1..], store))
      && CallsMade(bs, store) == k + 1 + CallsMade(bs[k + 1..], store)
  {
    StoreStep(bs, k, store);
    if store(bs[k]).Success? {
      PrependTwice(done, store(bs[k]).value, StoreAll(bs[k + 1..], store));
    }
  }

  /** Ids already collected, followed by the outcome of storing the remaining batches. */
  function Prepend<Id, E>(done: seq<Id>, later: Result<seq<Id>, E>): Result<seq<Id>, E> {
    match later
    case Failure(e) => Failure(e)
    case Success(more) => Success(done + more)
  }

  lemma PrependTwice<Id, E>(a: seq<Id>, b: seq<Id>, later: Result<seq<Id>, E>)
    ensures Prepend(a, Prepend(b, later)) == Prepend(a + b, later)
  {
    if later.Success? {
      assert a + (b + later.value) == (a + b) + later.value;
    }
  }
}
