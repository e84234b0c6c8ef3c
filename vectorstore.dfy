/**
 * The batching loop of `create_vectorstore`: the text chunks are handed to the
 * vector store ten at a time, as the slices text_chunks[i:i+10] for
 * i = 0, 10, 20, ...  Embedding a batch into a temporary index and merging that
 * index into the running store is one abstract step, `mergeBatch`; loading and
 * saving the store are not part of this model.
 */
module VectorStore {
  import opened Seqs

  const BatchSize: nat := 10

  /** The store after merging the batches one after another, first to last. */
  function MergeAll<S>(store: S, batches: seq<seq<string>>, mergeBatch: (S, seq<string>) -> S): S
    decreases |batches|
  {
    if |batches| == 0 then store
    else mergeBatch(MergeAll(store, batches[..|batches| - 1], mergeBatch), batches[|batches| - 1])
  }

  /** Runs the batching loop over textChunks starting from the loaded store.
      Returns the final store; the ghost out-parameter records the batches in
      the order they were merged. */
  method CreateVectorstore<S>(textChunks: seq<string>, loaded: S, mergeBatch: (S, seq<string>) -> S)
    returns (vectorStore: S, ghost batches: seq<seq<string>>)
    ensures batches == Slices(textChunks, BatchSize)
    ensures vectorStore == MergeAll(loaded, Slices(textChunks, BatchSize), mergeBatch)
  {
    vectorStore, batches := loaded, [];
    var i := 0;
    while i < |textChunks|
      invariant 0 <= i
      invariant batches + Slices(if i <= |textChunks| then textChunks[i..] else [], BatchSize)
                == Slices(textChunks, BatchSize)
      invariant vectorStore == MergeAll(loaded, batches, mergeBatch)
    {
      // Python slicing stops at the end of the list.
      var batch := textChunks[i..if i + BatchSize <= |textChunks| then i + BatchSize else |textChunks|];
      var rest := textChunks[i..];
      assert Slices(rest, BatchSize)
             == [batch] + Slices(if i + BatchSize <= |textChunks| then textChunks[i + BatchSize..] else [], BatchSize)
      by {
        if |rest| > BatchSize {
          assert rest[..BatchSize] == batch;
          assert rest[BatchSize..] == textChunks[i + BatchSize..];
        } else {
          assert rest == batch;
          assert i + BatchSize <= |textChunks| ==> textChunks[i + BatchSize..] == [];
        }
      }
      ghost var merged := batches;
      vectorStore := mergeBatch(vectorStore, batch);
      batches := batches + [batch];
      assert batches[..|batches| - 1] == merged;
      i := i + BatchSize;
    }
  }

  /** Every batch holds 1 to 10 chunks and all but the last exactly 10; there
      are ceil(N / 10) batches; chunk t of batch k is chunk 10 * k + t; and the
      batches put back together are the chunks, in order. */
  lemma BatchesPartitionChunks(textChunks: seq<string>)
    ensures |Slices(textChunks, BatchSize)| == (|textChunks| + 9) / 10
    ensures forall k :: 0 <= k < |Slices(textChunks, BatchSize)| ==> 0 < |Slices(textChunks, BatchSize)[k]| <= 10
    ensures forall k :: 0 <= k < |Slices(textChunks, BatchSize)| - 1 ==> |Slices(textChunks, BatchSize)[k]| == 10
    ensures Concat(Slices(textChunks, BatchSize)) == textChunks
  {
    SlicesPartition(textChunks, BatchSize);
    SlicesCount(textChunks, BatchSize);
  }

  /** Chunk t of batch k is chunk 10 * k + t. */
  lemma BatchAt(textChunks: seq<string>, k: nat, t: nat)
    requires k < |Slices(textChunks, BatchSize)| && t < |Slices(textChunks, BatchSize)[k]|
    ensures 10 * k + t < |textChunks| && Slices(textChunks, BatchSize)[k][t] == textChunks[10 * k + t]
  {
    SlicesAt(textChunks, BatchSize, k, t);
  }

  /** A store that simply records the texts merged into it ends up holding the
      loaded texts followed by every chunk exactly once, in order. */
  lemma {:induction false} MergeAllRecords(loaded: seq<string>, batches: seq<seq<string>>)
    ensures MergeAll(loaded, batches, (s: seq<string>, b: seq<string>) => s + b) == loaded + Concat(batches)
    decreases |batches|
  {
    if |batches| > 0 {
      var front := batches[..|batches| - 1];
      MergeAllRecords(loaded, front);
      ConcatSnoc(front, batches[|batches| - 1]);
      assert front + [batches[|batches| - 1]] == batches;
    }
  }

  lemma CreateVectorstoreRecordsEveryChunk(loaded: seq<string>, textChunks: seq<string>)
    ensures MergeAll(loaded, Slices(textChunks, BatchSize), (s: seq<string>, b: seq<string>) => s + b)
            == loaded + textChunks
  {
    MergeAllRecords(loaded, Slices(textChunks, BatchSize));
    SlicesPartition(textChunks, BatchSize);
  }
}
