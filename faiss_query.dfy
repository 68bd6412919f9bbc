/** `search_faiss`: load a document's index and chunk list (FileNotFoundError
    when either file is missing), search for the `k` best labels, then walk
    the labels and collect the chunk of every label below `len(chunks_data)`.
    The query embedding and `index.search` together are the function
    parameter `search`. */
module FaissQuery {
  import opened PyBuiltins
  import opened ChunkText
  import opened Retrieval

  /** `FileNotFound` carries the exception's message; `IndexOutOfRange` is
      the IndexError of `chunks_data[idx]`, which is not caught. */
  datatype SearchError = FileNotFound(message: string) | IndexOutOfRange

  /** The number of results asked for when the caller gives none. */
  const DefaultK: int := 2

  /** `search_faiss(doc_id, question, k)`. The result loop appends
      `chunks_data[idx]` for every label `idx < len(chunks_data)`, in label
      order, and touches nothing else. */
  method SearchFaiss(storage: Storage, docId: string, question: string,
                     search: (FaissIndex, string, int) -> seq<int>, k: int := DefaultK)
    returns (r: Result<seq<Segment>, SearchError>)
    ensures docId !in storage.faissIndexes ==>
      r == Err(FileNotFound("FAISS index not found for doc_id: " + docId))
    ensures docId in storage.faissIndexes && docId !in storage.chunkFiles ==>
      r == Err(FileNotFound("Chunks JSON file missing for doc_id: " + docId))
    ensures docId in storage.faissIndexes && docId in storage.chunkFiles ==>
      var indices := search(storage.faissIndexes[docId], question, k);
      var chunksData := storage.chunkFiles[docId];
      match Retrieve(chunksData, indices)
      case Ok(results) => r == Ok(results) && |results| <= |indices|
      case Err(_) => r == Err(IndexOutOfRange)
    ensures docId in storage.faissIndexes && docId in storage.chunkFiles ==>
      var indices := search(storage.faissIndexes[docId], question, k);
      var chunksData := storage.chunkFiles[docId];
      (forall j :: 0 <= j < |indices| ==> 0 <= indices[j] < |chunksData|) ==>
        r.Ok? && |r.value| == |indices| &&
        forall j :: 0 <= j < |indices| ==> r.value[j] == chunksData[indices[j]]
  {
    if docId !in storage.faissIndexes {
      return Err(FileNotFound("FAISS index not found for doc_id: " + docId));
    }
    var index := storage.faissIndexes[docId];
    if docId !in storage.chunkFiles {
      return Err(FileNotFound("Chunks JSON file missing for doc_id: " + docId));
    }
    var chunksData := storage.chunkFiles[docId];
    var indices := search(index, question, k);
    RetrieveLength(chunksData, indices);
    if forall j :: 0 <= j < |indices| ==> 0 <= indices[j] < |chunksData| {
      RetrieveInRange(chunksData, indices);
    }
    var results: seq<Segment> := [];
    var n := 0;
    while n < |indices|
      invariant 0 <= n <= |indices|
      invariant Retrieve(chunksData, indices[..n]) == Ok(results)
    {
      var idx := indices[n];
      assert indices[..n + 1][..n] == indices[..n];
      if idx < |chunksData| {
        match Subscript(chunksData, idx)
        case None =>
          RetrieveErrSticky(chunksData, indices, n + 1);
          return Err(IndexOutOfRange);
        case Some(chunk) =>
          results := results + [chunk];
      }
      n := n + 1;
    }
    assert indices[..n] == indices;
    return Ok(results);
  }

  /** Once the join has failed on a prefix of the labels, it fails on all
      of them. */
  lemma {:induction false} RetrieveErrSticky(chunks: seq<Segment>, ids: seq<int>, m: nat)
    requires m <= |ids| && Retrieve(chunks, ids[..m]).Err?
    ensures Retrieve(chunks, ids).Err?
    decreases |ids| - m
  {
    if m < |ids| {
      assert ids[..m + 1][..m] == ids[..m];
      RetrieveErrSticky(chunks, ids, m + 1);
    } else {
      assert ids[..m] == ids;
    }
  }
}
