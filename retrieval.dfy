/** The join between the slot ids a FAISS search returns and the chunk list
    saved beside the index: `[chunks[i] for i in ids if i < len(chunks)]`.
    Both the `/ask` route and `search_faiss` perform it. The search itself
    (query embedding, then `index.search`) is left abstract: it is a function
    parameter from the index, the query and `k` to the labels of row 0. */
module Retrieval {
  import opened PyBuiltins
  import opened ChunkText

  /** One stored embedding row; its float32 entries are kept as reals. */
  type Embedding = seq<real>

  /** A loaded `IndexFlatL2`: the embedding rows it stores, in the order they
      were added, so that row `i` is slot `i`. The search reads the rows; the
      join only needs how many there are. */
  datatype FaissIndex = FaissIndex(vectors: seq<Embedding>)
  {
    /** FAISS's `ntotal`: the number of stored rows. */
    const ntotal: nat := |vectors|
  }

  /** The saved artifacts, keyed by document id: `<doc_id>_index.faiss` and
      `<doc_id>_chunks.json`. A missing key is a missing file. */
  datatype Storage = Storage(faissIndexes: map<string, FaissIndex>, chunkFiles: map<string, seq<Segment>>)

  /** The one exception the join can raise: `chunks[i]` with
      `i < -len(chunks)` raises IndexError. */
  datatype RetrieveError = IndexError

  /** Ingestion adds one vector per chunk, in chunk order, so slot `i` of the
      index is chunk `i`. */
  predicate Aligned(index: FaissIndex, chunks: seq<Segment>)
  {
    index.ntotal == |chunks|
  }

  /** What FAISS promises of the labels of one query row for `k` neighbours
      over `ntotal` stored vectors: `k` labels, the first `min(k, ntotal)`
      of them stored slots, the rest padded with `-1`. */
  predicate FaissLabels(labels: seq<int>, k: int, ntotal: nat)
  {
    |labels| == k &&
    forall j :: 0 <= j < |labels| ==>
      (j < ntotal ==> 0 <= labels[j] < ntotal) && (j >= ntotal ==> labels[j] == -1)
  }

  /** `[chunks[i] for i in ids if i < len(chunks)]`, evaluated left to right:
      a kept id is looked up with Python indexing, so a negative id counts
      from the end and one below `-len(chunks)` raises IndexError. */
  function Retrieve(chunks: seq<Segment>, ids: seq<int>): Result<seq<Segment>, RetrieveError>
    decreases |ids|
  {
    if ids == [] then Ok([])
    else
      match Retrieve(chunks, ids[..|ids| - 1])
      case Err(e) => Err(e)
      case Ok(prefix) =>
        var i := ids[|ids| - 1];
        if i < |chunks| then
          match Subscript(chunks, i)
          case None => Err(IndexError)
          case Some(c) => Ok(prefix + [c])
        else Ok(prefix)
  }

  /** The ids the guard `i < n` lets through, in their order. */
  function Kept(ids: seq<int>, n: int): (r: seq<int>)
    ensures |r| <= |ids|
    ensures forall j :: 0 <= j < |r| ==> r[j] < n
  {
    if ids == [] then []
    else (if ids[0] < n then [ids[0]] else []) + Kept(ids[1..], n)
  }

  lemma {:induction false} KeptSnoc(ids: seq<int>, i: int, n: int)
    ensures Kept(ids + [i], n) == Kept(ids, n) + (if i < n then [i] else [])
    decreases |ids|
  {
    if ids == [] {
      assert ([] + [i])[1..] == [];
    } else {
      assert (ids + [i])[1..] == ids[1..] + [i];
      KeptSnoc(ids[1..], i, n);
    }
  }

  /** Every id below `n` survives the guard. */
  lemma {:induction false} KeptAll(ids: seq<int>, n: int)
    requires forall j :: 0 <= j < |ids| ==> ids[j] < n
    ensures Kept(ids, n) == ids
    decreases |ids|
  {
    if ids != [] {
      KeptAll(ids[1..], n);
    }
  }

  /** The join fails exactly when some id lies below `-len(chunks)`; then
      no partial list comes back. */
  lemma {:induction false} RetrieveOkIff(chunks: seq<Segment>, ids: seq<int>)
    ensures Retrieve(chunks, ids).Ok? <==> forall j :: 0 <= j < |ids| ==> -|chunks| <= ids[j]
    decreases |ids|
  {
    if ids != [] {
      var init := ids[..|ids| - 1];
      RetrieveOkIff(chunks, init);
      assert forall j :: 0 <= j < |init| ==> init[j] == ids[j];
    }
  }

  /** Without ids below `-len(chunks)`, the result lists, in rank order,
      `chunks[i]` (Python indexing) for each id `i` the guard keeps. */
  lemma {:induction false} RetrieveSelects(chunks: seq<Segment>, ids: seq<int>)
    requires forall j :: 0 <= j < |ids| ==> -|chunks| <= ids[j]
    ensures Retrieve(chunks, ids).Ok?
    ensures |Retrieve(chunks, ids).value| == |Kept(ids, |chunks|)|
    ensures forall j :: 0 <= j < |Kept(ids, |chunks|)| ==>
      Subscript(chunks, Kept(ids, |chunks|)[j]) == Some(Retrieve(chunks, ids).value[j])
    decreases |ids|
  {
    if ids != [] {
      var n := |ids|;
      var init := ids[..n - 1];
      var i := ids[n - 1];
      assert ids == init + [i];
      RetrieveSelects(chunks, init);
      KeptSnoc(init, i, |chunks|);
    }
  }

  /** With ids that are not negative, the result is exactly `chunks[i]` for
      each returned id `i < len(chunks)`, in the search's rank order; ids
      `>= len(chunks)` are dropped. */
  lemma RetrieveNonNegative(chunks: seq<Segment>, ids: seq<int>)
    requires forall j :: 0 <= j < |ids| ==> 0 <= ids[j]
    ensures Retrieve(chunks, ids).Ok?
    ensures |Retrieve(chunks, ids).value| == |Kept(ids, |chunks|)|
    ensures forall j :: 0 <= j < |Kept(ids, |chunks|)| ==>
      0 <= Kept(ids, |chunks|)[j] < |chunks| && Retrieve(chunks, ids).value[j] == chunks[Kept(ids, |chunks|)[j]]
  {
    RetrieveSelects(chunks, ids);
    KeptNonNegative(ids, |chunks|);
  }

  lemma {:induction false} KeptNonNegative(ids: seq<int>, n: int)
    requires forall j :: 0 <= j < |ids| ==> 0 <= ids[j]
    ensures forall j :: 0 <= j < |Kept(ids, n)| ==> 0 <= Kept(ids, n)[j]
    decreases |ids|
  {
    if ids != [] {
      KeptNonNegative(ids[1..], n);
    }
  }

  /** The join never returns more chunks than the search returned ids. */
  lemma RetrieveLength(chunks: seq<Segment>, ids: seq<int>)
    ensures Retrieve(chunks, ids).Ok? ==> |Retrieve(chunks, ids).value| == |Kept(ids, |chunks|)| <= |ids|
  {
    RetrieveOkIff(chunks, ids);
    if Retrieve(chunks, ids).Ok? {
      RetrieveSelects(chunks, ids);
    }
  }

  /** When every id is a valid slot, the result has one chunk per id and
      `result[j] == chunks[ids[j]]`. */
  lemma RetrieveInRange(chunks: seq<Segment>, ids: seq<int>)
    requires forall j :: 0 <= j < |ids| ==> 0 <= ids[j] < |chunks|
    ensures Retrieve(chunks, ids).Ok?
    ensures |Retrieve(chunks, ids).value| == |ids|
    ensures forall j :: 0 <= j < |ids| ==> Retrieve(chunks, ids).value[j] == chunks[ids[j]]
  {
    RetrieveSelects(chunks, ids);
    KeptAll(ids, |chunks|);
  }

  /** The padding label `-1` passes the guard `i < len(chunks)`, and Python
      indexing turns it into the last chunk. */
  lemma RetrieveMinusOne(chunks: seq<Segment>, ids: seq<int>)
    requires |chunks| > 0 && Retrieve(chunks, ids).Ok?
    ensures Retrieve(chunks, ids + [-1]) == Ok(Retrieve(chunks, ids).value + [chunks[|chunks| - 1]])
  {
    assert (ids + [-1])[..|ids|] == ids;
  }

  /** The join over FAISS labels of an aligned index (`ntotal == len(chunks)`):
      when `k <= len(chunks)` every label resolves to its chunk; when
      `k > len(chunks) > 0` the `-1` padding adds copies of the last chunk;
      when there are no chunks at all, the padding raises IndexError. */
  lemma RetrieveFaissLabels(index: FaissIndex, chunks: seq<Segment>, ids: seq<int>, k: int)
    requires Aligned(index, chunks) && k > 0 && FaissLabels(ids, k, index.ntotal)
    ensures k <= |chunks| ==>
      Retrieve(chunks, ids) == Ok(seq(k, j requires 0 <= j < k => chunks[ids[j]]))
    ensures 0 < |chunks| < k ==>
      Retrieve(chunks, ids) == Ok(seq(|chunks|, j requires 0 <= j < |chunks| => chunks[ids[j]]) +
                                  seq(k - |chunks|, _ => chunks[|chunks| - 1]))
    ensures |chunks| == 0 ==> Retrieve(chunks, ids) == Err(IndexError)
  {
    if k <= |chunks| {
      RetrieveAllStored(chunks, ids, k);
    } else if |chunks| > 0 {
      RetrievePadded(chunks, ids, k);
    } else {
      assert ids[0] == -1;
      RetrieveAnyFails(chunks, ids, 0);
    }
  }

  /** `k <= ntotal`: every label is a stored slot. */
  lemma RetrieveAllStored(chunks: seq<Segment>, ids: seq<int>, k: int)
    requires 0 < k <= |chunks| && FaissLabels(ids, k, |chunks|)
    ensures Retrieve(chunks, ids) == Ok(seq(k, j requires 0 <= j < k => chunks[ids[j]]))
  {
    RetrieveInRange(chunks, ids);
    var r := Retrieve(chunks, ids).value;
    assert r == seq(k, j requires 0 <= j < k => chunks[ids[j]]);
  }

  /** `0 < ntotal < k`: the stored slots, then `-1` padding. */
  lemma RetrievePadded(chunks: seq<Segment>, ids: seq<int>, k: int)
    requires 0 < |chunks| < k && FaissLabels(ids, k, |chunks|)
    ensures Retrieve(chunks, ids) == Ok(seq(|chunks|, j requires 0 <= j < |chunks| => chunks[ids[j]]) +
                                        seq(k - |chunks|, _ => chunks[|chunks| - 1]))
  {
    var n := |chunks|;
    RetrieveSelects(chunks, ids);
    KeptAll(ids, n);
    var r := Retrieve(chunks, ids).value;
    var want := seq(n, j requires 0 <= j < n => chunks[ids[j]]) + seq(k - n, _ => chunks[n - 1]);
    forall j | 0 <= j < k
      ensures r[j] == want[j]
    {
      assert Subscript(chunks, ids[j]) == Some(r[j]);
      if j < n {
        assert want[j] == chunks[ids[j]];
      } else {
        assert ids[j] == -1 && want[j] == chunks[n - 1];
      }
    }
    assert r == want;
  }

  /** An id below `-len(chunks)` at any position makes the whole join fail
      with IndexError, whatever the ids around it. */
  lemma RetrieveAnyFails(chunks: seq<Segment>, ids: seq<int>, j: nat)
    requires j < |ids| && ids[j] < -|chunks|
    ensures Retrieve(chunks, ids) == Err(IndexError)
  {
    RetrieveOkIff(chunks, ids);
    assert !Retrieve(chunks, ids).Ok?;
    assert Retrieve(chunks, ids).error.IndexError?;
  }
}
