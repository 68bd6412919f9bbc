/** The `/ask` handler: load the document's index and chunk list (404 when
    either file is missing), search, keep the labels below `len(chunks)`,
    join the retrieved texts into a context, splice context and question
    into the prompt, ask the chat model and answer with the retrieved
    chunks. The search and the chat model are function parameters. */
module AskRoute {
  import opened PyBuiltins
  import opened ChunkText
  import opened Retrieval

  /** The request body; `top_k` is 2 when the client leaves it out. */
  datatype AskRequest = AskRequest(docId: string, query: string, topK: int := 2)

  /** The JSON the handler returns. */
  datatype AskResponse = AskResponse(docId: string, query: string, answer: string, retrievedChunks: seq<Segment>)

  /** `NotFound` is the `HTTPException` the handler raises; `IndexOutOfRange`
      is the IndexError of the join, which the handler does not catch. */
  datatype AskError = NotFound(statusCode: int, detail: string) | IndexOutOfRange

  const IndexMissing: AskError := NotFound(404, "FAISS index not found.")
  const ChunksMissing: AskError := NotFound(404, "Chunk file not found.")

  /** The chat model the handler asks. */
  const ChatModel: string := "llama3.1:8b"

  /** The separator between retrieved texts in the context. */
  const ContextSeparator: string := "\n\n"

  /** The fixed parts of the prompt template, around the context and the
      question. */
  const PromptHead: string := "\n    Use ONLY the following context to answer the question.\n\n    Context:\n    "
  const PromptMiddle: string := "\n\n    Question: "
  const PromptTail: string := "\n\n    Answer:\n    "

  /** `chunk["text"] for chunk in retrieved_chunks`. */
  function Texts(chunks: seq<Segment>): (ts: seq<string>)
    ensures |ts| == |chunks|
    ensures forall j :: 0 <= j < |chunks| ==> ts[j] == chunks[j].text
  {
    seq(|chunks|, j requires 0 <= j < |chunks| => chunks[j].text)
  }

  /** The context: the retrieved texts joined by a blank line, best match
      first. No chunk gives the empty string; one chunk gives its text
      unchanged. */
  function BuildContext(retrieved: seq<Segment>): (context: string)
    ensures |retrieved| == 0 ==> context == ""
    ensures |retrieved| == 1 ==> context == retrieved[0].text
  {
    Join(ContextSeparator, Texts(retrieved))
  }

  /** Where each retrieved text sits in the context: text `j` verbatim at
      `JoinOffset(j)`, a blank line before every text but the first, and
      nothing else. Offsets grow with `j`, so the best match comes first. */
  lemma ContextLayout(retrieved: seq<Segment>, j: nat)
    requires j < |retrieved|
    ensures var ts := Texts(retrieved);
      var context := BuildContext(retrieved);
      var at := JoinOffset(ContextSeparator, ts, j);
      |context| + |ContextSeparator| == JoinOffset(ContextSeparator, ts, |retrieved|) &&
      at + |retrieved[j].text| <= |context| &&
      context[at..at + |retrieved[j].text|] == retrieved[j].text &&
      (j > 0 ==> 2 <= at && context[at - 2..at] == ContextSeparator)
  {
    var ts := Texts(retrieved);
    JoinLength(ContextSeparator, ts);
    JoinPartAt(ContextSeparator, ts, j);
    if j > 0 {
      JoinSepBefore(ContextSeparator, ts, j);
    }
  }

  /** The prompt: the fixed template with the context and then the question
      spliced in verbatim. Both can be read back from it given the length of
      the context. */
  function BuildPrompt(context: string, query: string): (prompt: string)
    ensures |prompt| == |PromptHead| + |context| + |PromptMiddle| + |query| + |PromptTail|
    ensures prompt[..|PromptHead|] == PromptHead
    ensures prompt[|PromptHead|..|PromptHead| + |context|] == context
    ensures prompt[|PromptHead| + |context|..|PromptHead| + |context| + |PromptMiddle|] == PromptMiddle
    ensures prompt[|PromptHead| + |context| + |PromptMiddle|..|prompt| - |PromptTail|] == query
    ensures prompt[|prompt| - |PromptTail|..] == PromptTail
  {
    PromptHead + context + PromptMiddle + query + PromptTail
  }

  /** Two prompts with contexts of one length are equal only when their
      contexts and questions are. */
  lemma PromptInjective(c1: string, q1: string, c2: string, q2: string)
    requires |c1| == |c2| && BuildPrompt(c1, q1) == BuildPrompt(c2, q2)
    ensures c1 == c2 && q1 == q2
  {
  }

  /** `ask_question`, from the existence checks to the response; `search`
      maps the index, the query and `top_k` to the labels of the best
      matches, `chat` maps a model name and a prompt to the answer. */
  function AskQuestion(storage: Storage, request: AskRequest,
                       search: (FaissIndex, string, int) -> seq<int>,
                       chat: (string, string) -> string): (r: Result<AskResponse, AskError>)
    ensures request.docId !in storage.faissIndexes ==> r == Err(IndexMissing)
    ensures request.docId in storage.faissIndexes && request.docId !in storage.chunkFiles ==> r == Err(ChunksMissing)
    ensures r.Ok? ==>
      request.docId in storage.faissIndexes && request.docId in storage.chunkFiles &&
      r.value.docId == request.docId && r.value.query == request.query &&
      Retrieve(storage.chunkFiles[request.docId],
               search(storage.faissIndexes[request.docId], request.query, request.topK)) == Ok(r.value.retrievedChunks) &&
      |r.value.retrievedChunks| <= |search(storage.faissIndexes[request.docId], request.query, request.topK)| &&
      r.value.answer == chat(ChatModel, BuildPrompt(BuildContext(r.value.retrievedChunks), request.query))
    ensures (request.docId in storage.faissIndexes && request.docId in storage.chunkFiles &&
             Retrieve(storage.chunkFiles[request.docId],
                      search(storage.faissIndexes[request.docId], request.query, request.topK)).Ok?) ==> r.Ok?
    ensures r == Err(IndexOutOfRange) <==>
      request.docId in storage.faissIndexes && request.docId in storage.chunkFiles &&
      Retrieve(storage.chunkFiles[request.docId],
               search(storage.faissIndexes[request.docId], request.query, request.topK)).Err?
  {
    if request.docId !in storage.faissIndexes then Err(IndexMissing)
    else
      var index := storage.faissIndexes[request.docId];
      if request.docId !in storage.chunkFiles then Err(ChunksMissing)
      else
        var chunks := storage.chunkFiles[request.docId];
        var ids := search(index, request.query, request.topK);
        RetrieveLength(chunks, ids);
        match Retrieve(chunks, ids)
        case Err(_) => Err(IndexOutOfRange)
        case Ok(retrieved) =>
          var context := BuildContext(retrieved);
          var prompt := BuildPrompt(context, request.query);
          Ok(AskResponse(request.docId, request.query, chat(ChatModel, prompt), retrieved))
  }

  /** A request that omits `top_k` asks for two chunks. */
  lemma DefaultTopK(docId: string, query: string)
    ensures AskRequest(docId, query).topK == 2
  {
  }

  /** For an ingested document (index aligned with the chunk list) and a
      search that keeps FAISS's label contract, a `top_k` no larger than
      the chunk count answers with exactly the chunks of the returned
      labels, in rank order. */
  lemma AskAligned(storage: Storage, request: AskRequest,
                   search: (FaissIndex, string, int) -> seq<int>,
                   chat: (string, string) -> string)
    requires request.docId in storage.faissIndexes && request.docId in storage.chunkFiles
    requires Aligned(storage.faissIndexes[request.docId], storage.chunkFiles[request.docId])
    requires 0 < request.topK <= |storage.chunkFiles[request.docId]|
    requires FaissLabels(search(storage.faissIndexes[request.docId], request.query, request.topK),
                         request.topK, storage.faissIndexes[request.docId].ntotal)
    ensures AskQuestion(storage, request, search, chat).Ok?
    ensures |AskQuestion(storage, request, search, chat).value.retrievedChunks| == request.topK
    ensures forall j :: 0 <= j < request.topK ==>
      AskQuestion(storage, request, search, chat).value.retrievedChunks[j]
        == storage.chunkFiles[request.docId][search(storage.faissIndexes[request.docId], request.query, request.topK)[j]]
  {
    var index := storage.faissIndexes[request.docId];
    var chunks := storage.chunkFiles[request.docId];
    RetrieveFaissLabels(index, chunks, search(index, request.query, request.topK), request.topK);
  }

  /** A document whose chunk list is empty: FAISS pads every label with
      `-1`, `-1 < len(chunks)` lets it through, and `chunks[-1]` raises. */
  lemma AskNoChunks(storage: Storage, request: AskRequest,
                    search: (FaissIndex, string, int) -> seq<int>,
                    chat: (string, string) -> string)
    requires request.docId in storage.faissIndexes && request.docId in storage.chunkFiles
    requires Aligned(storage.faissIndexes[request.docId], storage.chunkFiles[request.docId])
    requires storage.chunkFiles[request.docId] == [] && request.topK > 0
    requires FaissLabels(search(storage.faissIndexes[request.docId], request.query, request.topK),
                         request.topK, storage.faissIndexes[request.docId].ntotal)
    ensures AskQuestion(storage, request, search, chat) == Err(IndexOutOfRange)
  {
    var index := storage.faissIndexes[request.docId];
    var chunks := storage.chunkFiles[request.docId];
    RetrieveFaissLabels(index, chunks, search(index, request.query, request.topK), request.topK);
  }
}
