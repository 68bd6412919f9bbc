# PDF chatbot retrieval core, in Dafny

This project models the deterministic core of a retrieval-augmented PDF
question-answering service. It has three parts.

- **Chunker** (`create_text_chunks`). Each page is stripped of surrounding
  whitespace. It is then cut into windows of `chunk_size` characters whose
  starts lie `chunk_size - overlap` apart. Each window becomes one record
  `{doc_id, page_number, chunk_id, text}`, and the `chunk_id` counter runs
  over the whole document.
- **`/ask` handler** (`ask_question`). It checks that the document's FAISS
  index and chunk file exist (404 otherwise) and searches for the `top_k`
  nearest chunk slots. It keeps the slot ids below `len(chunks)` and looks
  them up. It joins the texts with a blank line into a context, splices
  context and question into a fixed prompt, and returns the chat model's
  answer with the retrieved chunks.
- **`search_faiss`**. The same existence checks (`FileNotFoundError`), the
  same search, and a loop that collects `chunks_data[idx]` for every label
  `idx < len(chunks_data)`.

Modules:

- `PyBuiltins` (`python_builtins.dfy`) holds Python's slicing, subscripting,
  `str.strip()` and `str.join()`, and the `Option`/`Result` wrappers that
  stand for raised exceptions.
- `ChunkText` (`chunk_text.dfy`) holds the chunker. It is imperative: a
  `CreateTextChunks` method with the page loop and an `AppendPageChunks`
  method with the window loop. `CreateTextChunks` is proved to return the
  specification function `ExpectedChunks`. `AppendPageChunks` is proved to
  append `PageSegments` of the page's `PageWindows`, which is the part of
  `ExpectedChunks` that one page contributes. The lemmas about these
  functions state the chunker's properties.
- `Retrieval` (`retrieval.dfy`) holds the join
  `[chunks[i] for i in ids if i < len(chunks)]` that both entry points
  perform, as the function `Retrieve`.
- `AskRoute` (`ask_route.dfy`) holds the `/ask` handler as a function.
- `FaissQuery` (`faiss_query.dfy`) holds `search_faiss` as a method whose
  loop is proved against `Retrieve`.

Saved artifacts are a `Storage` value. It has two maps keyed by document id,
and a missing key is a missing file. A FAISS index is the list of embedding
rows it stores, so two indexes of the same size can still answer a search
differently. The search (query embedding plus
`index.search`) is a function parameter from the index, the query and `k`
to the labels of the first query row. The chat model is a function parameter
from a model name and a prompt to the answer text.

Behaviour kept as the code has it:

- **Label `-1`.** FAISS pads the labels with `-1` when `k` exceeds the
  number of stored vectors. The guard `i < len(chunks)` lets `-1` through,
  and Python indexing turns it into the last chunk. With an empty chunk
  list it raises IndexError instead. See `Retrieval.RetrieveMinusOne`,
  `Retrieval.RetrieveFaissLabels` and `AskRoute.AskNoChunks`.
- **No check that `overlap < chunk_size`.** When
  `chunk_size - overlap <= 0`, the window loop never ends on a page that
  does not strip to nothing. The model returns `Err(Diverges(p))` for that
  endless loop, where `p` is the first such page. Pages that strip to
  nothing never enter the loop, so they are still fine.
- **Short pages.** A non-empty page no longer than `chunk_size` does not
  always give exactly one chunk. The code gives
  one chunk only when the page is also no longer than
  `chunk_size - overlap`. Otherwise the next starts still fall inside the
  page and add tail windows: `"abcde"` with width 10 and overlap 8 gives
  `abcde`, `cde`, `e`. The model follows the code; see
  `ChunkText.ShortPage` and `ChunkText.ShortPageExample`.

## Model

| member | source | states |
|---|---|---|
| PyBuiltins.Slice | Desktop/pdf_chatbot/backend/services/chunk_text.py:39 | `s[i:j]` never fails, is never longer than `s`, and equals `s[i..j]` for in-range bounds |
| PyBuiltins.Subscript | Desktop/pdf_chatbot/backend/routes/ask_route.py:73 | `s[i]` succeeds exactly for `-len(s) <= i < len(s)`; a negative index counts from the end |
| PyBuiltins.Strip | Desktop/pdf_chatbot/backend/services/chunk_text.py:33 | `str.strip()`: what lies between the leading and the trailing whitespace, never longer than the page |
| PyBuiltins.StripShape | Desktop/pdf_chatbot/backend/services/chunk_text.py:33 | the stripped page is a contiguous piece of the page; only whitespace is cut on either side, and a non-empty result neither starts nor ends with whitespace |
| PyBuiltins.StripPlain | Desktop/pdf_chatbot/backend/services/chunk_text.py:33 | a page that neither starts nor ends with whitespace is left unchanged |
| PyBuiltins.StripEmptyIff | Desktop/pdf_chatbot/backend/services/chunk_text.py:33 | a page strips to `""` exactly when it is all whitespace |
| PyBuiltins.StripIdempotent | Desktop/pdf_chatbot/backend/services/chunk_text.py:33 | stripping a stripped page changes nothing |
| PyBuiltins.Join | Desktop/pdf_chatbot/backend/routes/ask_route.py:79 | `sep.join(parts)`: no parts give `""`, one part gives itself, and each further part follows a separator |
| PyBuiltins.JoinLength | Desktop/pdf_chatbot/backend/routes/ask_route.py:79 | the joined string holds every part plus one separator between each two neighbours |
| PyBuiltins.JoinPartAt | Desktop/pdf_chatbot/backend/routes/ask_route.py:79 | part `j` appears verbatim at its offset in the joined string |
| PyBuiltins.JoinSepBefore | Desktop/pdf_chatbot/backend/routes/ask_route.py:79 | a separator sits just before every part but the first |
| PyBuiltins.JoinOffsetPrefix | Desktop/pdf_chatbot/backend/routes/ask_route.py:79 | offsets of the first parts do not depend on the parts after them |
| ChunkText.Window | Desktop/pdf_chatbot/backend/services/chunk_text.py:38-39 | the window cut at `start` is `text[start:min(start+chunk_size, len)]`, never longer than the page |
| ChunkText.WindowsFrom | Desktop/pdf_chatbot/backend/services/chunk_text.py:37-49 | the windows the loop cuts from `start` on, `step` apart, while `start` lies inside the page |
| ChunkText.PageWindows | Desktop/pdf_chatbot/backend/services/chunk_text.py:34-49 | the windows of one stripped page, from offset 0 |
| ChunkText.OffsetIs | Desktop/pdf_chatbot/backend/services/chunk_text.py:49 | after `j` executions of `start += step` from `start`, the start offset is `start + j*step` |
| ChunkText.WindowsFromAt | Desktop/pdf_chatbot/backend/services/chunk_text.py:37-49 | window `j` from `start` is cut `j` steps past `start`, which lies inside the page |
| ChunkText.WindowsFromReach | Desktop/pdf_chatbot/backend/services/chunk_text.py:37-49 | every start `j` steps past `start` that still lies inside the page is reached by the loop |
| ChunkText.WindowsFromCount | Desktop/pdf_chatbot/backend/services/chunk_text.py:37-49 | the loop from `start` makes just enough steps to pass the end of the page |
| ChunkText.PageWindowCount | Desktop/pdf_chatbot/backend/services/chunk_text.py:33-49 | a page gives no chunk exactly when it strips to nothing; a page of length `L > 0` gives `ceil(L / step)` chunks |
| ChunkText.PageWindowAt | Desktop/pdf_chatbot/backend/services/chunk_text.py:34-49 | chunk `j` of a page starts at `j*(chunk_size-overlap)` and equals `page[start : min(start+chunk_size, len)]` |
| ChunkText.WindowShape | Desktop/pdf_chatbot/backend/services/chunk_text.py:38-39 | a window is the contiguous piece of the page at its start offset, of length `min(chunk_size, len - start)` |
| ChunkText.WindowPiece | Desktop/pdf_chatbot/backend/services/chunk_text.py:38-39 | whatever `chunk_size` is, a window is the contiguous piece of the page that begins at its start offset |
| ChunkText.PageWindowBounded | Desktop/pdf_chatbot/backend/services/chunk_text.py:38-39 | chunk `j` of a page is the piece of the trimmed page that starts at `j*step`, and holds at most `chunk_size` characters when `chunk_size >= 0` |
| ChunkText.PageCoverage | Desktop/pdf_chatbot/backend/services/chunk_text.py:37-49 | for `0 <= overlap < chunk_size`, character `i` of a trimmed page lies in chunk `i / step` |
| ChunkText.ShortPage | Desktop/pdf_chatbot/backend/services/chunk_text.py:33-39 | the first chunk of a non-empty page no longer than `chunk_size` is the whole page; it is the only one exactly when the page is no longer than the step |
| ChunkText.WindowsExample | Desktop/pdf_chatbot/backend/services/chunk_text.py:37-49 | `"abcdefghij"`, width 4, overlap 1 gives `abcd, defg, ghij, j` |
| ChunkText.ShortPageExample | Desktop/pdf_chatbot/backend/services/chunk_text.py:37-49 | `"abcde"`, width 10, overlap 8 gives `abcde, cde, e` |
| ChunkText.PageSegments | Desktop/pdf_chatbot/backend/services/chunk_text.py:41-48 | one record per window of the page |
| ChunkText.PageSegmentsSnoc | Desktop/pdf_chatbot/backend/services/chunk_text.py:41-48 | emitting one more window appends one record with the next `chunk_id` |
| ChunkText.ChunkPages | Desktop/pdf_chatbot/backend/services/chunk_text.py:29-51 | the page loop over the remaining pages, numbered on from the current page and counter; it fails on a page whose window loop cannot end |
| ChunkText.ExpectedChunks | Desktop/pdf_chatbot/backend/services/chunk_text.py:11-51 | `create_text_chunks`: the page loop from page 1 and counter 0 |
| ChunkText.ChunkPagesUnfold | Desktop/pdf_chatbot/backend/services/chunk_text.py:32-49 | one pass of the page loop moves one page's records from the remaining pages to the emitted list |
| ChunkText.FirstNonBlank | Desktop/pdf_chatbot/backend/services/chunk_text.py:33-37 | the first page that does not strip to nothing, or the page count when there is none |
| ChunkText.ChunkPagesDiverge | Desktop/pdf_chatbot/backend/services/chunk_text.py:37-49 | with a non-positive step the chunker fails on the first page that does not strip to nothing |
| ChunkText.TerminatesIff | Desktop/pdf_chatbot/backend/services/chunk_text.py:37-49 | every page's loop ends exactly when the step is positive or every page strips to nothing |
| ChunkText.AllWindows | Desktop/pdf_chatbot/backend/services/chunk_text.py:32-39 | one list of windows per page |
| ChunkText.ChunkPagesIsRecords | Desktop/pdf_chatbot/backend/services/chunk_text.py:29-51 | when every page's loop ends, the output is the concatenation of every page's records, in page order |
| ChunkText.RecordsFields | Desktop/pdf_chatbot/backend/services/chunk_text.py:41-48 | records carry the document id, consecutive ids from the first one, and non-decreasing page numbers within range |
| ChunkText.RecordsLength | Desktop/pdf_chatbot/backend/services/chunk_text.py:41-48 | the record count is the total window count |
| ChunkText.RecordsAt | Desktop/pdf_chatbot/backend/services/chunk_text.py:41-48 | window `j` of page `p` is record `Before(p) + j`, with its page number and id |
| ChunkText.RecordsOrigin | Desktop/pdf_chatbot/backend/services/chunk_text.py:41-48 | conversely, every record is window `j` of some page `p`, at position `Before(p) + j`, with that page's number and its position as id |
| ChunkText.ChunkIdsContiguous | Desktop/pdf_chatbot/backend/services/chunk_text.py:30-48 | `chunk_id`s are exactly `0..n-1` in emission order across pages; every record carries the `doc_id` and a 1-based page number; records come in page order |
| ChunkText.ChunkOrigin | Desktop/pdf_chatbot/backend/services/chunk_text.py:32-49 | every chunk of a document carries the `doc_id` and its position as `chunk_id`, and is window `j` of stripped page `p` for some `p` and `j`: page number `p + 1`, text the piece of that stripped page that starts at `j*step`, at most `chunk_size` characters when `chunk_size >= 0` |
| ChunkText.ChunkLayout | Desktop/pdf_chatbot/backend/services/chunk_text.py:32-49 | record `Before(p) + j` is window `j` of page `p + 1` with that id, and the output holds exactly the windows of all pages, in order, with nothing else |
| ChunkText.RecordsLayout | Desktop/pdf_chatbot/backend/services/chunk_text.py:41-48 | the record count is the window count, and window `j` of page `p` is record `Before(p) + j` |
| ChunkText.ChunkPagesAreRecords | Desktop/pdf_chatbot/backend/services/chunk_text.py:32-49 | given each page's windows, the chunker emits their records in page order |
| ChunkText.ChunkTermination | Desktop/pdf_chatbot/backend/services/chunk_text.py:37-49 | the chunker finishes exactly when `chunk_size - overlap > 0` or every page strips to nothing; otherwise it loops on the first non-blank page |
| ChunkText.DefaultsTerminate | Desktop/pdf_chatbot/backend/services/chunk_text.py:14-15 | with the default width 500 and overlap 100 the chunker always finishes |
| ChunkText.ChunksExample | Desktop/pdf_chatbot/backend/services/chunk_text.py:29-51 | one page `"abcdefghij"`, width 4, overlap 1 gives four records with ids 0..3 on page 1 |
| ChunkText.AppendPageChunks | Desktop/pdf_chatbot/backend/services/chunk_text.py:34-49 | the window loop appends one record per window of the page, numbered on from the counter, and returns the counter equal to the list length |
| ChunkText.CreateTextChunks | Desktop/pdf_chatbot/backend/services/chunk_text.py:11-51 | the page loop returns exactly `ExpectedChunks`; it fails exactly when some page's loop would not end; ids run `0..n-1` and every record carries `doc_id` |
| Retrieval.Retrieve | Desktop/pdf_chatbot/backend/routes/ask_route.py:72-74 | `[chunks[i] for i in ids if i < len(chunks)]`, left to right; a kept id below `-len(chunks)` raises IndexError |
| Retrieval.Kept | Desktop/pdf_chatbot/backend/routes/ask_route.py:73 | the ids the guard keeps: no more than were given, all below `len(chunks)` |
| Retrieval.KeptSnoc | Desktop/pdf_chatbot/backend/services/faiss_query.py:66-68 | one more id adds itself to the kept ids exactly when it passes the guard |
| Retrieval.KeptAll | Desktop/pdf_chatbot/backend/routes/ask_route.py:73 | every id below `len(chunks)` survives the guard |
| Retrieval.KeptNonNegative | Desktop/pdf_chatbot/backend/routes/ask_route.py:73 | the guard keeps no negative id it was not given |
| Retrieval.RetrieveOkIff | Desktop/pdf_chatbot/backend/routes/ask_route.py:72-74 | the join raises exactly when some id lies below `-len(chunks)`, and then returns no partial list |
| Retrieval.RetrieveSelects | Desktop/pdf_chatbot/backend/routes/ask_route.py:72-74 | the join lists `chunks[i]` (Python indexing) for each kept id, in rank order |
| Retrieval.RetrieveNonNegative | Desktop/pdf_chatbot/backend/routes/ask_route.py:72-74 | with non-negative ids the result is exactly `chunks[i]` for each id `i < len(chunks)`, in rank order; larger ids are dropped |
| Retrieval.RetrieveLength | Desktop/pdf_chatbot/backend/routes/ask_route.py:70-74 | the result is never longer than the list of ids the search returned |
| Retrieval.RetrieveInRange | Desktop/pdf_chatbot/backend/services/faiss_query.py:65-68 | when every id is a valid slot, `result[j] == chunks[ids[j]]` and the lengths are equal |
| Retrieval.RetrieveMinusOne | Desktop/pdf_chatbot/backend/routes/ask_route.py:73 | the padding label `-1` passes the guard and yields the last chunk |
| Retrieval.RetrieveFaissLabels | Desktop/pdf_chatbot/backend/routes/ask_route.py:70-74 | over an aligned index: `k <= len(chunks)` gives exactly the labelled chunks; `k > len(chunks) > 0` adds copies of the last chunk; no chunks raises IndexError |
| Retrieval.RetrieveAllStored | Desktop/pdf_chatbot/backend/routes/ask_route.py:70-74 | with `k <= ntotal` every label resolves to its chunk, in rank order |
| Retrieval.RetrievePadded | Desktop/pdf_chatbot/backend/routes/ask_route.py:70-74 | with `0 < ntotal < k` the stored labels resolve, then every `-1` becomes the last chunk |
| Retrieval.RetrieveAnyFails | Desktop/pdf_chatbot/backend/routes/ask_route.py:72-74 | an id below `-len(chunks)` at any position makes the whole join raise IndexError |
| AskRoute.Texts | Desktop/pdf_chatbot/backend/routes/ask_route.py:79 | the texts of the retrieved chunks, one per chunk, in order |
| AskRoute.BuildContext | Desktop/pdf_chatbot/backend/routes/ask_route.py:79 | no chunk gives `""`; one chunk gives its text unchanged |
| AskRoute.ContextLayout | Desktop/pdf_chatbot/backend/routes/ask_route.py:79 | every retrieved text appears verbatim in the context, in rank order, each after a `"\n\n"` except the first |
| AskRoute.BuildPrompt | Desktop/pdf_chatbot/backend/routes/ask_route.py:84-93 | the prompt is the fixed template with the context and then the question spliced in verbatim |
| AskRoute.PromptInjective | Desktop/pdf_chatbot/backend/routes/ask_route.py:84-93 | context and question can be read back from the prompt given the context length |
| AskRoute.AskQuestion | Desktop/pdf_chatbot/backend/routes/ask_route.py:36-112 | a missing index gives 404 "FAISS index not found." before the chunks are read; a missing chunk file gives 404 "Chunk file not found."; when both files exist and the join does not raise, the handler succeeds; a success echoes `doc_id` and `query`, returns exactly the filtered chunks and the answer to the prompt built from them; IndexError exactly when the join raises |
| AskRoute.DefaultTopK | Desktop/pdf_chatbot/backend/routes/ask_route.py:29 | `top_k` is 2 when the request omits it |
| AskRoute.AskAligned | Desktop/pdf_chatbot/backend/routes/ask_route.py:70-74 | for an ingested document and `0 < top_k <= len(chunks)` the answer carries exactly the chunks of the returned labels, in rank order |
| AskRoute.AskNoChunks | Desktop/pdf_chatbot/backend/routes/ask_route.py:70-74 | an ingested document with no chunks makes the handler raise IndexError |
| FaissQuery.SearchFaiss | Desktop/pdf_chatbot/backend/services/faiss_query.py:17-70 | a missing index raises `FileNotFoundError` naming the document before the chunk file is read; a missing chunk file raises one too; otherwise the loop returns what the join returns (no more chunks than labels), and with in-range labels exactly `chunks_data[indices[j]]` for every `j` |
| FaissQuery.RetrieveErrSticky | Desktop/pdf_chatbot/backend/services/faiss_query.py:65-68 | once the loop's lookup has raised on a prefix of the labels, the whole join raises |

## Left out

- PDF text extraction (`extract_text.py`, pdfplumber): the pages are the
  chunker's input, a sequence of strings.
- Embeddings (`embeddings.py`, SentenceTransformer), the FAISS index build
  and its disk format (`faiss_store.py`), `faiss.read_index`, float32 L2
  distances and their ranking: the search is a function parameter, and
  `FaissLabels` states FAISS's label contract (`k` labels, stored slots
  first, then `-1` padding) as a hypothesis where it is needed.
- The upload endpoint (`main.py`): uuid generation, file writes and
  serialisation. Its only use here is that it stores one vector per chunk in
  chunk order, which appears as the hypothesis `Aligned`
  (`ntotal == len(chunks)`).
- Writing and reading the chunk JSON and index files: a `Storage` value of
  two maps stands for the two folders. `config.py` (folder creation), the
  Streamlit front end and the debug scripts are not part of this model.
- The `ollama.chat` call: a function parameter from model name and prompt
  to answer. The message list around the prompt and the response
  dictionary are not modelled.
- The HTTP layer: routing, request validation, async execution and the
  JSON encoding of the response.
- The `doc_id` in the file names: a map lookup by document id stands for
  the path `<doc_id>_index.faiss` / `<doc_id>_chunks.json`.
- Mutation of `chunks_data` by the collection loop: the chunk list is a
  value, so the loop cannot change it; only `results` grows.
- The endless window loop itself: it is reported as a `Diverges` result
  instead of running forever.
- The search is total: `faiss`'s rejection of a non-positive `k` is not
  modelled, so a non-positive `top_k` (or `k` in `search_faiss`) still
  yields whatever labels the search parameter returns.
- AskRequest: the type of `top_k` is a plain integer; pydantic's coercion
  of other JSON values is not modelled.
- Unicode tables: whitespace is the fixed set of characters Python's
  `str.isspace()` accepts, written out in `PyBuiltins.Whitespace`.
