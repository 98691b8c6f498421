# DocSage retrieval engine in Dafny

A model of `RAGEngine`, the retrieval-augmented question answering core of
DocSage. The model covers the whole engine:

- **Chunker.** `chunk_text` cuts a document into overlapping windows that end at a nearby newline, and drops blank windows.
- **Document store.** `process_document` keeps chunks, embeddings and full text per document id, and refuses a document without chunks.
- **Embedding fallback.** Every embedding request goes to `models/text-embedding-004` first and to `models/embedding-001` when that fails.
- **Ranking.** `retrieve` scores the chunks against the query, takes the best `top_k` by argsort, and lists them best first.
- **Answer composition.** `generate_answer` labels the retrieved chunks, builds the prompt, and cleans the model's reply. The cleaning removes code fences, keeps the span from the first `{` to the last `}`, and validates it with `json.loads`. It falls back to a fixed `qa` record quoting the raw reply.

Modules, one per file:

| file | module | what it holds |
|---|---|---|
| `results.dfy` | `Results` | the error kinds the engine raises, `Result` and `Option` |
| `text.dfy` | `Text` | Python's `strip`, `find`, `rfind`, slicing, `replace`, `join` and `str(int)` on `seq<char>` |
| `chunker.dfy` | `Chunker` | `chunk_text`: the window grid, the newline cut, the blank filter, the loop |
| `embeddings.dfy` | `Embeddings` | the two-model fallback for documents and queries |
| `ranking.dfy` | `Ranking` | `np.argsort` (any order among equal scores) and the last-k-reversed selection |
| `sanitiser.dfy` | `Sanitiser` | fence removal, brace extraction, the `json.loads` fallback |
| `engine.dfy` | `Engine` | the store, `process_document`, `retrieve`, `generate_answer` |

Exceptions become `Err` values. The store is a `map` from document id to
`Doc`, and `process_document` returns the new store. The embedding service,
the similarity measure, the language model and `json.loads` are
function-typed parameters (oracles). Similarity scores are `real`. Replies are
a datatype rather than JSON text.

Behaviours of the code worth knowing, which the model keeps:

- `overlap >= chunk_size` is not rejected by the code; for a non-empty text its loop then never ends. The chunker takes `overlap < chunk_size` as a precondition.
- A text no longer than the window can give two chunks. A text longer than one stride, at most `chunk_size` long and at most two strides long, whose tail from the stride on is not blank, yields itself and that tail (`Chunker.WindowLengthTextHasTail`). Two strides cover `chunk_size` whenever `overlap <= chunk_size / 2`, as at the defaults 1000/200. A blank tail is dropped.
- A chunk can be longer than the window size, by up to 49 characters, when the newline cut moves the end forward.
- Equal scores have no fixed order. `np.argsort` uses an unstable sort, so the model admits every order of equal scores.
- A text that is not empty but only whitespace yields no chunk, and `process_document` refuses it.
- With an overlap below 50, a text that is not blank can also yield no chunk, because the newline cut can shorten a window so far that it ends before the next start, and the characters in between then lie in no window. With `chunk_size` 100 and no overlap, 50 blanks, a newline, 49 letters and 10 blanks give no chunk (`Chunker.SmallOverlapCanLoseContent`), and `process_document` would refuse such a text. The defaults 1000/200 are not affected (`Chunker.NoChunksIffBlank`).

## Model

| member | source | states |
|---|---|---|
| Text.Strip | backend/rag_engine.py:33 | `s.strip()` is empty exactly when `s` has no non-whitespace character; otherwise it is the piece of `s` starting at the first non-whitespace character, begins and ends with one, and only whitespace follows it in `s` |
| Text.StripIdempotent | backend/rag_engine.py:149 | stripping twice is stripping once |
| Text.StripTrimmed | backend/rag_engine.py:149 | a text that begins and ends with a non-whitespace character is its own `strip()` |
| Text.HasContentIff | backend/rag_engine.py:33 | the truthiness test of `chunk.strip()` holds exactly when some character is not whitespace |
| Text.FindInSpec | backend/rag_engine.py:28 | `find(c, lo, hi)` returns the lowest index in the clamped range holding `c`, and none exactly when the range holds no `c` |
| Text.FindLastBeforeSpec | backend/rag_engine.py:153 | `rfind(c)` returns the highest index holding `c`, none exactly when there is no `c` |
| Text.Slice | backend/rag_engine.py:32 | `s[a:b]` clamps both bounds to the length and is empty for a reversed range |
| Text.Replace | backend/rag_engine.py:149 | `replace` leaves a text without the pattern unchanged |
| Text.JoinContainsEach | backend/rag_engine.py:120 | every part of a `"\n\n".join(...)` occurs in the joined text |
| Text.ParseNatToString | backend/rag_engine.py:120 | the decimal rendering of a chunk id reads back as that id |
| Chunker.CutPointRange | backend/rag_engine.py:26-30 | the end of a window moves only when the tentative end lies inside the text, and then back by at most 50 or forward by at most 49 |
| Chunker.CutAtFirstNewline | backend/rag_engine.py:26-30 | when the tentative end lies inside the text, the window ends at the lowest newline in `[end-50, min(end+50, len))` if there is one, and at the tentative end otherwise |
| Chunker.WindowShape | backend/rag_engine.py:26-32 | a window is a non-empty piece of the text at its start, shorter than `chunk_size + 50`, ending at the cut point or at the end of the text |
| Chunker.GridEnds | backend/rag_engine.py:24-25 | the loop visits no start exactly when the text is empty; it starts at 0, and one more stride from its last start passes the end |
| Chunker.GridIncreasing | backend/rag_engine.py:24-35 | the starts the loop visits strictly increase |
| Chunker.GridIsArithmetic | backend/rag_engine.py:24-35 | the starts are exactly `k * stride` for the `k` with `k * stride < len(text)` |
| Chunker.GridCountIsCeiling | backend/rag_engine.py:24-35 | the loop runs `ceil(len(text) / stride)` times |
| Chunker.KeptStartsSound | backend/rag_engine.py:33-34 | every kept start is a visited start whose window passes the blank test |
| Chunker.KeptStartsComplete | backend/rag_engine.py:33-34 | every visited start whose window passes the test is kept |
| Chunker.KeptStartsIncreasing | backend/rag_engine.py:33-34 | kept starts stay in the increasing order of the visit |
| Chunker.RunFromKeptStarts | backend/rag_engine.py:24-35 | the loop appends exactly the windows at the kept starts, in order |
| Chunker.ChunksAreKeptWindows | backend/rag_engine.py:22-36 | `chunk_text` returns the windows at the kept starts |
| Chunker.ChunkShape | backend/rag_engine.py:22-36 | each chunk is the non-blank window at a visited start, shorter than `chunk_size + 50`; the chunks' starts increase, and every non-blank window is a chunk |
| Chunker.ChunksAtMostGrid | backend/rag_engine.py:22-36 | at most one chunk per visited start |
| Chunker.ChunkCountBound | backend/rag_engine.py:22-36 | there are at most `ceil(len(text) / stride)` chunks |
| Chunker.CutWindow | backend/rag_engine.py:26-32 | the tentative end, the newline search and the slice give the window at `start` |
| Chunker.IsKept | backend/rag_engine.py:33 | `chunk.strip()` is truthy exactly when the chunk is not blank |
| Chunker.ChunkStep | backend/rag_engine.py:26-35 | one iteration advances the loop's state by one stride |
| Chunker.ChunkText | backend/rag_engine.py:22-36 | the loop terminates and returns the chunks |
| Chunker.NoGapBetweenWindows | backend/rag_engine.py:26-35 | with an overlap of at least 50, a window reaches the next start or the end of the text |
| Chunker.CoveredByWindow | backend/rag_engine.py:22-36 | with an overlap of at least 50, every character of the text lies in some window |
| Chunker.WindowContentInText | backend/rag_engine.py:32-33 | a non-blank window makes the text non-blank |
| Chunker.ContentYieldsChunk | backend/rag_engine.py:22-36 | with an overlap of at least 50, a non-blank text yields a chunk |
| Chunker.NoChunksIffBlank | backend/rag_engine.py:22-36 | with an overlap of at least 50 (the defaults qualify), there is no chunk exactly when the text is blank |
| Chunker.SmallOverlapCanLoseContent | backend/rag_engine.py:22-36 | with `chunk_size` 100 and no overlap, a text with a non-blank middle yields no chunk, so `NoChunksIffBlank` needs its overlap bound |
| Chunker.ShortTextIsOneChunk | backend/rag_engine.py:22-36 | with a non-negative overlap, a non-blank text no longer than one stride is its own only chunk |
| Chunker.WindowLengthTextHasTail | backend/rag_engine.py:22-36 | a text longer than one stride, at most `chunk_size` and at most two strides long, whose tail from the stride on is not blank, yields exactly itself and that tail |
| Embeddings.WithFallback | backend/rag_engine.py:38-55 | the primary model is asked first; the fallback model is asked exactly when the primary fails, and the answer of the last model asked is returned |
| Embeddings.FallbackFailsOnlyIfBoth | backend/rag_engine.py:38-55 | the call fails exactly when both models fail, with the fallback's error, and returns the primary's answer whenever it succeeds |
| Embeddings.CreateEmbeddings | backend/rag_engine.py:38-55 | all chunks go in one request as retrieval documents titled "Document Chunks" |
| Embeddings.EmbedQuery | backend/rag_engine.py:80-91 | the query goes alone as a retrieval query without title |
| Embeddings.CreateEmbeddingsFallback | backend/rag_engine.py:38-55 | document vectors are the primary model's when it answers, the fallback's otherwise |
| Embeddings.EmbedQueryFallback | backend/rag_engine.py:80-91 | the query vector is the primary model's when it answers, the fallback's otherwise |
| Ranking.InsertPosition | backend/rag_engine.py:98 | the insertion point splits a score-sorted order into entries scoring at most `v` and entries scoring above it |
| Ranking.InsertKeepsAscending | backend/rag_engine.py:98 | inserting an index at its insertion point keeps the order sorted by score |
| Ranking.InsertKeepsEntries | backend/rag_engine.py:98 | inserting a new index keeps the entries distinct and loses none |
| Ranking.Argsort | backend/rag_engine.py:98 | `np.argsort` returns every index exactly once, by non-decreasing score, equal scores in any order |
| Ranking.PySuffix | backend/rag_engine.py:98 | `xs[i:]` counts a negative `i` from the end and clamps to the length |
| Ranking.ReverseSpec | backend/rag_engine.py:98 | `xs[::-1]` holds the entries of `xs` last to first |
| Ranking.SelectionReadsBackwards | backend/rag_engine.py:97-98 | the selection keeps `min(top_k, n)` indices for a positive `top_k` and reads the argsort backwards from its end |
| Ranking.SelectionWithin | backend/rag_engine.py:97-98 | whatever `n` is, the selection only holds entries of the argsort, read from its end |
| Ranking.SelectedTail | backend/rag_engine.py:97-98 | every entry in the last places of the argsort is selected |
| Ranking.SelectionDescending | backend/rag_engine.py:97-98 | the selected indices are distinct and their scores never increase |
| Ranking.SelectionDominates | backend/rag_engine.py:97-98 | no index left out scores above a selected one |
| Ranking.TopKSelection | backend/rag_engine.py:97-98 | for `top_k >= 1` and any argsort, the selection is `min(top_k, n)` distinct indices, best first, none scoring below one left out |
| Ranking.NonPositiveTopK | backend/rag_engine.py:97-98 | `top_k <= 0` is not rejected: 0 selects every index (`[-0:]` is the whole list) and a negative value drops that many of the lowest |
| Sanitiser.LeadTicksAtLeast | backend/rag_engine.py:149 | a text begins with at least `k` backticks exactly when its first `k` characters are backticks |
| Sanitiser.RemoveFencesStep | backend/rag_engine.py:149 | `replace` drops a fence at the front and resumes after it, and otherwise keeps the first character |
| Sanitiser.RemoveFencesLeadTicks | backend/rag_engine.py:149 | after removing the fences, fewer than three backticks lead, and no more than before |
| Sanitiser.NoFenceAtFront | backend/rag_engine.py:149 | a text not starting with a fence does not start with one after its tail's fences are removed |
| Sanitiser.RemoveFencesNoFence | backend/rag_engine.py:149 | `replace("```", "")` leaves no "```" anywhere |
| Sanitiser.StripFencesNoFence | backend/rag_engine.py:149 | the cleaned reply holds no code fence |
| Sanitiser.NoFenceNoJsonFence | backend/rag_engine.py:149 | a text without "```" holds no "```json" |
| Sanitiser.StripFencesIdempotent | backend/rag_engine.py:149 | cleaning a cleaned reply changes nothing |
| Sanitiser.ExtractBetweenBraces | backend/rag_engine.py:151-155 | with both braces, the candidate is the span from the first `{` through the last `}`, or empty when the last `}` precedes the first `{` |
| Sanitiser.ExtractWithoutBraces | backend/rag_engine.py:151-155 | without a `{` or without a `}`, the candidate is the whole cleaned text |
| Sanitiser.ExtractIsInfix | backend/rag_engine.py:151-155 | the candidate is a contiguous piece of the cleaned text |
| Sanitiser.Excerpt | backend/rag_engine.py:162 | the quoted excerpt is the first 200 characters of the raw reply, or all of a shorter one |
| Sanitiser.Sanitise | backend/rag_engine.py:151-164 | the candidate is returned exactly when `json.loads` accepts it |
| Sanitiser.SanitiseAccepted | backend/rag_engine.py:151-157 | an accepted candidate is returned verbatim, whatever its `mode`, and holds no fence |
| Sanitiser.SanitiseRejected | backend/rag_engine.py:158-164 | a rejected candidate gives the `qa` answer "Error formatting response. Raw: " followed by the first `min(200, len)` characters of the raw reply |
| Sanitiser.SanitiseKeepsCleanObject | backend/rag_engine.py:149-157 | a valid reply that already is a bare `{...}` without fences comes back unchanged |
| Engine.ProcessDocument | backend/rag_engine.py:57-70 | a failed ingest leaves the store as it was; a successful one stores the document's chunks and text under its id, changes no other id, and returns the positive chunk count |
| Engine.ProcessBlankDocument | backend/rag_engine.py:59-61 | a blank text raises "No text could be extracted." and stores nothing |
| Engine.ProcessContentDocument | backend/rag_engine.py:57-70 | a non-blank text is stored exactly when one embedding model answers, with the primary's vectors whenever it answers; otherwise the fallback's error escapes |
| Engine.EmptyStoreWellFormed | backend/rag_engine.py:20 | a new engine's store holds no document and so has one vector per chunk for every document |
| Engine.ProcessKeepsWellFormed | backend/rag_engine.py:63-69 | with one vector per text from the service, every stored document keeps one vector per chunk |
| Engine.CollectHits | backend/rag_engine.py:100-106 | one hit per selected index, in order, with that chunk's text, score and id; an index without a chunk raises `IndexError` |
| Engine.TopHitsFromSelection | backend/rag_engine.py:93-106 | the hits built from the selection are a top-`top_k` answer |
| Engine.RankChunks | backend/rag_engine.py:93-108 | every hit is the chunk its id names with that chunk's score; with one vector per chunk the answer never fails and is a top-`top_k` answer |
| Engine.Retrieve | backend/rag_engine.py:72-108 | an unknown id raises "Document ID not found."; a document without chunks gives `[]` without embedding the query; otherwise a failure of both query models escapes and the chunks are ranked |
| Engine.RetrieveFindsSome | backend/rag_engine.py:97-98 | for a positive `top_k`, a document with chunks and one vector each yields between 1 and `top_k` hits |
| Engine.LabelReadsBack | backend/rag_engine.py:120 | a label `[Chunk id] text` reads back: the digits up to the first `]` denote the id and the text follows `] ` |
| Engine.PromptQuotesEachHit | backend/rag_engine.py:120-144 | the prompt quotes every retrieved chunk under its label |
| Engine.GenerateAnswer | backend/rag_engine.py:110-164 | `found` is what `retrieve` answers (`Engine.Retrieved`); each of its errors escapes unchanged without calling the model (unknown id, a query neither model embeds, `IndexError`); no hits give the fixed "could not find" answer without calling the model; otherwise the model gets the prompt of exactly the retrieved hits and the question, its failure escapes, and its reply is sanitised; a stored document with chunks and one vector per chunk, and an embeddable query, always reaches the model with at most 5 hits |

## Left out

- The Gemini SDK (`genai.configure`, `GenerativeModel('gemini-2.0-flash')`, `embed_content`, `generate_content`, `response.text`) is not modelled. The model takes it as oracles returning a `Result`; the API key of `__init__` has no counterpart. The new engine's store is `Engine.EmptyStore`.
- `cosine_similarity` and numpy arithmetic are floating point. Scores are `real` values from a `sim` oracle, so NaN scores and the shape errors sklearn raises for an empty or mismatched vector array are not modelled.
- `json.loads` is an oracle predicate `isValidJson`. Errors it raises other than `JSONDecodeError` are not modelled.
- `json.dumps` rendering: the fail-soft and "could not find" replies are the `Reply` datatype's `Qa` case, not their JSON text.
- `result['embedding']` missing from a service answer is treated as a failure of that call.
- Logging is not modelled.
- The literal system prompt of `generate_answer` is a parameter.
- Configurations with `chunk_size <= 50` or `overlap >= chunk_size` are excluded by precondition. Below 50, the newline search can start at a negative index, which Python reads from the end of the text. At exactly 50, a newline at the window's start cuts an empty window; the code drops it as blank, but the window lemmas promise a non-empty window and so exclude this size. With the second, the loop does not terminate. The defaults 1000/200 are allowed.
- Text.Replace: its contract says only that a text without the pattern comes back unchanged. The left-to-right, non-overlapping scan is stated for the fence pattern by `Sanitiser.RemoveFencesStep` and `Sanitiser.RemoveFencesNoFence`.
- Engine.Retrieve: states the top-`top_k` properties only for a document with one vector per chunk, which is what `process_document` stores when the service answers one vector per text. For other documents it states only that each hit is the chunk its id names, and that a missing chunk raises `IndexError`.
- Concurrent use of the shared store is not modelled, because the engine has no locking.
- `backend/app.py` (HTTP routing, PDF extraction, ids, the most-recent-document fallback) and `backend/ai_studio_code.py` (listing models) are not part of this model.
