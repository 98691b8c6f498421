/** `RAGEngine`: the document store, `process_document`, `retrieve` and
    `generate_answer`.

    The engine's state is its store, a map from document id to what was
    kept of the document. Operations that change the store take the old
    store and return the new one. The embedding service, the similarity
    measure, the language model and `json.loads` are parameters.
 */
module Engine {
  import opened Results
  import opened Text
  import Chunker
  import opened Embeddings
  import Ranking
  import opened Sanitiser

  /** What the store keeps for a processed document. */
  datatype Doc = Doc(chunks: seq<string>, embeddings: seq<Vector>, fullText: string)

  type Store = map<string, Doc>

  /** The store of a new engine. */
  const EmptyStore: Store := map[]

  /** One vector per chunk, as the embedding service answers a request for
      several texts. */
  predicate DocWellFormed(d: Doc) {
    |d.chunks| == |d.embeddings|
  }

  predicate WellFormed(store: Store) {
    forall id | id in store :: DocWellFormed(store[id])
  }

  /** A new engine's store holds no document, so it is well formed. */
  lemma EmptyStoreWellFormed()
    ensures WellFormed(EmptyStore) && forall id: string :: id !in EmptyStore
  {
  }

  /** The chunks `process_document` cuts: `chunk_text` with its defaults. */
  function DocumentChunks(fullText: string): seq<string> {
    Chunker.Chunks(fullText, Chunker.DefaultChunkSize, Chunker.DefaultOverlap)
  }

  /** `process_document(doc_id, full_text)`: the new store and the number
      of chunks. A text without chunks is refused, and a failure of both
      embedding models escapes; either way the store is left as it was.
      Otherwise the document replaces whatever was stored under its id. */
  function ProcessDocument(store: Store, docId: string, fullText: string,
                           embed: DocRequest -> Result<seq<Vector>>): (res: (Store, Result<nat>))
    ensures var (store', r) := res;
      && (r.Err? ==> store' == store)
      && (r.Ok? ==>
            && store'.Keys == store.Keys + {docId}
            && (forall id | id in store && id != docId :: store'[id] == store[id])
            && store'[docId].fullText == fullText
            && store'[docId].chunks == DocumentChunks(fullText)
            && r.value == |store'[docId].chunks| > 0)
  {
    var chunks := DocumentChunks(fullText);
    if chunks == [] then (store, Err(NoTextExtracted))
    else
      match CreateEmbeddings(embed, chunks).0
      case Err(e) => (store, Err(e))
      case Ok(vectors) => (store[docId := Doc(chunks, vectors, fullText)], Ok(|chunks|))
  }

  /** A blank text (empty, or whitespace only) is refused with "No text
      could be extracted." and nothing is stored. */
  lemma ProcessBlankDocument(store: Store, docId: string, fullText: string,
                             embed: DocRequest -> Result<seq<Vector>>)
    requires !HasContent(fullText)
    ensures ProcessDocument(store, docId, fullText, embed) == (store, Err(NoTextExtracted))
  {
    Chunker.NoChunksIffBlank(fullText, Chunker.DefaultChunkSize, Chunker.DefaultOverlap);
  }

  /** A text with a non-whitespace character is stored exactly when one of
      the two embedding models answers, with the primary model's vectors
      whenever it answers. */
  lemma ProcessContentDocument(store: Store, docId: string, fullText: string,
                               embed: DocRequest -> Result<seq<Vector>>)
    requires HasContent(fullText)
    ensures var (store', r) := ProcessDocument(store, docId, fullText, embed);
      var chunks := DocumentChunks(fullText);
      var primary := embed(DocRequest(PrimaryModel, chunks, RetrievalDocument, DocumentTitle));
      var fallback := embed(DocRequest(FallbackModel, chunks, RetrievalDocument, DocumentTitle));
      && (r.Ok? <==> primary.Ok? || fallback.Ok?)
      && (primary.Ok? ==> store' == store[docId := Doc(chunks, primary.value, fullText)])
      && (primary.Err? && fallback.Ok? ==> store' == store[docId := Doc(chunks, fallback.value, fullText)])
      && (r.Err? ==> r.error == fallback.error)
  {
    var chunks := DocumentChunks(fullText);
    Chunker.NoChunksIffBlank(fullText, Chunker.DefaultChunkSize, Chunker.DefaultOverlap);
    CreateEmbeddingsFallback(embed, chunks);
  }

  /** When the embedding service answers every request with one vector per
      text, processing a document keeps every stored document with one
      vector per chunk. */
  lemma ProcessKeepsWellFormed(store: Store, docId: string, fullText: string,
                               embed: DocRequest -> Result<seq<Vector>>)
    requires WellFormed(store)
    requires forall req :: embed(req).Ok? ==> |embed(req).value| == |req.texts|
    ensures WellFormed(ProcessDocument(store, docId, fullText, embed).0)
  {
    var chunks := DocumentChunks(fullText);
    if chunks != [] {
      var (r, tried) := CreateEmbeddings(embed, chunks);
      if r.Ok? {
        var req := DocRequest(tried[|tried| - 1], chunks, RetrievalDocument, DocumentTitle);
        assert r == embed(req);
      }
    }
  }

  /** One entry of the list `retrieve` returns. */
  datatype Hit = Hit(text: string, score: real, chunkId: nat)

  /** `cosine_similarity(query_vec, doc_vecs)[0]` for a similarity measure
      `sim`: one score per stored vector. */
  function Scores(sim: (Vector, Vector) -> real, q: Vector, vectors: seq<Vector>): (s: seq<real>)
    ensures |s| == |vectors|
    ensures forall i | 0 <= i < |vectors| :: s[i] == sim(q, vectors[i])
  {
    seq(|vectors|, i requires 0 <= i < |vectors| => sim(q, vectors[i]))
  }

  function Ids(hits: seq<Hit>): (ids: seq<nat>)
    ensures |ids| == |hits|
    ensures forall i | 0 <= i < |hits| :: ids[i] == hits[i].chunkId
  {
    seq(|hits|, i requires 0 <= i < |hits| => hits[i].chunkId)
  }

  /** Each hit is the chunk its id names, with that chunk's score. */
  predicate HitsOf(doc: Doc, scores: seq<real>, hits: seq<Hit>) {
    forall i | 0 <= i < |hits| ::
      && hits[i].chunkId < |doc.chunks| && hits[i].chunkId < |scores|
      && hits[i].text == doc.chunks[hits[i].chunkId]
      && hits[i].score == scores[hits[i].chunkId]
  }

  /** The hits are a top-`top_k` answer over `scores`: as many as the
      selection keeps, of distinct chunks, best first, and none scoring
      below a chunk left out. */
  predicate TopHits(scores: seq<real>, topK: int, hits: seq<Hit>) {
    && |hits| == Ranking.SelectedCount(topK, |scores|)
    && Ranking.Distinct(Ids(hits))
    && (forall i, j | 0 <= i < j < |hits| :: hits[i].score >= hits[j].score)
    && (forall i, j | 0 <= i < |hits| && 0 <= j < |scores| && j !in Ids(hits) :: hits[i].score >= scores[j])
  }

  /** What `retrieve` returns for a document once its chunks are scored:
      hits that are what they claim to be and, with one vector per chunk,
      always a top-`top_k` answer. */
  predicate Ranked(doc: Doc, scores: seq<real>, topK: int, r: Result<seq<Hit>>) {
    && (r.Ok? ==> HitsOf(doc, scores, r.value))
    && (r.Err? ==> r.error == ChunkIndexOutOfRange)
    && (DocWellFormed(doc) && |scores| == |doc.chunks| ==> r.Ok? && TopHits(scores, topK, r.value))
  }

  /** The loop that builds the result list: one hit per selected index, in
      order; an index past the chunks raises `IndexError`. */
  method CollectHits(chunks: seq<string>, scores: seq<real>, sel: seq<nat>) returns (r: Result<seq<Hit>>)
    requires forall i | 0 <= i < |sel| :: sel[i] < |scores|
    ensures r.Ok? <==> forall i | 0 <= i < |sel| :: sel[i] < |chunks|
    ensures r.Err? ==> r.error == ChunkIndexOutOfRange
    ensures r.Ok? ==> |r.value| == |sel|
    ensures r.Ok? ==> forall i | 0 <= i < |sel| :: r.value[i] == Hit(chunks[sel[i]], scores[sel[i]], sel[i])
  {
    var hits: seq<Hit> := [];
    var k := 0;
    while k < |sel|
      invariant k <= |sel| && |hits| == k
      invariant forall i | 0 <= i < k :: sel[i] < |chunks|
      invariant forall i | 0 <= i < k :: hits[i] == Hit(chunks[sel[i]], scores[sel[i]], sel[i])
    {
      var idx := sel[k];
      if idx >= |chunks| {
        return Err(ChunkIndexOutOfRange);
      }
      hits := hits + [Hit(chunks[idx], scores[idx], idx)];
      k := k + 1;
    }
    r := Ok(hits);
  }

  /** The selected hits read the argsort backwards, so they inherit its
      top-`top_k` properties. */
  lemma TopHitsFromSelection(scores: seq<real>, order: seq<nat>, topK: int, hits: seq<Hit>)
    requires Ranking.IsArgsort(scores, order)
    requires var sel := Ranking.TopIndices(order, topK, |scores|);
      && |hits| == |sel| && Ranking.InRange(scores, sel)
      && forall i | 0 <= i < |sel| :: hits[i].chunkId == sel[i] && hits[i].score == scores[sel[i]]
    ensures TopHits(scores, topK, hits)
  {
    var sel := Ranking.TopIndices(order, topK, |scores|);
    Ranking.SelectionReadsBackwards(order, topK, |scores|);
    Ranking.SelectionDescending(scores, order, topK);
    Ranking.SelectionDominates(scores, order, topK);
    assert Ids(hits) == sel;
  }

  /** Lines 93 to 108 of `retrieve`: score the stored vectors against the
      query vector, take the best `min(top_k, n)` by the argsort, and list
      them best first. */
  method RankChunks(doc: Doc, q: Vector, topK: int, sim: (Vector, Vector) -> real)
    returns (r: Result<seq<Hit>>)
    ensures Ranked(doc, Scores(sim, q, doc.embeddings), topK, r)
  {
    var scores := Scores(sim, q, doc.embeddings);
    var order := Ranking.Argsort(scores);
    var sel := Ranking.TopIndices(order, topK, |doc.chunks|);
    Ranking.SelectionWithin(order, topK, |doc.chunks|);
    r := CollectHits(doc.chunks, scores, sel);
    if DocWellFormed(doc) {
      TopHitsFromSelection(scores, order, topK, r.value);
    }
  }

  /** What `retrieve(doc_id, query, top_k)` answers: an unknown id raises
      "Document ID not found.", a document without chunks gives no hits, a
      query neither embedding model can embed raises that failure, and
      otherwise the hits are the chunks ranked against the query vector. */
  ghost predicate Retrieved(store: Store, docId: string, query: string, topK: int,
                            embed: QueryRequest -> Result<Vector>, sim: (Vector, Vector) -> real,
                            r: Result<seq<Hit>>)
  {
    && (docId !in store ==> r == Err(DocumentNotFound))
    && (docId in store && store[docId].chunks == [] ==> r == Ok([]))
    && (docId in store && store[docId].chunks != [] ==>
          var q := EmbedQuery(embed, query).0;
          && (q.Err? ==> r == Err(q.error))
          && (q.Ok? ==> Ranked(store[docId], Scores(sim, q.value, store[docId].embeddings), topK, r)))
  }

  /** `retrieve(doc_id, query, top_k)`. An unknown id raises "Document ID
      not found."; a document without chunks gives no hits without asking
      the embedding service; otherwise the query is embedded (primary
      model, then fallback), a failure of both escapes, and the chunks are
      ranked. `tried` lists the embedding models asked. */
  method Retrieve(store: Store, docId: string, query: string, topK: int,
                  embed: QueryRequest -> Result<Vector>, sim: (Vector, Vector) -> real)
    returns (r: Result<seq<Hit>>, tried: seq<string>)
    ensures docId !in store ==> r == Err(DocumentNotFound) && tried == []
    ensures docId in store && store[docId].chunks == [] ==> r == Ok([]) && tried == []
    ensures docId in store && store[docId].chunks != [] ==>
      var (q, asked) := EmbedQuery(embed, query);
      && tried == asked
      && (q.Err? ==> r == Err(q.error))
      && (q.Ok? ==> Ranked(store[docId], Scores(sim, q.value, store[docId].embeddings), topK, r))
    ensures Retrieved(store, docId, query, topK, embed, sim, r)
  {
    if docId !in store {
      return Err(DocumentNotFound), [];
    }
    var doc := store[docId];
    if |doc.chunks| == 0 {
      return Ok([]), [];
    }
    var asked := EmbedQuery(embed, query);
    var q := asked.0;
    tried := asked.1;
    if q.Err? {
      return Err(q.error), tried;
    }
    r := RankChunks(doc, q.value, topK, sim);
  }

  /** For a stored document with one vector per chunk and a query either
      model embeds, `retrieve` answers with `min(top_k, n)` hits for a
      positive `top_k`: at least one. */
  lemma RetrieveFindsSome(doc: Doc, scores: seq<real>, topK: int, r: Result<seq<Hit>>)
    requires Ranked(doc, scores, topK, r) && DocWellFormed(doc) && |scores| == |doc.chunks|
    requires doc.chunks != [] && 1 <= topK
    ensures r.Ok? && 0 < |r.value| <= topK
  {
  }

  /** The number of chunks `generate_answer` retrieves. */
  const AnswerTopK: nat := 5

  const NothingFoundAnswer: string :=
    "I could not find any relevant information in the document to answer that."

  /** `f"[Chunk {c['chunk_id']}] {c['text']}"`. */
  function ChunkLabel(h: Hit): string {
    "[Chunk " + NatToString(h.chunkId) + "] " + h.text
  }

  /** The labelled hits joined by blank lines. */
  function Context(hits: seq<Hit>): string {
    Join("\n\n", seq(|hits|, i requires 0 <= i < |hits| => ChunkLabel(hits[i])))
  }

  /** The text sent to the language model: the system prompt, then the
      context, the question and the cue for the answer. */
  function Prompt(systemPrompt: string, hits: seq<Hit>, query: string): string {
    systemPrompt + "CONTEXT:\n" + Context(hits) + Question(query)
  }

  function Question(query: string): string {
    "\n\nUSER QUESTION: " + query + "\n\nJSON OUTPUT:"
  }

  /** A label reads back: its number runs from after "[Chunk " to the first
      ']', denotes the chunk id, and the chunk's text follows "] ". */
  lemma LabelReadsBack(h: Hit)
    ensures var l := ChunkLabel(h);
      var e := Find(l, ']');
      && e.Some? && 7 < e.value && e.value + 2 <= |l|
      && (forall i | 7 <= i < e.value :: '0' <= l[i] <= '9')
      && ParseNat(l[7..e.value]) == h.chunkId
      && l[e.value + 2..] == h.text
  {
    var d := NatToString(h.chunkId);
    var l := ChunkLabel(h);
    var b := 7 + |d|;
    assert l[7..b] == d;
    assert l[b] == ']';
    FindInSpec(l, ']', 0, |l|);
    assert l[b + 2..] == h.text;
    ParseNatToString(h.chunkId);
  }

  /** The prompt quotes every retrieved chunk under its label. */
  lemma PromptQuotesEachHit(systemPrompt: string, hits: seq<Hit>, query: string, i: nat)
    requires i < |hits|
    ensures Contains(Prompt(systemPrompt, hits, query), ChunkLabel(hits[i]))
  {
    var labels := seq(|hits|, j requires 0 <= j < |hits| => ChunkLabel(hits[j]));
    var ctx := Context(hits);
    JoinContainsEach("\n\n", labels, i);
    var p: nat :| p <= |ctx| && OccursAt(ctx, labels[i], p);
    OccursInMiddle(systemPrompt + "CONTEXT:\n", ctx, Question(query), labels[i], p);
  }

  /** `generate_answer(doc_id, query)`. The errors of `retrieve` escape;
      no hits give the fixed "could not find" answer without asking the
      model; otherwise the model is asked with `prompt`, its failure
      escapes, and its reply is sanitised. `found` is what `retrieve`
      answered and `hits` are the retrieved chunks. */
  method GenerateAnswer(store: Store, docId: string, query: string, systemPrompt: string,
                        embed: QueryRequest -> Result<Vector>, sim: (Vector, Vector) -> real,
                        generate: string -> Result<string>, isValidJson: string -> bool)
    returns (r: Result<Reply>, prompt: Option<string>, hits: seq<Hit>, found: Result<seq<Hit>>)
    ensures Retrieved(store, docId, query, AnswerTopK, embed, sim, found)
    ensures found.Err? ==> r == Err(found.error) && prompt.None?
    ensures found == Ok([]) ==> r == Ok(Qa(NothingFoundAnswer)) && prompt.None?
    ensures found.Ok? && found.value != [] ==> prompt.Some? && hits == found.value
    ensures docId in store && store[docId].chunks != [] && EmbedQuery(embed, query).0.Err? ==>
      r == Err(EmbedQuery(embed, query).0.error) && prompt.None?
    ensures prompt.None? && r.Err? ==> docId !in store || store[docId].chunks != []
    ensures docId !in store ==> r == Err(DocumentNotFound) && prompt.None?
    ensures docId in store && store[docId].chunks == [] ==> r == Ok(Qa(NothingFoundAnswer)) && prompt.None?
    ensures prompt.None? && r.Ok? ==> r.value == Qa(NothingFoundAnswer)
    ensures prompt.Some? ==>
      && docId in store && 0 < |hits|
      && (forall i | 0 <= i < |hits| :: hits[i].chunkId < |store[docId].chunks| && hits[i].text == store[docId].chunks[hits[i].chunkId])
      && prompt.value == Prompt(systemPrompt, hits, query)
      && (generate(prompt.value).Err? ==> r == Err(generate(prompt.value).error))
      && (generate(prompt.value).Ok? ==> r == Ok(Sanitise(generate(prompt.value).value, isValidJson)))
    ensures (docId in store && DocWellFormed(store[docId]) && store[docId].chunks != []
             && EmbedQuery(embed, query).0.Ok?) ==> prompt.Some? && |hits| <= AnswerTopK
  {
    var tried;
    found, tried := Retrieve(store, docId, query, AnswerTopK, embed, sim);
    prompt := None;
    hits := [];
    if found.Err? {
      return Err(found.error), prompt, hits, found;
    }
    if |found.value| == 0 {
      return Ok(Qa(NothingFoundAnswer)), prompt, hits, found;
    }
    hits := found.value;
    var doc := store[docId];
    assert HitsOf(doc, Scores(sim, EmbedQuery(embed, query).0.value, doc.embeddings), hits);
    prompt := Some(Prompt(systemPrompt, hits, query));
    var reply := generate(prompt.value);
    if reply.Err? {
      return Err(reply.error), prompt, hits, found;
    }
    r := Ok(Sanitise(reply.value, isValidJson));
  }
}
