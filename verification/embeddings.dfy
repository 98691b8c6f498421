/** The embedding service and the engine's fallback between two of its
    models (`create_embeddings` and the query embedding of `retrieve`).

    The service itself is not modelled: it is a parameter that answers a
    request with vectors or fails. What is modelled is which models the
    engine asks, in which order, and which answer it keeps.
 */
module Embeddings {
  import opened Results

  type Vector = seq<real>

  const PrimaryModel: string := "models/text-embedding-004"
  const FallbackModel: string := "models/embedding-001"

  /** The title the engine attaches to document embeddings. */
  const DocumentTitle: string := "Document Chunks"

  /** The `task_type` of an embedding request. */
  datatype Task = RetrievalDocument | RetrievalQuery

  /** A request for one vector per text of a list. */
  datatype DocRequest = DocRequest(model: string, texts: seq<string>, task: Task, title: string)

  /** A request for the vector of a single text. */
  datatype QueryRequest = QueryRequest(model: string, text: string, task: Task)

  /** The answer to `call` with the primary model, or, when that fails,
      the answer with the fallback model; `tried` lists the models asked,
      in order. A failure of the fallback model escapes. */
  function WithFallback<T>(call: string -> Result<T>): (res: (Result<T>, seq<string>))
    ensures var (r, tried) := res;
      && 1 <= |tried| <= 2 && tried[0] == PrimaryModel
      && r == call(tried[|tried| - 1])
      && (|tried| == 2 <==> call(PrimaryModel).Err?)
      && (|tried| == 2 ==> tried[1] == FallbackModel)
  {
    match call(PrimaryModel)
    case Ok(v) => (Ok(v), [PrimaryModel])
    case Err(_) => (call(FallbackModel), [PrimaryModel, FallbackModel])
  }

  /** The fallback fails only when both models fail, and then with the
      fallback model's error; it succeeds with the primary model's answer
      whenever that one succeeds. */
  lemma FallbackFailsOnlyIfBoth<T>(call: string -> Result<T>)
    ensures var (r, _) := WithFallback(call);
      && (r.Err? <==> call(PrimaryModel).Err? && call(FallbackModel).Err?)
      && (r.Err? ==> r.error == call(FallbackModel).error)
      && (call(PrimaryModel).Ok? ==> r == call(PrimaryModel))
  {
  }

  /** `create_embeddings(chunks)`: one request for all chunks, as documents
      titled "Document Chunks", to the primary model and then the fallback. */
  function CreateEmbeddings(embed: DocRequest -> Result<seq<Vector>>, chunks: seq<string>)
    : (res: (Result<seq<Vector>>, seq<string>))
    ensures var (r, tried) := res;
      && 1 <= |tried| <= 2
      && r == embed(DocRequest(tried[|tried| - 1], chunks, RetrievalDocument, DocumentTitle))
  {
    WithFallback((model: string) => embed(DocRequest(model, chunks, RetrievalDocument, DocumentTitle)))
  }

  /** The query embedding of `retrieve`: the query alone, as a retrieval
      query without title, to the primary model and then the fallback. */
  function EmbedQuery(embed: QueryRequest -> Result<Vector>, query: string)
    : (res: (Result<Vector>, seq<string>))
    ensures var (r, tried) := res;
      && 1 <= |tried| <= 2
      && r == embed(QueryRequest(tried[|tried| - 1], query, RetrievalQuery))
  {
    WithFallback((model: string) => embed(QueryRequest(model, query, RetrievalQuery)))
  }

  /** Document embeddings fail only when both models fail, and come from the
      primary model whenever it answers. */
  lemma CreateEmbeddingsFallback(embed: DocRequest -> Result<seq<Vector>>, chunks: seq<string>)
    ensures var (r, tried) := CreateEmbeddings(embed, chunks);
      var primary := embed(DocRequest(PrimaryModel, chunks, RetrievalDocument, DocumentTitle));
      var fallback := embed(DocRequest(FallbackModel, chunks, RetrievalDocument, DocumentTitle));
      && (primary.Ok? ==> r == primary && tried == [PrimaryModel])
      && (primary.Err? ==> r == fallback && tried == [PrimaryModel, FallbackModel])
  {
    var call := (model: string) => embed(DocRequest(model, chunks, RetrievalDocument, DocumentTitle));
    FallbackFailsOnlyIfBoth(call);
  }

  /** The query embedding fails only when both models fail, and comes from
      the primary model whenever it answers. */
  lemma EmbedQueryFallback(embed: QueryRequest -> Result<Vector>, query: string)
    ensures var (r, tried) := EmbedQuery(embed, query);
      var primary := embed(QueryRequest(PrimaryModel, query, RetrievalQuery));
      var fallback := embed(QueryRequest(FallbackModel, query, RetrievalQuery));
      && (primary.Ok? ==> r == primary && tried == [PrimaryModel])
      && (primary.Err? ==> r == fallback && tried == [PrimaryModel, FallbackModel])
  {
    var call := (model: string) => embed(QueryRequest(model, query, RetrievalQuery));
    FallbackFailsOnlyIfBoth(call);
  }
}
