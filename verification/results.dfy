/** Failure-carrying results for the engine's operations.

    The engine signals failures by raising exceptions; here each raise
    becomes an `Err` carrying one of the error kinds below, and the
    message text the engine attaches to it is given by `Message`.
 */
module Results {

  /** The errors the engine raises or lets escape. */
  datatype Error =
    | NoTextExtracted          // chunking produced no chunk
    | DocumentNotFound         // the document id is not in the store
    | ServiceFailed(detail: string)  // an external service call failed
    | ChunkIndexOutOfRange     // a selected vector has no chunk of that index

  /** The text of the exception the engine raises for each error. */
  function Message(e: Error): (m: string)
    ensures e.ServiceFailed? ==> m == e.detail
  {
    match e
    case NoTextExtracted => "No text could be extracted."
    case DocumentNotFound => "Document ID not found."
    case ServiceFailed(detail) => detail
    case ChunkIndexOutOfRange => "list index out of range"
  }

  datatype Result<+T> = Ok(value: T) | Err(error: Error)

  datatype Option<+T> = None | Some(value: T)
}
