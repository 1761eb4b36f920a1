/** Shared shapes: optional values, document ids and HTTP replies. */
module Common {

  /** A value that may be absent (a request field that is `undefined`, a `findOne` that found nothing). */
  datatype Option<T> = None | Some(value: T)

  /** The `_id` of a stored document, as the string the client sends. */
  type Id = string

  /**
   * What a request handler answers: a success status with its JSON payload,
   * or an error status with the `error` text of the JSON body.
   */
  datatype Reply<T> = Success(code: int, value: T) | Failure(code: int, error: string)

  /** The outcome of a store operation: the stored document or the reason it was refused. */
  datatype Outcome<T> = Stored(doc: T) | Rejected(reason: string)
}
