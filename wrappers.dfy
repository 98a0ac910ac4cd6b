/** Optional values, results with a typed error, and the three states of a
    reactive client query. */
module Wrappers {

  datatype Option<+T> = None | Some(value: T) {
    /** The `??` operator: the value when present, otherwise the default. */
    function GetOr(default: T): T {
      match this
      case Some(v) => v
      case None => default
    }
  }

  datatype Result<+R, +E> = Success(value: R) | Failure(error: E)

  /** What a subscribed query holds on the client: `undefined` while the first
      answer is in flight, `null` when the server found no document, or a document. */
  datatype Query<+T> = Pending | Null | Value(value: T) {
    /** JavaScript truthiness of the query result: only a document is truthy. */
    predicate Truthy() {
      Value?
    }
  }
}
