/** Shared vocabulary: optional values, HTTP status codes, and the outcome of a call
    into the document store, which the model treats as an abstract step that either
    yields the records it was asked for or fails. */
module Common {

  datatype Option<+T> = None | Some(value: T)

  /** The user identity as the server sees it (a string id). */
  type UserId = string

  /** JavaScript truthiness of a value that is either absent (undefined/null) or a string:
      only a present, non-empty string is truthy. */
  predicate Truthy(v: Option<string>)
  {
    v.Some? && v.value != ""
  }

  /** The records a store query returned, or the failure (a rejected promise) it raised. */
  datatype Store<T> = Available(records: seq<T>) | Unavailable

  const StatusOk: nat := 200
  const StatusBadRequest: nat := 400
  const StatusServerError: nat := 500
}
