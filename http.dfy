/**
 * The JSON envelope the resource handlers answer with, and the optional
 * values that stand for absent request fields and query parameters.
 */
module Http {

  /** A value that may be absent (`undefined` or `null` in a request). */
  datatype Option<+T> = None | Some(value: T)

  /**
   * A handler's answer: an HTTP status with a success payload, or an HTTP
   * status with an error message.  `message` is the optional confirmation
   * text some success answers carry; `data` is the optional record or list.
   */
  datatype Reply<+T> =
    | Ok(status: int, message: Option<string>, data: Option<T>)
    | Error(status: int, error: string)

  /** The statuses a browser's `fetch` reports as `response.ok`. */
  predicate IsOkStatus(status: int) {
    200 <= status <= 299
  }
}
