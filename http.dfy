/** What a request handler or middleware of the Express server does with a request. */
module Http {

  /** A middleware either calls `next()` (once) or answers `res.status(status).json({ error })`. */
  datatype Verdict = Next | Reject(status: int, error: string)

  /** The body of a response: a JSON payload, `{ error: ... }`, or nothing (`res.send()`). */
  datatype Body<+T> = Payload(value: T) | ErrorBody(error: string) | NoBody

  datatype Response<+T> = Response(status: int, body: Body<T>)
}
