/** How the relay sees its remote services: each call either yields a value or throws. */
module Outcomes {

  datatype Option<+T> = None | Some(value: T)

  /** A thrown JavaScript error: its `message`, and `response.data` when the error
      came from an HTTP response (axios sets `error.response` on a non-2xx reply). */
  datatype Failure = Failure(message: string, responseData: Option<string>)

  /** What an awaited remote call gives back: a value, or the error it throws. */
  datatype Outcome<+T> = Ok(value: T) | Err(failure: Failure)
}
