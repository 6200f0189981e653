/**
 The final step shared by every non-streamed send operation: the decoded
 server envelope becomes the library's `Result`.
 */
module ServerResponses {
  import opened Types

  /** A server error object becomes `BackendError`; a completion passes through. */
  function IntoResult<C>(response: ServerResponse<C>): (r: Result<C, CrateError>)
    ensures r.Ok? <==> response.Completion?
    ensures r.Ok? ==> r.value == response.completion
    ensures r.Err? ==> r.error.BackendError?
    ensures r.Err? ==> r.error.message == response.error.message
    ensures r.Err? ==> r.error.errorType == response.error.errorType
  {
    match response
    case Error(error) => Err(BackendError(error.message, error.errorType))
    case Completion(completion) => Ok(completion)
  }

  /** The envelope a result could have come from; other errors have none. */
  function FromResult<C>(r: Result<C, CrateError>): Option<ServerResponse<C>> {
    match r
    case Ok(completion) => Some(Completion(completion))
    case Err(BackendError(message, errorType)) => Some(Error(ServerError(message, errorType)))
    case Err(_) => None
  }

  /** The mapping loses nothing: the envelope is recovered from the result. */
  lemma {:induction false} IntoResultRecoverable<C>(response: ServerResponse<C>)
    ensures FromResult(IntoResult(response)) == Some(response)
  {
  }

  /** Distinct envelopes give distinct results. */
  lemma {:induction false} IntoResultInjective<C>(a: ServerResponse<C>, b: ServerResponse<C>)
    requires IntoResult(a) == IntoResult(b)
    ensures a == b
  {
    IntoResultRecoverable(a);
    IntoResultRecoverable(b);
  }
}
