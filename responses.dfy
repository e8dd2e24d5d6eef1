/** Response constructors (pkg/response/errors.go). */
module Responses {
  import opened Types

  /** A response whose message holds only the key `error`. */
  function ErrorFromString(status: int, error: string): (r: Response)
    ensures r.status == status
    ensures r.message.Keys == {"error"} && r.message["error"] == error
  {
    Response(status, map["error" := error])
  }

  function Error(status: int, error: string): (r: ErrorResponse)
    ensures r.status == status && r.error == error
  {
    ErrorResponse(status, error)
  }

  /** Distinct inputs give distinct responses: both constructors keep all they
      are given. */
  lemma ErrorFromStringInjective(s1: int, e1: string, s2: int, e2: string)
    requires ErrorFromString(s1, e1) == ErrorFromString(s2, e2)
    ensures s1 == s2 && e1 == e2
  {
    assert ErrorFromString(s1, e1).message["error"] == e1;
  }

  lemma ErrorInjective(s1: int, e1: string, s2: int, e2: string)
    requires Error(s1, e1) == Error(s2, e2)
    ensures s1 == s2 && e1 == e2
  {
  }
}
