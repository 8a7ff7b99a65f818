/**
 The retry policy below every request of a download: which answers are asked for again, and that the answer which ends
 the tries is the one the rest of the model works with.
 */
module Retries {
  import opened Wrappers
  import opened Bytes
  import opened Download

  /** `Attempt`: what one try comes to. */
  datatype Step = Good(fetched: Fetched) | Again(error: DownloadError) | Fatal(error: DownloadError)

  /** `transport_attempt` and `handle_download_response`. Which transport errors may pass is up to the transport. */
  function Handle(r: Response, readLimit: nat, exact: Option<nat>, passing: nat -> bool): Step {
    match r
    case NoResponse(reason) => if passing(reason) then Again(Transport(reason)) else Fatal(Transport(reason))
    case Response(status, etag, range, body) =>
      match Classify(status)
      case Read =>
        if exact.Some? && status != 206 then Good(Fetched(status, etag, range, []))
        else if exact.Some? then
          if |body| < exact.value then Again(DownloadFailed(BodyTruncated))
          else Good(Fetched(status, etag, range, body[..exact.value]))
        else if |body| > readLimit then Fatal(DownloadFailed(BodyTooLarge))
        else Good(Fetched(status, etag, range, body))
      case RangeNotSatisfiable => Good(Fetched(status, etag, range, []))
      case Retryable => Again(Status(status))
      case Terminal => Fatal(Status(status))
  }

  /** Worth another try: too many requests, a failing server, a slice cut short, or a passing transport error. */
  predicate Transient(r: Response, exact: Option<nat>, passing: nat -> bool) {
    match r
    case NoResponse(reason) => passing(reason)
    case Response(status, _, _, body) =>
      || status == 429
      || status / 100 == 5
      || (status == 206 && exact.Some? && |body| < exact.value)
  }

  /** A try goes on exactly after a transient answer, and otherwise stops with what `Fetch` says of the answer. */
  lemma HandleIs(r: Response, readLimit: nat, exact: Option<nat>, passing: nat -> bool)
    ensures var s, f := Handle(r, readLimit, exact, passing), Fetch(r, readLimit, exact);
            && (s.Again? <==> Transient(r, exact, passing))
            && (s.Good? <==> f.Ok?)
            && f == if s.Good? then Ok(s.fetched) else Err(s.error)
  {
  }

  /** Try `k` ends the tries: all before it were transient, and it is not, or it is the last allowed. */
  ghost predicate Settles(tries: nat -> Response, exact: Option<nat>, passing: nat -> bool, maxAttempts: nat, k: nat) {
    && (forall i :: 0 <= i < k ==> Transient(tries(i), exact, passing))
    && (k == 0 || k < maxAttempts)
    && (Transient(tries(k), exact, passing) ==> k + 1 >= maxAttempts)
  }

  lemma SettlesOnce(tries: nat -> Response, exact: Option<nat>, passing: nat -> bool, maxAttempts: nat, j: nat, k: nat)
    requires Settles(tries, exact, passing, maxAttempts, j) && Settles(tries, exact, passing, maxAttempts, k)
    ensures j == k
  {
    assert j < k ==> Transient(tries(j), exact, passing);
    assert k < j ==> Transient(tries(k), exact, passing);
  }

  /** `with_retry` around one request, not cancelled: the result is that of the one answer that ends the tries. */
  method WithRetry(tries: nat -> Response, readLimit: nat, exact: Option<nat>, passing: nat -> bool, maxAttempts: u32)
    returns (r: Result<Fetched, DownloadError>, k: nat)
    ensures Settles(tries, exact, passing, maxAttempts, k)
    ensures r == Fetch(tries(k), readLimit, exact)
  {
    hide Handle, Transient, Fetch;
    var attempt: u32 := 0;
    while true
      invariant attempt == 0 || attempt < maxAttempts
      invariant forall i :: 0 <= i < attempt ==> Transient(tries(i), exact, passing)
      decreases U32_MAX - attempt
    {
      HandleIs(tries(attempt), readLimit, exact, passing);
      match Handle(tries(attempt), readLimit, exact, passing) {
        case Good(fetched) =>
          return Ok(fetched), attempt;
        case Fatal(error) =>
          return Err(error), attempt;
        case Again(error) =>
          var next: u32 := attempt + 1; // never saturates
          if next >= maxAttempts {
            return Err(error), attempt;
          }
          attempt := next;
      }
    }
  }
}
