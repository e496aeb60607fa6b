/** The client end of the Windows control pipe in src/control_transport.rs: open the name, and
    while every instance is in use try again until the budget is spent.

    What each open answers, and the clock when it has answered, come from a script. When the
    script runs out the future has been dropped. */
module PipeClient {
  import opened Wrappers

  datatype Answer = Opened(ownedByUs: bool) | PipeBusy | OtherError

  datatype Attempt = Attempt(answer: Answer, clock: nat)

  datatype ConnectError = Saturated | ForeignOwner | OpenFailed

  const CLIENT_BUSY_BUDGET := 1000

  /** The attempt is one that `connect` makes another after. */
  predicate Retries(a: Attempt, deadline: nat) {
    a.answer.PipeBusy? && a.clock < deadline
  }

  /** `connect`, started when the clock reads `start`; `None` when the future is dropped first.
      The result is that of the first attempt, `at`, that is not busy within the budget. A
      client is handed out only after its owner is checked, and "saturated" is said only of a
      name that every attempt has found, when the budget is spent. */
  method Connect(start: nat, script: seq<Attempt>) returns (r: Option<Result<nat, ConnectError>>, at: nat)
    ensures at <= |script| && forall i :: 0 <= i < at ==> Retries(script[i], start + CLIENT_BUSY_BUDGET)
    ensures r.None? <==> at == |script|
    ensures at < |script| ==> !Retries(script[at], start + CLIENT_BUSY_BUDGET)
    ensures r.Some? && at < |script| ==>
              && (r.value == Ok(at) <==> script[at].answer == Opened(true))
              && (r.value == Err(ForeignOwner) <==> script[at].answer == Opened(false))
              && (r.value == Err(OpenFailed) <==> script[at].answer == OtherError)
              && (r.value == Err(Saturated) <==>
                    script[at].answer.PipeBusy? && start + CLIENT_BUSY_BUDGET <= script[at].clock)
  {
    var deadline := start + CLIENT_BUSY_BUDGET;
    at := 0;
    while at < |script|
      invariant at <= |script| && forall i :: 0 <= i < at ==> Retries(script[i], deadline)
    {
      match script[at].answer {
        case Opened(ownedByUs) =>
          return Some(if ownedByUs then Ok(at) else Err(ForeignOwner)), at;
        case PipeBusy =>
          if script[at].clock >= deadline { return Some(Err(Saturated)), at; }
        case OtherError =>
          return Some(Err(OpenFailed)), at;
      }
      at := at + 1;
    }
    return None, at;
  }
}
