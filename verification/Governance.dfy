/** The response body limiter and the retry policy. */
module Governance {
  import opened Text

  // ----- limited body -----

  datatype BodyError = LimitExceeded | Inner(message: string)

  /** One answer of `poll_frame`. */
  datatype Poll = Pending | Finished | Data(bytes: seq<nat>) | Trailers | Failed(error: BodyError)

  function Size(poll: Poll): nat
  {
    if poll.Data? then |poll.bytes| else 0
  }

  /** The data bytes in a sequence of polls. */
  function Bytes(polls: seq<Poll>): nat
  {
    if polls == [] then 0 else Size(polls[0]) + Bytes(polls[1..])
  }

  function LimitOne(remaining: nat, poll: Poll): Poll
  {
    if Size(poll) > remaining then Failed(LimitExceeded) else poll
  }

  /** What a body with this many bytes remaining makes of the inner body's polls. */
  function Limited(remaining: nat, polls: seq<Poll>): (r: seq<Poll>)
    ensures |r| == |polls|
    decreases |polls|
  {
    if polls == [] then []
    else
      var out := LimitOne(remaining, polls[0]);
      [out] + Limited(remaining - Size(out), polls[1..])
  }

  lemma {:induction false} BytesConcat(a: seq<Poll>, b: seq<Poll>)
    ensures Bytes(a + b) == Bytes(a) + Bytes(b)
  {
    if a == [] {
      assert a + b == b;
    } else {
      assert (a + b)[1..] == a[1..] + b;
      BytesConcat(a[1..], b);
    }
  }

  lemma {:induction false} LimitedBytes(n: nat, polls: seq<Poll>)
    ensures Bytes(Limited(n, polls)) <= n
    decreases |polls|
  {
    if polls != [] {
      var out := LimitOne(n, polls[0]);
      LimitedBytes(n - Size(out), polls[1..]);
      assert Limited(n, polls)[1..] == Limited(n - Size(out), polls[1..]);
    }
  }

  lemma LimitedCons(n: nat, polls: seq<Poll>)
    requires polls != []
    ensures var out := LimitOne(n, polls[0]);
            && Limited(n, polls) == [out] + Limited(n - Size(out), polls[1..])
            && Bytes(Limited(n, polls)) == Size(out) + Bytes(Limited(n - Size(out), polls[1..]))
  {
    var out := LimitOne(n, polls[0]);
    assert ([out] + Limited(n - Size(out), polls[1..]))[1..] == Limited(n - Size(out), polls[1..]);
  }

  /** A run of polls is its first part, then the rest with what the first part left. */
  lemma {:induction false} LimitedConcat(n: nat, a: seq<Poll>, b: seq<Poll>, all: seq<Poll>, left: nat)
    requires all == a + b && left == n - Bytes(Limited(n, a))
    ensures Limited(n, all) == Limited(n, a) + Limited(left, b)
    decreases |a|
  {
    if a == [] {
      assert all == b;
    } else {
      var out := LimitOne(n, a[0]);
      var n' := n - Size(out);
      assert all[0] == a[0] && all[1..] == a[1..] + b;
      LimitedCons(n, a);
      LimitedCons(n, all);
      hide *;
      LimitedConcat(n', a[1..], b, all[1..], left);
      Regroup([out], Limited(n', a[1..]), Limited(left, b), Limited(n', all[1..]));
    }
  }

  /** Poll by poll: the inner answer unless it is data larger than what the delivered data left, even after an error. */
  lemma {:induction false} LimitedAt(n: nat, polls: seq<Poll>, i: nat)
    requires i < |polls|
    ensures var out := Limited(n, polls);
            && Bytes(out[..i]) <= n
            && out[i] == if Size(polls[i]) > n - Bytes(out[..i]) then Failed(LimitExceeded) else polls[i]
  {
    var before, rest := polls[..i], polls[i..];
    assert polls == before + rest;
    LimitedBytes(n, before);
    LimitedConcat(n, before, rest, polls, n - Bytes(Limited(n, before)));
    assert Limited(n, polls)[..i] == Limited(n, before);
  }

  /** The output is the inner stream exactly when all its data fits the limit. */
  lemma {:induction false} FitsExactly(n: nat, polls: seq<Poll>)
    ensures Limited(n, polls) == polls <==> Bytes(polls) <= n
    decreases |polls|
  {
    if polls != [] {
      var out := LimitOne(n, polls[0]);
      FitsExactly(n - Size(out), polls[1..]);
      assert polls == [polls[0]] + polls[1..];
      assert Limited(n, polls)[0] == out && Limited(n, polls)[1..] == Limited(n - Size(out), polls[1..]);
    }
  }

  /** Otherwise it is the inner stream up to the first frame past the limit, and an error in that frame's place. */
  lemma {:induction false} FirstExcess(n: nat, polls: seq<Poll>, k: nat)
    requires k < |polls| && Bytes(polls[..k]) <= n < Bytes(polls[..k + 1])
    ensures Limited(n, polls)[..k] == polls[..k]
    ensures Limited(n, polls)[k] == Failed(LimitExceeded)
  {
    FitsExactly(n, polls[..k]);
    assert polls == polls[..k] + polls[k..];
    LimitedConcat(n, polls[..k], polls[k..], polls, n - Bytes(polls[..k]));
    assert Limited(n, polls)[..k] == polls[..k];
    assert polls[..k + 1] == polls[..k] + [polls[k]];
    BytesConcat(polls[..k], [polls[k]]);
    assert Bytes([polls[k]]) == Size(polls[k]) + Bytes([]);
    LimitedAt(n, polls, k);
  }

  /** Data past the limit: there is a first frame that exceeds it, and the output is cut there. */
  lemma SomeExcess(n: nat, polls: seq<Poll>) returns (k: nat)
    requires Bytes(polls) > n
    ensures k < |polls| && Bytes(polls[..k]) <= n < Bytes(polls[..k + 1])
    ensures Limited(n, polls)[..k] == polls[..k] && Limited(n, polls)[k] == Failed(LimitExceeded)
  {
    k := 0;
    while Bytes(polls[..k + 1]) <= n
      invariant k < |polls| && Bytes(polls[..k]) <= n
      decreases |polls| - k
    {
      assert polls[..|polls|] == polls;
      k := k + 1;
    }
    FirstExcess(n, polls, k);
  }

  /** The bytes that a sequence of polls delivers, one after the other. */
  function Payload(polls: seq<Poll>): seq<nat>
  {
    if polls == [] then []
    else (match polls[0] case Data(bytes) => bytes case _ => []) + Payload(polls[1..])
  }

  lemma {:induction false} BytesArePayload(polls: seq<Poll>)
    ensures Bytes(polls) == |Payload(polls)|
  {
    if polls != [] {
      BytesArePayload(polls[1..]);
    }
  }

  /** In terms of the bytes themselves: the output is the inner stream exactly when there are no more than the limit. */
  lemma {:induction false} PayloadFits(n: nat, polls: seq<Poll>)
    ensures Limited(n, polls) == polls <==> |Payload(polls)| <= n
    ensures |Payload(Limited(n, polls))| <= n
  {
    hide *;
    FitsExactly(n, polls);
    LimitedBytes(n, polls);
    BytesArePayload(polls);
    BytesArePayload(Limited(n, polls));
  }

  /** The wrapper body; what the inner body answers to a poll comes in as a parameter. */
  class LimitedBody {
    var remaining: nat
    ghost const limit: nat
    ghost var received: seq<Poll>
    ghost var sent: seq<Poll>

    /** In every reachable state: bytes delivered plus bytes remaining are the limit. */
    ghost predicate Valid()
      reads this
    {
      && sent == Limited(limit, received)
      && Bytes(sent) + remaining == limit
    }

    constructor (max: nat)
      ensures Valid() && limit == max && received == [] && sent == []
    {
      limit := max;
      remaining := max;
      received := [];
      sent := [];
    }

    method PollFrame(res: Poll) returns (out: Poll)
      requires Valid()
      modifies this
      ensures Valid()
      ensures received == old(received) + [res] && sent == old(sent) + [out]
      ensures |Payload(sent)| + remaining == limit
      ensures match res
              case Data(bytes) =>
                if |bytes| > old(remaining) then out == Failed(LimitExceeded) && remaining == old(remaining)
                else out == res && remaining == old(remaining) - |bytes|
              case _ => out == res && remaining == old(remaining)
    {
      LimitedConcat(limit, received, [res], received + [res], remaining);
      BytesConcat(sent, [LimitOne(remaining, res)]);
      out := res;
      if res.Data? {
        if |res.bytes| > remaining {
          out := Failed(LimitExceeded);
        } else {
          remaining := remaining - |res.bytes|;
        }
      }
      received := received + [res];
      sent := sent + [out];
      assert Limited(old(remaining), [res]) == [out];
      BytesArePayload(sent);
    }
  }

  // ----- retries -----

  /** gRPC status codes; `Success` is the source's `Ok`. */
  datatype Code =
    | Success | Cancelled | Unknown | InvalidArgument | DeadlineExceeded | NoEntity | AlreadyExists
    | PermissionDenied | ResourceExhausted | FailedPrecondition | Aborted | OutOfRange | Unimplemented
    | Internal | Unavailable | DataLoss | Unauthenticated

  datatype GatewayError =
    | Encoding | Upstream(code: Code) | Http | Custom(status: nat) | MethodNotAllowed | NotFound

  datatype ServiceResult = Ok(status: nat) | Err(error: GatewayError)

  const SERVICE_UNAVAILABLE: nat := 503
  const BAD_GATEWAY: nat := 502

  predicate Retryable(result: ServiceResult)
  {
    match result
    case Ok(status) => status == SERVICE_UNAVAILABLE || status == BAD_GATEWAY
    case Err(error) => error.Upstream?
  }

  /** `GatewayRetryPolicy` */
  class RetryPolicy {
    var remainingAttempts: nat

    constructor (attempts: nat)
      ensures remainingAttempts == attempts
    {
      remainingAttempts := attempts;
    }

    method Retry(result: ServiceResult) returns (again: bool)
      modifies this
      ensures again <==> old(remainingAttempts) > 0 && Retryable(result)
      ensures again <==>
              && old(remainingAttempts) > 0
              && (result == Ok(502) || result == Ok(503) || (result.Err? && result.error.Upstream?))
      ensures remainingAttempts == old(remainingAttempts) - if again then 1 else 0
    {
      if remainingAttempts == 0 {
        return false;
      }
      match result
      case Ok(status) =>
        if status == SERVICE_UNAVAILABLE || status == BAD_GATEWAY {
          remainingAttempts := remainingAttempts - 1;
          return true;
        }
        return false;
      case Err(error) =>
        if error.Upstream? {
          remainingAttempts := remainingAttempts - 1;
          return true;
        }
        return false;
    }
  }

  /** The call whose result is final: the first that is not retryable, or the one after all attempts. */
  function FinalCall(outcomes: nat -> ServiceResult, attempts: nat, from: nat): (k: nat)
    ensures from <= k <= from + attempts
    ensures k == from + attempts || !Retryable(outcomes(k))
    ensures forall i :: from <= i < k ==> Retryable(outcomes(i))
    decreases attempts
  {
    if attempts == 0 || !Retryable(outcomes(from)) then from else FinalCall(outcomes, attempts - 1, from + 1)
  }

  /** A whole request under the policy: the i-th call of the service gives the i-th outcome. */
  method Drive(attempts: nat, outcomes: nat -> ServiceResult) returns (calls: nat, last: ServiceResult)
    ensures calls == FinalCall(outcomes, attempts, 0) + 1
    ensures last == outcomes(calls - 1)
  {
    var policy := new RetryPolicy(attempts);
    calls, last := 1, outcomes(0);
    var again := policy.Retry(last);
    while again
      invariant calls >= 1 && last == outcomes(calls - 1)
      invariant again ==> FinalCall(outcomes, attempts, 0) == FinalCall(outcomes, policy.remainingAttempts, calls)
      invariant !again ==> FinalCall(outcomes, attempts, 0) == calls - 1
      decreases policy.remainingAttempts, again
    {
      last := outcomes(calls);
      calls := calls + 1;
      again := policy.Retry(last);
    }
  }

  /** The error layer below the policy, with the handler the gateway always installs or none. */
  datatype Handler = NoHandler | Installed(statusOf: GatewayError -> nat)

  function ErrorLayer(handler: Handler, result: ServiceResult): ServiceResult
  {
    if result.Err? && handler.Installed? then Ok(handler.statusOf(result.error)) else result
  }

  /** What the policy sees: the outcomes of the calls as they come through the error layer. */
  function Layered(handler: Handler, outcomes: nat -> ServiceResult): nat -> ServiceResult
  {
    (i: nat) => ErrorLayer(handler, outcomes(i))
  }

  /**
   * With a handler in the error layer the policy never sees an error: a run ends in a response, and every call
   * before the last was answered with 502 or 503, so an upstream error is retried only if the handler maps it to
   * one of those. Without one, a service that always fails with an error of its own is the counterexample.
   */
  lemma AssembledRun(handler: Handler, attempts: nat)
    ensures (forall outcomes: nat -> ServiceResult :: RunOfResponses(Layered(handler, outcomes), attempts))
            <==> handler.Installed?
  {
    if handler.Installed? {
      forall outcomes: nat -> ServiceResult ensures RunOfResponses(Layered(handler, outcomes), attempts) {
        InstalledRun(handler, outcomes, attempts);
      }
    } else {
      var failing: nat -> ServiceResult := (i: nat) => Err(NotFound);
      var layered := Layered(handler, failing);
      var k := FinalCall(layered, attempts, 0);
      assert layered(k) == ErrorLayer(handler, failing(k)) == Err(NotFound);
      assert !RunOfResponses(layered, attempts);
    }
  }

  /** The final call gives a response, and each earlier one a response that is retried. */
  ghost predicate RunOfResponses(layered: nat -> ServiceResult, attempts: nat)
  {
    var k := FinalCall(layered, attempts, 0);
    && layered(k).Ok?
    && (k < attempts ==> layered(k) != Ok(502) && layered(k) != Ok(503))
    && forall i: nat :: i < k ==> layered(i) == Ok(502) || layered(i) == Ok(503)
  }

  lemma InstalledRun(handler: Handler, outcomes: nat -> ServiceResult, attempts: nat)
    requires handler.Installed?
    ensures RunOfResponses(Layered(handler, outcomes), attempts)
  {
    var layered := Layered(handler, outcomes);
    var k := FinalCall(layered, attempts, 0);
    assert forall i: nat :: layered(i) == ErrorLayer(handler, outcomes(i));
    forall i: nat | i < k ensures layered(i) == Ok(502) || layered(i) == Ok(503) {
      assert Retryable(layered(i));
    }
  }

  // ----- which errors are retried -----

  /** `map_code_to_status` */
  function StatusOfCode(code: Code): nat
  {
    match code
    case Success => 200
    case Cancelled => 499
    case InvalidArgument | FailedPrecondition | OutOfRange => 400
    case DeadlineExceeded => 504
    case NoEntity => 404
    case AlreadyExists | Aborted => 409
    case PermissionDenied => 403
    case ResourceExhausted => 429
    case Unimplemented => 501
    case Unavailable => SERVICE_UNAVAILABLE
    case Unauthenticated => 401
    case Unknown | Internal | DataLoss => 500
  }

  /** The status that `default_error_handler` answers with. */
  function DefaultStatus(error: GatewayError): nat
  {
    match error
    case Upstream(code) => StatusOfCode(code)
    case Http => 500
    case Custom(status) => status
    case MethodNotAllowed => 405
    case NotFound => 404
    case Encoding => 400
  }

  /** Every status the default handler can answer with, code by code. */
  lemma DefaultStatuses()
    ensures [StatusOfCode(Success), StatusOfCode(Cancelled), StatusOfCode(Unknown), StatusOfCode(InvalidArgument),
             StatusOfCode(DeadlineExceeded), StatusOfCode(NoEntity), StatusOfCode(AlreadyExists),
             StatusOfCode(PermissionDenied)] == [200, 499, 500, 400, 504, 404, 409, 403]
    ensures [StatusOfCode(ResourceExhausted), StatusOfCode(FailedPrecondition), StatusOfCode(Aborted),
             StatusOfCode(OutOfRange), StatusOfCode(Unimplemented), StatusOfCode(Internal), StatusOfCode(Unavailable),
             StatusOfCode(DataLoss), StatusOfCode(Unauthenticated)] == [429, 400, 409, 400, 501, 500, 503, 500, 401]
    ensures forall code :: DefaultStatus(Upstream(code)) == StatusOfCode(code)
    ensures forall status :: DefaultStatus(Custom(status)) == status
    ensures [DefaultStatus(Http), DefaultStatus(MethodNotAllowed), DefaultStatus(NotFound), DefaultStatus(Encoding)] ==
            [500, 405, 404, 400]
  {
  }

  predicate RetriedStatus(status: nat)
  {
    status == SERVICE_UNAVAILABLE || status == BAD_GATEWAY
  }

  /** The i-th call of the run was made, attempts are left, and the service answered it with this error. */
  ghost predicate FailsAt(handler: Handler, outcomes: nat -> ServiceResult, attempts: nat, i: nat, error: GatewayError)
  {
    i < attempts && i <= FinalCall(Layered(handler, outcomes), attempts, 0) && outcomes(i) == Err(error)
  }

  ghost predicate RetriedAt(handler: Handler, outcomes: nat -> ServiceResult, attempts: nat, i: nat)
  {
    i < FinalCall(Layered(handler, outcomes), attempts, 0)
  }

  /** Of whatever kind an error is: behind an installed handler it is retried exactly when it is made a 502 or 503. */
  lemma ErrorRetriedExactly(handler: Handler, outcomes: nat -> ServiceResult, attempts: nat, i: nat,
      error: GatewayError)
    requires handler.Installed? && FailsAt(handler, outcomes, attempts, i, error)
    ensures RetriedAt(handler, outcomes, attempts, i) <==> RetriedStatus(handler.statusOf(error))
  {
    var layered := Layered(handler, outcomes);
    var k := FinalCall(layered, attempts, 0);
    assert layered(i) == Ok(handler.statusOf(error));
    assert Retryable(layered(i)) <==> RetriedStatus(handler.statusOf(error));
  }

  /** With the default handler: of the upstream errors only `Unavailable` is retried, and a custom 502 or 503 is too. */
  lemma DefaultErrorRetried(outcomes: nat -> ServiceResult, attempts: nat, i: nat,
      error: GatewayError)
    requires FailsAt(Installed(DefaultStatus), outcomes, attempts, i, error)
    ensures RetriedAt(Installed(DefaultStatus), outcomes, attempts, i) <==>
            error == Upstream(Unavailable) || error == Custom(SERVICE_UNAVAILABLE) || error == Custom(BAD_GATEWAY)
  {
    ErrorRetriedExactly(Installed(DefaultStatus), outcomes, attempts, i, error);
  }

  /** While attempts are left, every upstream error is retried. */
  ghost predicate RetriesUpstream(handler: Handler)
  {
    forall outcomes: nat -> ServiceResult, attempts: nat, i: nat, code: Code ::
      FailsAt(handler, outcomes, attempts, i, Upstream(code)) ==> RetriedAt(handler, outcomes, attempts, i)
  }

  /**
   * What the policy promises of upstream errors holds exactly where no handler hides them from it, or where the
   * handler makes each of them a 502 or 503.
   */
  lemma UpstreamRetriedExactly(handler: Handler)
    ensures RetriesUpstream(handler) <==>
            handler.NoHandler? || forall code :: RetriedStatus(handler.statusOf(Upstream(code)))
  {
    if handler.NoHandler? {
      forall outcomes: nat -> ServiceResult, attempts: nat, i: nat, code: Code |
        FailsAt(handler, outcomes, attempts, i, Upstream(code))
        ensures RetriedAt(handler, outcomes, attempts, i)
      {
        assert Retryable(Layered(handler, outcomes)(i));
      }
    } else if RetriesUpstream(handler) {
      forall code ensures RetriedStatus(handler.statusOf(Upstream(code))) {
        var failing: nat -> ServiceResult := (i: nat) => Err(Upstream(code));
        assert FailsAt(handler, failing, 1, 0, Upstream(code));
        ErrorRetriedExactly(handler, failing, 1, 0, Upstream(code));
      }
    } else {
      var outcomes: nat -> ServiceResult, attempts: nat, i: nat, code: Code :|
        FailsAt(handler, outcomes, attempts, i, Upstream(code)) && !RetriedAt(handler, outcomes, attempts, i);
      ErrorRetriedExactly(handler, outcomes, attempts, i, Upstream(code));
    }
  }

  function Failing(error: GatewayError): nat -> ServiceResult
  {
    (i: nat) => Err(error)
  }

  /** An internal error upstream, three attempts, the default handler: no retry. The policy alone would make three. */
  lemma InternalNotRetried()
    ensures FinalCall(Layered(Installed(DefaultStatus), Failing(Upstream(Internal))), 3, 0) == 0
    ensures FinalCall(Failing(Upstream(Internal)), 3, 0) == 3
  {
    var failing, handler := Failing(Upstream(Internal)), Installed(DefaultStatus);
    assert failing(0) == Err(Upstream(Internal));
    assert Layered(handler, failing)(0) == ErrorLayer(handler, failing(0)) == Ok(DefaultStatus(Upstream(Internal)));
    assert !Retryable(Ok(500));
  }

  // ----- the gateway -----

  /** A response that is a 502 or 503, or an error that the handler makes one of them. */
  predicate Transient(statusOf: GatewayError -> nat, outcome: ServiceResult)
  {
    match outcome
    case Ok(status) => status == 502 || status == 503
    case Err(error) => statusOf(error) == 502 || statusOf(error) == 503
  }

  /**
   * Behind an installed handler, for responses and errors alike: every call before the last was transient, the last
   * one is not unless the attempts are used up, and the answer is the last call's response or its error's status.
   */
  lemma {:induction false} CallsExactly(handler: Handler, outcomes: nat -> ServiceResult, attempts: nat)
    requires handler.Installed?
    ensures var k := FinalCall(Layered(handler, outcomes), attempts, 0);
            && k <= attempts
            && (forall i: nat :: i < k ==> Transient(handler.statusOf, outcomes(i)))
            && (Transient(handler.statusOf, outcomes(k)) ==> k == attempts)
            && (match outcomes(k)
                case Ok(status) => Layered(handler, outcomes)(k) == Ok(status)
                case Err(error) => Layered(handler, outcomes)(k) == Ok(handler.statusOf(error)))
  {
    var layered := Layered(handler, outcomes);
    forall i: nat ensures Retryable(layered(i)) <==> Transient(handler.statusOf, outcomes(i)) {
      assert layered(i) == ErrorLayer(handler, outcomes(i));
    }
    var k := FinalCall(layered, attempts, 0);
    assert k == attempts || !Retryable(layered(k));
  }

  /** Without a retry layer the service is called once. */
  function AttemptsOf(retryCount: Option<nat>): nat
  {
    if retryCount.Some? then retryCount.value else 0
  }

  /** The gateway builder, as far as errors and retries go. */
  class Gateway {
    var errorHandler: Handler
    var retryCount: Option<nat>

    /** Holds of every gateway that `new` and the builder's methods can make. */
    ghost predicate Valid()
      reads this
    {
      errorHandler.Installed?
    }

    constructor ()
      ensures Valid() && errorHandler == Installed(DefaultStatus) && retryCount == None
    {
      errorHandler := Installed(DefaultStatus);
      retryCount := None;
    }

    method WithErrorHandler(handler: GatewayError -> nat)
      requires Valid()
      modifies this`errorHandler
      ensures Valid() && errorHandler == Installed(handler)
    {
      errorHandler := Installed(handler);
    }

    method WithGovernance(count: Option<nat>)
      requires Valid()
      modifies this`retryCount
      ensures Valid() && retryCount == count
    {
      retryCount := count;
    }

    /** One request through the inner stack: the retry layer, if configured, around the error layer. */
    method Serve(outcomes: nat -> ServiceResult) returns (calls: nat, last: ServiceResult)
      requires Valid()
      ensures var layered, attempts := Layered(errorHandler, outcomes), AttemptsOf(retryCount);
              && calls == FinalCall(layered, attempts, 0) + 1
              && last == layered(calls - 1)
              && RunOfResponses(layered, attempts)
      ensures calls >= 1 && (retryCount.None? ==> calls == 1) && (retryCount.Some? ==> calls <= retryCount.value + 1)
      ensures forall i: nat :: i < calls - 1 ==> Transient(errorHandler.statusOf, outcomes(i))
      ensures Transient(errorHandler.statusOf, outcomes(calls - 1)) ==>
                retryCount.None? || calls == retryCount.value + 1
      ensures match outcomes(calls - 1)
              case Ok(status) => last == Ok(status)
              case Err(error) => last == Ok(errorHandler.statusOf(error))
    {
      var layered := Layered(errorHandler, outcomes);
      InstalledRun(errorHandler, outcomes, AttemptsOf(retryCount));
      CallsExactly(errorHandler, outcomes, AttemptsOf(retryCount));
      if retryCount.Some? {
        calls, last := Drive(retryCount.value, layered);
      } else {
        calls, last := 1, layered(0);
      }
    }
  }
}
