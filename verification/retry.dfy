/** `TRetryLayer`: the inner service is called with the same request until
    it answers with a value or `MaxAttempts` calls have been made. The inner
    service is a function from the request and the attempt number to its
    answer; delays between attempts and logging are not modelled. */
module Retry {

  /** `uint8`. */
  newtype uint8 = x: int | 0 <= x < 256

  /** `FRetryConfig`; the delay is kept as a real number of seconds. */
  datatype RetryConfig = RetryConfig(MaxAttempts: uint8, DelayBetweenRetries: real)

  const DefaultConfig: RetryConfig := RetryConfig(3, 0.1)

  /** `TResult`: a value, an error, or, default-constructed, neither. */
  datatype Outcome<R, E> = Value(value: R) | Error(error: E) | Unset {
    predicate IsValid() {
      Value?
    }
  }

  /** The answer from attempt `a` on, up to attempt `max`. */
  function From<Q, R, E>(max: nat, req: Q, inner: (Q, nat) -> Outcome<R, E>, a: nat): (r: Outcome<R, E>)
    requires 1 <= a <= max
    ensures exists k :: a <= k <= max && r == inner(req, k)
    decreases max - a
  {
    var o := inner(req, a);
    if o.IsValid() || a >= max then o else From(max, req, inner, a + 1)
  }

  /** Reference for the retry loop: the first valid answer among attempts
      `1..max`, else the answer of attempt `max`; nothing when `max` is 0. */
  function RetryOutcome<Q, R, E>(max: nat, req: Q, inner: (Q, nat) -> Outcome<R, E>): (r: Outcome<R, E>)
    ensures max == 0 ==> r == Unset
    ensures max > 0 ==> exists k :: 1 <= k <= max && r == inner(req, k)
  {
    if max == 0 then Unset else From(max, req, inner, 1)
  }

  /** Every call made so far was made with `req`. */
  ghost predicate AllSame<Q>(calls: seq<Q>, req: Q) {
    forall i :: 0 <= i < |calls| ==> calls[i] == req
  }

  /** `FTRetryServiceWrapper::Call`: the result and the requests sent to the
      inner service, in order. */
  method RetryCall<Q, R, E>(config: RetryConfig, req: Q, inner: (Q, nat) -> Outcome<R, E>)
    returns (result: Outcome<R, E>, calls: seq<Q>)
    ensures |calls| <= config.MaxAttempts as int && AllSame(calls, req)
    ensures config.MaxAttempts == 0 ==> calls == [] && result == Unset
    ensures config.MaxAttempts > 0 ==> |calls| >= 1 && result == inner(req, |calls|)
    ensures forall a :: 1 <= a < |calls| ==> !inner(req, a).IsValid()
    ensures |calls| < config.MaxAttempts as int ==> result.IsValid()
    ensures result == RetryOutcome(config.MaxAttempts as int, req, inner)
  {
    var max := config.MaxAttempts as int;
    calls := [];
    var attempt := 1;
    while attempt <= max
      invariant 1 <= attempt <= if max == 0 then 1 else max
      invariant |calls| == attempt - 1 && AllSame(calls, req)
      invariant forall a :: 1 <= a < attempt ==> !inner(req, a).IsValid()
      invariant max > 0 ==> RetryOutcome(max, req, inner) == From(max, req, inner, attempt)
      decreases max - attempt
    {
      var r := inner(req, attempt);
      calls := calls + [req];
      if r.IsValid() {
        return r, calls;
      }
      if attempt >= max {
        return r, calls;
      }
      attempt := attempt + 1;
    }
    return Unset, calls;
  }

  /** The reference stops at the first valid answer. */
  lemma {:induction false} FirstValidWins<Q, R, E>(max: nat, req: Q, inner: (Q, nat) -> Outcome<R, E>, k: nat)
    requires 1 <= k <= max && inner(req, k).IsValid()
    requires forall a :: 1 <= a < k ==> !inner(req, a).IsValid()
    ensures RetryOutcome(max, req, inner) == inner(req, k)
  {
    FromFirstValid(max, req, inner, 1, k);
  }

  lemma {:induction false} FromFirstValid<Q, R, E>(max: nat, req: Q, inner: (Q, nat) -> Outcome<R, E>, a: nat, k: nat)
    requires 1 <= a <= k <= max && inner(req, k).IsValid()
    requires forall b :: a <= b < k ==> !inner(req, b).IsValid()
    ensures From(max, req, inner, a) == inner(req, k)
    decreases k - a
  {
    if a < k {
      FromFirstValid(max, req, inner, a + 1, k);
    }
  }

  /** When every attempt fails the reference is the answer of the last one. */
  lemma {:induction false} AllFailLast<Q, R, E>(max: nat, req: Q, inner: (Q, nat) -> Outcome<R, E>, a: nat)
    requires 1 <= a <= max
    requires forall b :: a <= b <= max ==> !inner(req, b).IsValid()
    ensures From(max, req, inner, a) == inner(req, max)
    decreases max - a
  {
    if a < max {
      AllFailLast(max, req, inner, a + 1);
    }
  }

  /** With the default configuration a service that fails twice and then
      answers is called three times and its answer is returned. */
  lemma DefaultRetriesTwice(inner: (int, nat) -> Outcome<int, int>)
    requires inner(0, 1) == Error(1) && inner(0, 2) == Error(2) && inner(0, 3) == Value(7)
    ensures RetryOutcome(DefaultConfig.MaxAttempts as int, 0, inner) == Value(7)
  {
    FirstValidWins(3, 0, inner, 3);
  }
}
