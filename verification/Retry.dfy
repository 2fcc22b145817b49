/** Backed-off retries of one call, and falling back from one URL to the next. */
module Retry {
  import opened Arithmetic

  /** What one call gives: a value or an error. */
  datatype Response<+T, +E> = Ok(value: T) | Err(error: E)

  /** The outcome of a retried call, how many calls it made, and how long it slept. */
  datatype Retried<T, E> = Retried(response: Response<T, E>, calls: nat, slept: int)

  /** Calls `call(k)`, `call(k + 1)`, ... while retries and back-off allow. */
  function Retrier<T, E>(call: nat -> Response<T, E>, k: nat, maxRetryCount: int, minBackoffMs: int,
                         maxBackoffMs: int): Retried<T, E>
    decreases Max(maxRetryCount, 0)
  {
    var r := call(k);
    if r.Ok? || maxRetryCount <= 1 || minBackoffMs >= maxBackoffMs then Retried(r, 1, 0)
    else
      var rest := Retrier(call, k + 1, maxRetryCount - 1, minBackoffMs * 2, maxBackoffMs);
      Retried(rest.response, 1 + rest.calls, minBackoffMs + rest.slept)
  }

  /**
    For every pattern of failures: at least one call and at most max(1, maxRetryCount); every call
    but the last failed, and the last one's response is the outcome; sleeping stays below twice the
    maximal back-off.
   */
  lemma {:induction false} RetrierBounds<T, E>(call: nat -> Response<T, E>, k: nat, maxRetryCount: int,
                                               minBackoffMs: int, maxBackoffMs: int)
    requires minBackoffMs >= 0
    ensures var r := Retrier(call, k, maxRetryCount, minBackoffMs, maxBackoffMs);
            && 1 <= r.calls <= Max(1, maxRetryCount)
            && r.response == call(k + r.calls - 1)
            && (forall i :: k <= i < k + r.calls - 1 ==> call(i).Err?)
            && (r.slept == 0 || r.slept < 2 * maxBackoffMs - minBackoffMs)
            && r.slept >= 0
    decreases Max(maxRetryCount, 0)
  {
    if !(call(k).Ok? || maxRetryCount <= 1 || minBackoffMs >= maxBackoffMs) {
      RetrierBounds(call, k + 1, maxRetryCount - 1, minBackoffMs * 2, maxBackoffMs);
    }
  }

  /** How many back-offs stay below the maximum. */
  function Backoffs(minBackoffMs: int, maxBackoffMs: int): nat
    requires minBackoffMs > 0
    decreases maxBackoffMs - minBackoffMs
  {
    if minBackoffMs >= maxBackoffMs then 0 else 1 + Backoffs(minBackoffMs * 2, maxBackoffMs)
  }

  /** How many calls retries and back-off allow. */
  function Allowed(maxRetryCount: int, minBackoffMs: int, maxBackoffMs: int): (n: int)
    requires minBackoffMs > 0
    ensures n >= 1
  {
    Max(1, Min(maxRetryCount, Backoffs(minBackoffMs, maxBackoffMs) + 1))
  }

  /**
    The retries end in an error exactly when every call allowed fails, and then in the last one's;
    otherwise they end with the first call that succeeds.
   */
  lemma {:induction false} RetrierFailsExact<T, E>(call: nat -> Response<T, E>, k: nat, maxRetryCount: int,
                                                   minBackoffMs: int, maxBackoffMs: int)
    requires minBackoffMs > 0
    ensures var r, n := Retrier(call, k, maxRetryCount, minBackoffMs, maxBackoffMs),
                        Allowed(maxRetryCount, minBackoffMs, maxBackoffMs);
            && (r.response.Err? <==> forall i :: k <= i < k + n ==> call(i).Err?)
            && (r.response.Err? ==> r.calls == n && r.response == call(k + n - 1))
            && (r.response.Ok? ==> r.calls <= n && call(k + r.calls - 1) == r.response
                                   && forall i :: k <= i < k + r.calls - 1 ==> call(i).Err?)
    decreases Max(maxRetryCount, 0)
  {
    if !(call(k).Ok? || maxRetryCount <= 1 || minBackoffMs >= maxBackoffMs) {
      RetrierFailsExact(call, k + 1, maxRetryCount - 1, minBackoffMs * 2, maxBackoffMs);
    }
  }

  /** The delays double. */
  lemma {:induction false} SleptExact<T, E>(call: nat -> Response<T, E>, k: nat, maxRetryCount: int,
                                            minBackoffMs: int, maxBackoffMs: int)
    ensures var r := Retrier(call, k, maxRetryCount, minBackoffMs, maxBackoffMs);
            r.calls >= 1 && r.slept == minBackoffMs * (Pow2(r.calls - 1) - 1)
    decreases Max(maxRetryCount, 0)
  {
    if !(call(k).Ok? || maxRetryCount <= 1 || minBackoffMs >= maxBackoffMs) {
      SleptExact(call, k + 1, maxRetryCount - 1, minBackoffMs * 2, maxBackoffMs);
      var p := Pow2(Retrier(call, k + 1, maxRetryCount - 1, minBackoffMs * 2, maxBackoffMs).calls - 1);
      assert minBackoffMs * 2 * (p - 1) + minBackoffMs == minBackoffMs * (2 * p - 1);
    }
  }

  // ---------- falling back from URL to URL ----------

  const MAX_BACKOFF_MS := 10000

  /** One URL: a direct call first, and after it fails and a delay, the retried calls. */
  function TryUrl<T, E>(call: nat -> Response<T, E>, maxRetries: int, retryDelay: int): Response<T, E> {
    if call(0).Ok? then call(0) else Retrier(call, 1, maxRetries, retryDelay, MAX_BACKOFF_MS).response
  }

  datatype Requested<+T, +E> = Resolved(value: T) | Rejected(error: E) | Nothing

  /** With the default options: rejected URLs are passed over, resolved data is taken. */
  method RetryRequest<T, E>(urls: seq<nat -> Response<T, E>>, maxRetries: int, retryDelay: int)
      returns (r: Requested<T, E>)
    ensures r.Nothing? <==> urls == []
    ensures r.Resolved? ==> exists i :: 0 <= i < |urls| && TryUrl(urls[i], maxRetries, retryDelay) == Ok(r.value)
                                        && forall j :: 0 <= j < i ==> TryUrl(urls[j], maxRetries, retryDelay).Err?
    ensures r.Rejected? <==> urls != [] && forall j :: 0 <= j < |urls| ==> TryUrl(urls[j], maxRetries, retryDelay).Err?
    ensures r.Rejected? ==> TryUrl(urls[|urls| - 1], maxRetries, retryDelay) == Err(r.error)
  {
    r := Nothing;
    for i := 0 to |urls|
      invariant forall j :: 0 <= j < i ==> TryUrl(urls[j], maxRetries, retryDelay).Err?
      invariant i == |urls| ==> urls == []
      invariant r.Nothing?
    {
      var res := TryUrl(urls[i], maxRetries, retryDelay);
      match res {
        case Ok(value) => return Resolved(value);
        case Err(error) =>
          if i == |urls| - 1 {
            return Rejected(error);
          }
      }
    }
  }

  /**
    A URL fails exactly when its direct call and every call that retries and back-off allow fail, and
    then with the error of the last of them; otherwise it gives the first success.
   */
  lemma UrlExhausted<T, E>(call: nat -> Response<T, E>, maxRetries: int, retryDelay: int)
    requires retryDelay > 0
    ensures var r, n := TryUrl(call, maxRetries, retryDelay), Allowed(maxRetries, retryDelay, MAX_BACKOFF_MS);
            && (r.Err? <==> forall i :: 0 <= i <= n ==> call(i).Err?)
            && (r.Err? ==> r == call(n))
            && (r.Ok? ==> exists i :: 0 <= i <= n && r == call(i) && forall j :: 0 <= j < i ==> call(j).Err?)
  {
    RetrierFailsExact(call, 1, maxRetries, retryDelay, MAX_BACKOFF_MS);
    var r := TryUrl(call, maxRetries, retryDelay);
    if r.Ok? && call(0).Err? {
      var i := Retrier(call, 1, maxRetries, retryDelay, MAX_BACKOFF_MS).calls;
      assert r == call(i) && forall j :: 0 <= j < i ==> call(j).Err?;
    }
  }
}
