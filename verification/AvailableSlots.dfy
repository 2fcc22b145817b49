/** Search for the next slot that has a block (findNextAvailableSlot). */
module AvailableSlots {
  import opened Wrappers
  import opened Retry

  /** What the beacon node says about a slot's header; Missing is the 404 of a skipped slot. */
  datatype HeaderAnswer = Found | Missing | Broken

  /** How a request to one URL fails: with a status code, or in some other way. */
  datatype RequestFailure = Status(code: int) | OtherFailure

  /**
    One header over all URLs, where a call gives whether its body can be read. The slot counts as
    missing exactly when every URL fails and the last one ends with a 404, whatever the others say.
   */
  method GetBeaconHeader(urls: seq<nat -> Response<bool, RequestFailure>>, maxRetries: int, retryDelay: int)
    returns (r: HeaderAnswer)
    ensures r.Missing? <==>
            && urls != [] && (forall j :: 0 <= j < |urls| ==> TryUrl(urls[j], maxRetries, retryDelay).Err?)
            && TryUrl(urls[|urls| - 1], maxRetries, retryDelay) == Err(Status(404))
    ensures r.Found? <==>
            exists i :: 0 <= i < |urls| && TryUrl(urls[i], maxRetries, retryDelay) == Ok(true)
                        && forall j :: 0 <= j < i ==> TryUrl(urls[j], maxRetries, retryDelay).Err?
  {
    var response := RetryRequest(urls, maxRetries, retryDelay);
    r := match response
      case Resolved(readable) => if readable then Found else Broken
      case Rejected(error) => if error == Status(404) then Missing else Broken
      case Nothing => Broken;
  }

  const MAX_ATTEMPTS := 32

  /** The slot the search ends at: the first of `attempts` slots that is not missing, if it is found. */
  function NextSlot(headers: int -> HeaderAnswer, start: int, attempts: nat): Answer<int>
    decreases attempts
  {
    if attempts == 0 then Fails
    else match headers(start)
      case Found => Reply(start)
      case Missing => NextSlot(headers, start + 1, attempts - 1)
      case Broken => Fails
  }

  method FindNextAvailableSlot(headers: int -> HeaderAnswer, startSlot: int, maxAttempts: nat) returns (r: Answer<int>)
    ensures r == NextSlot(headers, startSlot, maxAttempts)
    ensures r.Reply? ==> startSlot <= r.value < startSlot + maxAttempts && headers(r.value).Found?
    ensures r.Reply? ==> forall s :: startSlot <= s < r.value ==> headers(s).Missing?
    ensures r.Fails? <==>
            (forall s :: startSlot <= s < startSlot + maxAttempts ==> headers(s).Missing?)
            || exists s :: startSlot <= s < startSlot + maxAttempts && headers(s).Broken?
                           && forall u :: startSlot <= u < s ==> headers(u).Missing?
  {
    var currentSlot := startSlot;
    for attempt := 0 to maxAttempts
      invariant currentSlot == startSlot + attempt
      invariant forall s :: startSlot <= s < currentSlot ==> headers(s).Missing?
      invariant NextSlot(headers, startSlot, maxAttempts) == NextSlot(headers, currentSlot, maxAttempts - attempt)
    {
      match headers(currentSlot) {
        case Found => return Reply(currentSlot);
        case Missing => currentSlot := currentSlot + 1;
        case Broken => return Fails;
      }
    }
    return Fails;
  }

  /** The search never ends before the slot it starts from. */
  lemma {:induction false} NextSlotFrom(headers: int -> HeaderAnswer, start: int, attempts: nat)
    ensures var r := NextSlot(headers, start, attempts);
            r.Reply? ==> start <= r.value < start + attempts && headers(r.value).Found?
    decreases attempts
  {
    if attempts > 0 && headers(start).Missing? {
      NextSlotFrom(headers, start + 1, attempts - 1);
    }
  }

  /** The slot has a block, and every slot before it from the start on is missing, within the attempt limit. */
  ghost predicate Finds(headers: int -> HeaderAnswer, start: int, attempts: nat, actual: int) {
    && start <= actual < start + attempts && headers(actual).Found?
    && forall s :: start <= s < actual ==> headers(s).Missing?
  }

  /** Every slot in reach is missing, or the first one that is not cannot be read. */
  ghost predicate NoneFound(headers: int -> HeaderAnswer, start: int, attempts: nat) {
    || (forall s :: start <= s < start + attempts ==> headers(s).Missing?)
    || exists s :: start <= s < start + attempts && headers(s).Broken?
                   && forall u :: start <= u < s ==> headers(u).Missing?
  }

  lemma {:induction false} NextSlotExact(headers: int -> HeaderAnswer, start: int, attempts: nat)
    ensures var r := NextSlot(headers, start, attempts);
            && (r.Fails? <==> NoneFound(headers, start, attempts))
            && (forall actual :: r == Reply(actual) <==> Finds(headers, start, attempts, actual))
    decreases attempts
  {
    if attempts > 0 && headers(start).Missing? {
      NextSlotExact(headers, start + 1, attempts - 1);
      forall actual
        ensures Finds(headers, start, attempts, actual) <==> Finds(headers, start + 1, attempts - 1, actual)
      {
      }
      if s :| start <= s < start + attempts && headers(s).Broken?
              && forall u :: start <= u < s ==> headers(u).Missing? {
        assert start + 1 <= s;
      }
    }
  }
}
