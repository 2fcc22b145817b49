/** Exit requests of a block range, from the events found in it. */
module ExitEvents {
  import opened Wrappers
  import opened Selection
  import opened ValidatorStorage

  /**
    What reading one event comes to: an exit request, or nothing, because the transaction or its data
    is missing, unsuccessful or undecodable, or an error is swallowed.
   */
  datatype Event = Read(request: ExitRequest) | Lost

  /** The requests of the events that could be read, in order. */
  function Readable(events: seq<Event>): seq<ExitRequest> {
    if events == [] then []
    else
      var last := events[|events| - 1];
      Readable(events[..|events| - 1]) + if last.Read? then [last.request] else []
  }

  /** Only failing to list the events is an exception. */
  function RequestsIn(events: Answer<seq<Event>>): Answer<seq<ExitRequest>> {
    if events.Fails? then Fails else Reply(Readable(events.value))
  }

  lemma {:induction false} ReadableExact(events: seq<Event>, r: ExitRequest)
    ensures r in Readable(events) <==> Read(r) in events
  {
    if events != [] {
      ReadableExact(events[..|events| - 1], r);
    }
  }

  /** The requests are those of the readable events, in their order, one for each. */
  lemma {:induction false} ReadableInOrder(events: seq<Event>) returns (ps: seq<nat>)
    ensures Positions(ps, |events|) && forall k :: 0 <= k < |events| ==> (k in ps <==> events[k].Read?)
    ensures |Readable(events)| == |ps| && forall j :: 0 <= j < |ps| ==> events[ps[j]] == Read(Readable(events)[j])
  {
    ps := [];
    if events != [] {
      var n := |events| - 1;
      ps := ReadableInOrder(events[..n]);
      PositionsAppend(ps, n);
      if events[n].Read? {
        ps := ps + [n];
      }
    }
  }

  lemma RequestsExact(events: Answer<seq<Event>>, r: ExitRequest)
    ensures RequestsIn(events).Reply? && r in RequestsIn(events).value <==> events.Reply? && Read(r) in events.value
  {
    if events.Reply? {
      ReadableExact(events.value, r);
    }
  }

  method GetExitRequestsFromBlock(events: Answer<seq<Event>>) returns (r: Answer<seq<ExitRequest>>)
    ensures r == RequestsIn(events)
    ensures r.Fails? <==> events.Fails?
  {
    if events.Fails? {
      return Fails;
    }
    var results := [];
    for i := 0 to |events.value|
      invariant results == Readable(events.value[..i])
    {
      assert events.value[..i + 1] == events.value[..i] + [events.value[i]];
      match events.value[i] {
        case Lost =>
        case Read(request) => results := results + [request];
      }
    }
    assert events.value[..|events.value|] == events.value;
    return Reply(results);
  }
}
