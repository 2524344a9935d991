/** What the page accepts as an answer about a command run, and how it classifies failures. */
module CommandRunClient {
  import opened ByteStrings
  import opened Wrappers

  /** Text is UTF-8 encoded; `detail` is the rendered progress amount. */
  datatype RunEvent =
    | OutputEvent(sequence: nat, text: Text)
    | ProgressEvent(sequence: nat, id: string, message: Text, detail: Text)

  datatype RunState = Running | Canceling | Exited | Canceled | Failed

  datatype Snapshot = Snapshot(
    id: string, address: string, state: RunState, exitCode: Option<int>, error: Option<string>,
    nextCursor: nat, events: seq<RunEvent>, truncated: bool)

  predicate Active(snapshot: Option<Snapshot>) {
    snapshot.Some? && (snapshot.value.state == Running || snapshot.value.state == Canceling)
  }

  datatype Body =
    | Document(snapshot: Snapshot)
    | Unusable
    | Interrupted

  datatype Response =
    | NoResponse
    | Http(status: nat, location: Option<string>, body: Body)  // `location`: the run id the Location header spells

  /** The outcome of one request, with failures as the view tells them apart. */
  datatype Reply =
    | Fetched(snapshot: Snapshot)
    | Rejected(status: nat)
    | Unreachable
    | Malformed

  /** Every sequence is above `floor`, and each is above the one before it. */
  predicate Ascending(events: seq<RunEvent>, floor: nat) {
    events == [] || (floor < events[0].sequence && Ascending(events[1..], events[0].sequence))
  }

  function LastSequence(events: seq<RunEvent>, floor: nat): nat {
    if events == [] then floor else events[|events| - 1].sequence
  }

  predicate Normal(s: Snapshot) {
    && s.id != "" && s.address != ""
    && (s.state == Exited <==> s.exitCode.Some?)
    && (if s.state == Failed then s.error.Some? && s.error.value != "" else s.error == None)
    && Ascending(s.events, 0) && LastSequence(s.events, 0) <= s.nextCursor
  }

  function ReadBody(body: Body): Reply {
    match body
    case Interrupted => Unreachable
    case Unusable => Malformed
    case Document(s) => if Normal(s) then Fetched(s) else Malformed
  }

  function StartCommandRun(response: Response): Reply {
    match response
    case NoResponse => Unreachable
    case Http(status, location, body) =>
      if status != 201 then Rejected(status)
      else if location == None then Malformed
      else
        var reply := ReadBody(body);
        if reply.Fetched? && location.value != reply.snapshot.id then Malformed else reply
  }

  function ReadCommandRun(id: string, after: nat, response: Response): Reply {
    match response
    case NoResponse => Unreachable
    case Http(status, _, body) =>
      if status != 200 then Rejected(status)
      else
        var reply := ReadBody(body);
        if !reply.Fetched? then reply
        else
          var s := reply.snapshot;
          if s.id != id then Malformed
          else if s.nextCursor < after || exists e :: e in s.events && e.sequence <= after then Malformed
          else reply
  }

  predicate CancelAccepted(response: Response) {
    response.Http? && response.status == 204
  }

  predicate RetryableRead(reply: Reply) {
    reply.Unreachable? || (reply.Rejected? && reply.status >= 500)
  }

  // ---------------------------------------------------------------- ascending events

  lemma {:induction false} AscendingAt(events: seq<RunEvent>, floor: nat)
    ensures Ascending(events, floor) <==>
            && (forall i :: 0 <= i < |events| ==> floor < events[i].sequence)
            && (forall i, j :: 0 <= i < j < |events| ==> events[i].sequence < events[j].sequence)
  {
    if events != [] {
      var tail := events[1..];
      AscendingAt(tail, events[0].sequence);
      assert forall i :: 0 < i < |events| ==> events[i] == tail[i - 1];
      assert forall i :: 0 <= i < |tail| ==> tail[i] == events[i + 1];
    }
  }

  lemma AscendingConcat(a: seq<RunEvent>, b: seq<RunEvent>, floor: nat)
    requires Ascending(a, floor) && Ascending(b, LastSequence(a, floor))
    ensures Ascending(a + b, floor)
  {
    AscendingAt(a, floor);
    AscendingAt(b, LastSequence(a, floor));
    AscendingAt(a + b, floor);
  }

  lemma AscendingAbove(events: seq<RunEvent>, floor: nat, cursor: nat)
    requires Ascending(events, floor) && forall e :: e in events ==> cursor < e.sequence
    ensures Ascending(events, cursor)
  {
    AscendingAt(events, floor);
    AscendingAt(events, cursor);
  }

  lemma AscendingBelow(events: seq<RunEvent>, floor: nat, e: RunEvent)
    requires Ascending(events, floor) && e in events
    ensures e.sequence <= LastSequence(events, floor)
  {
    AscendingAt(events, floor);
  }

  /** An answer that is accepted continues strictly after the requested cursor and stops at its own. */
  lemma FetchedContinues(id: string, after: nat, response: Response)
    requires ReadCommandRun(id, after, response).Fetched?
    ensures var s := ReadCommandRun(id, after, response).snapshot;
            && s.id == id && after <= s.nextCursor && Ascending(s.events, after)
            && LastSequence(s.events, after) <= s.nextCursor
  {
    var s := ReadCommandRun(id, after, response).snapshot;
    AscendingAbove(s.events, 0, after);
  }
}
