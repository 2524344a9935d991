/** The view, the requests it waits for and the Host, under every interleaving of their steps. */
module CommandRunSystem {
  import opened CommandRunClient
  import opened CommandRunView
  import opened Wrappers

  /** A request under way; the Host answers it at one moment and the answer arrives at a later one. */
  datatype Flight = Flight(request: Request, response: Option<Response>)

  /** The events of one run, oldest first, of which the Host still retains all but the `dropped` oldest. */
  datatype HostRun = HostRun(address: string, events: seq<RunEvent>, dropped: nat)

  datatype System = System(view: View, flights: map<nat, Flight>, issued: nat, host: map<string, HostRun>)

  datatype Action =
    | TimerExpires
    | ExecutePress(runnable: bool)
    | CancelPress
    | RestoreCall(stored: string)
    | AnswerArrives(ticket: nat)
    | HostAnswers(ticket: nat, response: Response)
    | HostStartsRun(id: string, address: string)
    | HostRecords(id: string, event: RunEvent, drops: nat)

  const START := System(INITIAL, map[], 0, map[])

  predicate OfPage(action: Action) {
    action.TimerExpires? || action.ExecutePress? || action.CancelPress? || action.RestoreCall?
  }

  /** What the page does at once; a handler that goes on to wait returns its request. */
  function Handled(v: View, action: Action): (View, Option<Request>)
    requires OfPage(action)
  {
    match action
    case TimerExpires => TimerFired(v)
    case ExecutePress(runnable) => ExecutePressed(v, runnable)
    case CancelPress => CancelPressed(v)
    case RestoreCall(stored) => RestoreCalled(v, stored)
  }

  function Issued(s: System, outcome: (View, Option<Request>)): System {
    match outcome.1
    case None => s.(view := outcome.0)
    case Some(request) =>
      s.(view := outcome.0, flights := s.flights[s.issued := Flight(request, None)], issued := s.issued + 1)
  }

  function Answered(v: View, request: Request, response: Response): View {
    match request
    case StartWait => StartAnswered(v, StartCommandRun(response))
    case CancelWait(version, id) => CancelAnswered(v, version, id, CancelAccepted(response))
    case PollWait(version, expected, after) =>
      PollAnswered(v, version, expected, ReadCommandRun(expected.id, after, response))
    case RestoreWait(version, id) => RestoreAnswered(v, version, id, ReadCommandRun(id, 0, response))
  }

  /** An action that is not enabled leaves the system as it is. */
  function Step(s: System, action: Action): System {
    match action
    case TimerExpires => Issued(s, Handled(s.view, action))
    case ExecutePress(_) => Issued(s, Handled(s.view, action))
    case CancelPress => Issued(s, Handled(s.view, action))
    case RestoreCall(_) => Issued(s, Handled(s.view, action))
    case AnswerArrives(ticket) =>
      if ticket in s.flights && s.flights[ticket].response.Some? then
        s.(view := Answered(s.view, s.flights[ticket].request, s.flights[ticket].response.value),
           flights := s.flights - {ticket})
      else s
    case HostAnswers(ticket, response) =>
      if ticket in s.flights && s.flights[ticket].response == None then
        s.(flights := s.flights[ticket := s.flights[ticket].(response := Some(response))])
      else s
    case HostStartsRun(id, address) =>
      if id !in s.host then s.(host := s.host[id := HostRun(address, [], 0)]) else s
    case HostRecords(id, event, drops) =>
      if id in s.host && LastSequence(s.host[id].events, 0) < event.sequence
         && s.host[id].dropped + drops <= |s.host[id].events| + 1 then
        s.(host := s.host[id := s.host[id].(events := s.host[id].events + [event], dropped := s.host[id].dropped + drops)])
      else s
  }

  function After(actions: seq<Action>): System {
    if actions == [] then START else Step(After(actions[..|actions| - 1]), actions[|actions| - 1])
  }

  // ---------------------------------------------------------------- what every reachable state keeps

  predicate Current(v: View, r: Request) {
    !r.StartWait? && r.version == v.pollVersion
  }

  predicate TimerCurrent(v: View) {
    !v.timer.NoTimer? && v.timer.version == v.pollVersion
  }

  ghost predicate NoRepeats(ids: seq<string>) {
    forall i, j :: 0 <= i < j < |ids| ==> ids[i] != ids[j]
  }

  ghost predicate AnnouncedSafe(v: View) {
    && NoRepeats(v.announced) && (forall id :: id in v.completed <==> id in v.announced)
    && (v.snapshot.Some? && Succeeded(v.snapshot.value) ==> v.snapshot.value.id in v.completed)
  }

  predicate ShownSafe(v: View) {
    && (v.snapshot.Some? ==> v.snapshot.value.nextCursor == v.cursor)
    && Ascending(v.shown, 0) && LastSequence(v.shown, 0) <= v.cursor
  }

  ghost predicate ViewSafe(v: View) {
    ShownSafe(v) && AnnouncedSafe(v)
  }

  /** A poll issued under the current version waits for exactly what is still on display. */
  predicate StillOnDisplay(v: View, expected: Snapshot, after: nat) {
    && v.snapshot.Some? && v.snapshot.value.id == expected.id && v.snapshot.value.address == expected.address
    && v.snapshot.value.truncated == expected.truncated
    && expected.nextCursor == v.cursor == after
  }

  predicate RequestSafe(v: View, r: Request) {
    match r
    case StartWait => v.submitting
    case CancelWait(version, _) => version <= v.pollVersion && v.canceling
    case PollWait(version, expected, after) =>
      version <= v.pollVersion && (version == v.pollVersion ==> StillOnDisplay(v, expected, after))
    case RestoreWait(version, _) => version <= v.pollVersion && v.restoring
  }

  /** No two requests are both starts, both cancels, both restores, or both of the current version. */
  predicate Apart(v: View, a: Request, b: Request) {
    && !(a.StartWait? && b.StartWait?) && !(a.CancelWait? && b.CancelWait?) && !(a.RestoreWait? && b.RestoreWait?)
    && !(Current(v, a) && Current(v, b))
  }

  predicate TimerApart(v: View, r: Request) {
    && !(TimerCurrent(v) && Current(v, r))
    && !(v.timer.RestoreTimer? && r.RestoreWait?)
  }

  predicate TimerSafe(v: View) {
    && (!v.timer.NoTimer? ==> v.timer.version <= v.pollVersion)
    && (v.timer.RestoreTimer? ==> v.restoring)
  }

  ghost predicate FlightsSafe(v: View, flights: map<nat, Flight>) {
    && TimerSafe(v)
    && (forall t :: t in flights ==> RequestSafe(v, flights[t].request) && TimerApart(v, flights[t].request))
    && (forall t, u :: t in flights && u in flights && t != u ==> Apart(v, flights[t].request, flights[u].request))
    && (v.submitting ==> exists t :: t in flights && flights[t].request.StartWait?)
    && (v.canceling ==> exists t :: t in flights && flights[t].request.CancelWait?)
  }

  ghost predicate Safe(s: System) {
    ViewSafe(s.view) && FlightsSafe(s.view, s.flights) && forall t :: t in s.flights ==> t < s.issued
  }

  // ---------------------------------------------------------------- each handler keeps it

  lemma {:induction false} FreshOfAscending(events: seq<RunEvent>, floor: nat, cursor: nat)
    requires Ascending(events, floor) && cursor <= floor
    ensures Fresh(events, cursor) == events
  {
    if events != [] {
      FreshOfAscending(events[1..], events[0].sequence, cursor);
    }
  }

  lemma ShownContinues(shown: seq<RunEvent>, events: seq<RunEvent>, cursor: nat)
    requires Ascending(shown, 0) && LastSequence(shown, 0) <= cursor && Ascending(events, cursor)
    ensures Ascending(shown + events, 0) && LastSequence(shown + events, 0) <= LastSequence(events, cursor)
  {
    AscendingAt(events, cursor);
    AscendingAt(events, LastSequence(shown, 0));
    AscendingConcat(shown, events, 0);
  }

  lemma AnnouncedOnce(announced: seq<string>, completed: set<string>, id: string)
    requires NoRepeats(announced) && (forall a :: a in completed <==> a in announced) && id !in completed
    ensures NoRepeats(announced + [id]) && forall a :: a in completed + {id} <==> a in announced + [id]
  {
    forall i, j | 0 <= i < j < |announced| + 1 ensures (announced + [id])[i] != (announced + [id])[j] {
      if j == |announced| { assert announced[i] in announced; }
    }
  }

  lemma AdoptedAnnounces(v: View, next: Snapshot, reset: bool)
    requires AnnouncedSafe(v)
    ensures AnnouncedSafe(Adopted(v, next, reset))
  {
    hide Fresh, NoRepeats;
    if next.id !in v.completed { AnnouncedOnce(v.announced, v.completed, next.id); }
  }

  /** Adopting an answer that continues at the cursor of the display keeps the view safe. */
  lemma AdoptedSafe(v: View, next: Snapshot, reset: bool)
    requires ViewSafe(v)
    requires var cursor := if reset then 0 else v.cursor;
             && cursor <= next.nextCursor && Ascending(next.events, cursor)
             && LastSequence(next.events, cursor) <= next.nextCursor
    ensures ViewSafe(Adopted(v, next, reset))
    ensures Adopted(v, next, reset).shown == (if reset then [] else v.shown) + next.events
  {
    hide Fresh, Ascending, LastSequence, AnnouncedSafe;
    var cursor := if reset then 0 else v.cursor;
    var shown := if reset then [] else v.shown;
    FreshOfAscending(next.events, cursor, cursor);
    EmptyAscends();
    ShownContinues(shown, next.events, cursor);
    AdoptedAnnounces(v, next, reset);
  }

  lemma EmptyAscends()
    ensures Ascending([], 0) && LastSequence([], 0) == 0
  {
  }

  lemma PollAnsweredSafe(v: View, version: nat, expected: Snapshot, after: nat, response: Response)
    requires ViewSafe(v) && RequestSafe(v, PollWait(version, expected, after))
    ensures ViewSafe(Answered(v, PollWait(version, expected, after), response))
  {
    hide Adopted, Ascending, Fresh, LastSequence, ReadCommandRun;
    var reply := ReadCommandRun(expected.id, after, response);
    if version == v.pollVersion {
      if reply.Fetched? {
        FetchedContinues(expected.id, after, response);
        AdoptedSafe(v, reply.snapshot, false);
      } else {
        LostContinues(expected, v.cursor);
        AdoptedSafe(v, Lost(expected), false);
      }
    }
  }

  lemma LostContinues(expected: Snapshot, cursor: nat)
    requires expected.nextCursor == cursor
    ensures Lost(expected).nextCursor == cursor
    ensures Ascending(Lost(expected).events, cursor) && LastSequence(Lost(expected).events, cursor) == cursor
  {
  }

  lemma StartedIsAscending(response: Response)
    requires StartCommandRun(response).Fetched?
    ensures var s := StartCommandRun(response).snapshot;
            Ascending(s.events, 0) && LastSequence(s.events, 0) <= s.nextCursor
  {
  }

  lemma StartAnsweredSafe(v: View, response: Response)
    requires ViewSafe(v)
    ensures ViewSafe(Answered(v, StartWait, response))
  {
    hide Adopted, Ascending, Fresh, LastSequence, StartCommandRun;
    var reply := StartCommandRun(response);
    if reply.Fetched? {
      StartedIsAscending(response);
      var started := v.(pollVersion := v.pollVersion + 1, timer := NoTimer, snapshot := None);
      AdoptedSafe(started, reply.snapshot, true);
    }
  }

  lemma RestoreAnsweredSafe(v: View, version: nat, id: string, response: Response)
    requires ViewSafe(v)
    ensures ViewSafe(Answered(v, RestoreWait(version, id), response))
  {
    hide Adopted, Ascending, Fresh, LastSequence, ReadCommandRun;
    var reply := ReadCommandRun(id, 0, response);
    if reply.Fetched? {
      FetchedContinues(id, 0, response);
      var settled := v.(restoring := false, recoveryUncertain := false, snapshot := None);
      AdoptedSafe(settled, reply.snapshot, true);
    }
  }

  lemma AnsweredSafe(v: View, request: Request, response: Response)
    requires ViewSafe(v) && RequestSafe(v, request)
    ensures ViewSafe(Answered(v, request, response))
  {
    hide ViewSafe, PollAnswered, StartAnswered, RestoreAnswered, ReadCommandRun, StartCommandRun;
    match request
    case StartWait => StartAnsweredSafe(v, response);
    case PollWait(version, expected, after) => PollAnsweredSafe(v, version, expected, after, response);
    case RestoreWait(version, id) => RestoreAnsweredSafe(v, version, id, response);
    case CancelWait(version, id) => CancelAnsweredSafe(v, version, id, CancelAccepted(response));
  }

  lemma CancelAnsweredSafe(v: View, version: nat, id: string, accepted: bool)
    requires ViewSafe(v)
    ensures ViewSafe(CancelAnswered(v, version, id, accepted))
  {
    hide Ascending, LastSequence, NoRepeats;
  }

  /** What every handler does to the version, the flags and the display. */
  lemma AdoptedFrame(v: View, next: Snapshot, reset: bool)
    ensures var w := Adopted(v, next, reset);
            && w.timer == v.timer && w.pollVersion == v.pollVersion && w.submitting == v.submitting
            && w.canceling == v.canceling && w.restoring == v.restoring && w.recoveryUncertain == v.recoveryUncertain
            && w.snapshot == Some(Held(next)) && w.cursor == next.nextCursor
  {
    hide Fresh;
  }

  lemma PollAnsweredFrame(v: View, version: nat, expected: Snapshot, reply: Reply)
    ensures var w := PollAnswered(v, version, expected, reply);
            && w.pollVersion == v.pollVersion && w.submitting == v.submitting && w.canceling == v.canceling
            && w.restoring == v.restoring && w.recoveryUncertain == v.recoveryUncertain
            && (version != v.pollVersion ==> w == v)
            && (w.timer == v.timer || w.timer == PollTimer(version))
  {
    hide Adopted, Lost;
    AdoptedFrame(v, Lost(expected), false);
    if reply.Fetched? { AdoptedFrame(v, reply.snapshot, false); }
  }

  lemma StartAnsweredFrame(v: View, reply: Reply)
    ensures var w := StartAnswered(v, reply);
            && !w.submitting && w.canceling == v.canceling
            && w.restoring == v.restoring && w.recoveryUncertain == v.recoveryUncertain
            && (!reply.Fetched? ==> w == v.(submitting := false))
            && (reply.Fetched? ==> w.pollVersion == v.pollVersion + 1)
            && (reply.Fetched? ==> w.timer == NoTimer || w.timer == PollTimer(w.pollVersion))
  {
    hide Adopted;
    if reply.Fetched? {
      AdoptedFrame(v.(pollVersion := v.pollVersion + 1, timer := NoTimer, snapshot := None), reply.snapshot, true);
    }
  }

  lemma RestoreAnsweredFrame(v: View, version: nat, id: string, reply: Reply)
    ensures var w := RestoreAnswered(v, version, id, reply);
            && w.pollVersion == v.pollVersion && w.submitting == v.submitting && w.canceling == v.canceling
            && (version != v.pollVersion ==> w == v)
            && (w.timer == v.timer || w.timer == PollTimer(version) || (w.timer == RestoreTimer(id, version) && w.restoring == v.restoring))
            && (w.restoring ==> v.restoring)
  {
    hide Adopted;
    if reply.Fetched? {
      AdoptedFrame(v.(restoring := false, recoveryUncertain := false, snapshot := None), reply.snapshot, true);
    }
  }

  /** An answered request leaves every other request as safe as it was. */
  lemma PollAnsweredKeeps(v: View, version: nat, expected: Snapshot, after: nat, reply: Reply, other: Request)
    requires TimerSafe(v) && RequestSafe(v, other) && TimerApart(v, other)
    requires RequestSafe(v, PollWait(version, expected, after)) && Apart(v, PollWait(version, expected, after), other)
    ensures var w := PollAnswered(v, version, expected, reply);
            RequestSafe(w, other) && TimerApart(w, other)
  {
    hide PollAnswered;
    PollAnsweredFrame(v, version, expected, reply);
  }

  lemma StartAnsweredKeeps(v: View, reply: Reply, other: Request)
    requires TimerSafe(v) && RequestSafe(v, other) && TimerApart(v, other) && !other.StartWait?
    ensures var w := StartAnswered(v, reply);
            RequestSafe(w, other) && TimerApart(w, other)
  {
    hide StartAnswered;
    StartAnsweredFrame(v, reply);
  }

  lemma RestoreAnsweredKeeps(v: View, version: nat, id: string, reply: Reply, other: Request)
    requires TimerSafe(v) && RequestSafe(v, other) && TimerApart(v, other)
    requires RequestSafe(v, RestoreWait(version, id)) && Apart(v, RestoreWait(version, id), other)
    ensures var w := RestoreAnswered(v, version, id, reply);
            RequestSafe(w, other) && TimerApart(w, other)
  {
    hide RestoreAnswered;
    RestoreAnsweredFrame(v, version, id, reply);
  }

  lemma AnsweredTimer(v: View, request: Request, response: Response)
    requires TimerSafe(v) && RequestSafe(v, request) && TimerApart(v, request)
    ensures TimerSafe(Answered(v, request, response)) && Answered(v, request, response).pollVersion >= v.pollVersion
  {
    hide PollAnswered, StartAnswered, RestoreAnswered, ReadCommandRun, StartCommandRun, StillOnDisplay;
    match request
    case StartWait => StartAnsweredFrame(v, StartCommandRun(response));
    case PollWait(version, expected, after) =>
      PollAnsweredFrame(v, version, expected, ReadCommandRun(expected.id, after, response));
    case RestoreWait(version, id) => RestoreAnsweredFrame(v, version, id, ReadCommandRun(id, 0, response));
    case CancelWait(_, _) =>
  }

  lemma AnsweredKeeps(v: View, request: Request, response: Response, other: Request)
    requires TimerSafe(v) && RequestSafe(v, request) && RequestSafe(v, other)
    requires TimerApart(v, request) && TimerApart(v, other) && Apart(v, request, other)
    ensures var w := Answered(v, request, response);
            RequestSafe(w, other) && TimerApart(w, other)
  {
    hide PollAnswered, StartAnswered, RestoreAnswered, ReadCommandRun, StartCommandRun;
    match request
    case StartWait => StartAnsweredKeeps(v, StartCommandRun(response), other);
    case PollWait(version, expected, after) =>
      PollAnsweredKeeps(v, version, expected, after, ReadCommandRun(expected.id, after, response), other);
    case RestoreWait(version, id) => RestoreAnsweredKeeps(v, version, id, ReadCommandRun(id, 0, response), other);
    case CancelWait(_, _) =>
  }

  /** A version only grows, so what was not current does not become so. */
  lemma StillApart(v: View, w: View, a: Request, b: Request)
    requires Apart(v, a, b) && RequestSafe(v, a) && RequestSafe(v, b) && v.pollVersion <= w.pollVersion
    ensures Apart(w, a, b)
  {
    hide StillOnDisplay;
  }

  lemma AnsweredFlags(v: View, request: Request, response: Response)
    ensures var w := Answered(v, request, response);
            && (w.submitting ==> v.submitting && !request.StartWait?)
            && (w.canceling ==> v.canceling && !request.CancelWait?)
  {
    hide PollAnswered, StartAnswered, RestoreAnswered, ReadCommandRun, StartCommandRun;
    match request
    case StartWait => StartAnsweredFrame(v, StartCommandRun(response));
    case PollWait(version, expected, after) =>
      PollAnsweredFrame(v, version, expected, ReadCommandRun(expected.id, after, response));
    case RestoreWait(version, id) => RestoreAnsweredFrame(v, version, id, ReadCommandRun(id, 0, response));
    case CancelWait(_, _) =>
  }

  lemma AnsweredFlights(v: View, flights: map<nat, Flight>, t: nat, response: Response)
    requires FlightsSafe(v, flights) && t in flights
    ensures FlightsSafe(Answered(v, flights[t].request, response), flights - {t})
  {
    hide Answered, RequestSafe, TimerApart, Apart, TimerSafe;
    var request, rest := flights[t].request, flights - {t};
    var w := Answered(v, request, response);
    AnsweredTimer(v, request, response);
    AnsweredFlags(v, request, response);
    forall u | u in rest ensures RequestSafe(w, rest[u].request) && TimerApart(w, rest[u].request) {
      assert Apart(v, flights[t].request, flights[u].request);
      AnsweredKeeps(v, request, response, rest[u].request);
    }
    forall a, b | a in rest && b in rest && a != b ensures Apart(w, rest[a].request, rest[b].request) {
      StillApart(v, w, flights[a].request, flights[b].request);
    }
    if w.submitting {
      var u :| u in flights && flights[u].request.StartWait?;
      assert u in rest;
    }
    if w.canceling {
      var u :| u in flights && flights[u].request.CancelWait?;
      assert u in rest;
    }
  }

  lemma HandledKeeps(v: View, action: Action, other: Request)
    requires OfPage(action) && TimerSafe(v) && RequestSafe(v, other) && TimerApart(v, other)
    ensures var (w, request) := Handled(v, action);
            && RequestSafe(w, other) && TimerApart(w, other)
            && (request.Some? ==> Apart(w, other, request.value))
  {
  }

  lemma HandledNew(v: View, action: Action)
    requires OfPage(action) && ViewSafe(v) && TimerSafe(v)
    ensures var (w, request) := Handled(v, action);
            && ViewSafe(w) && TimerSafe(w) && v.pollVersion <= w.pollVersion
            && (request.Some? ==> RequestSafe(w, request.value) && TimerApart(w, request.value))
            && (w.submitting ==> v.submitting || (request.Some? && request.value.StartWait?))
            && (w.canceling ==> v.canceling || (request.Some? && request.value.CancelWait?))
  {
    hide Ascending, LastSequence, NoRepeats;
  }

  lemma IssuedSafe(s: System, action: Action)
    requires Safe(s) && OfPage(action)
    ensures Safe(Step(s, action))
  {
    hide ViewSafe, Handled, RequestSafe, TimerApart, Apart, TimerSafe;
    var v := s.view;
    var (w, request) := Handled(v, action);
    var after := Step(s, action);
    HandledNew(v, action);
    forall t | t in s.flights
      ensures RequestSafe(w, s.flights[t].request) && TimerApart(w, s.flights[t].request)
      ensures request.Some? ==> Apart(w, s.flights[t].request, request.value) && Apart(w, request.value, s.flights[t].request)
    {
      HandledKeeps(v, action, s.flights[t].request);
      if request.Some? { ApartBothWays(w, s.flights[t].request, request.value); }
    }
    forall a, b | a in s.flights && b in s.flights && a != b ensures Apart(w, s.flights[a].request, s.flights[b].request) {
      StillApart(v, w, s.flights[a].request, s.flights[b].request);
    }
    IssuedFlags(s, w, request);
  }

  lemma ApartBothWays(v: View, a: Request, b: Request)
    ensures Apart(v, a, b) ==> Apart(v, b, a)
  {
  }

  lemma IssuedFlags(s: System, w: View, request: Option<Request>)
    requires s.view.submitting ==> exists t :: t in s.flights && s.flights[t].request.StartWait?
    requires s.view.canceling ==> exists t :: t in s.flights && s.flights[t].request.CancelWait?
    requires w.submitting ==> s.view.submitting || (request.Some? && request.value.StartWait?)
    requires w.canceling ==> s.view.canceling || (request.Some? && request.value.CancelWait?)
    requires forall t :: t in s.flights ==> t < s.issued
    ensures var flights := Issued(s, (w, request)).flights;
            && (w.submitting ==> exists t :: t in flights && flights[t].request.StartWait?)
            && (w.canceling ==> exists t :: t in flights && flights[t].request.CancelWait?)
  {
    var flights := Issued(s, (w, request)).flights;
    if w.submitting {
      if s.view.submitting {
        var u :| u in s.flights && s.flights[u].request.StartWait?;
        assert u in flights && flights[u] == s.flights[u];
      } else {
        assert s.issued in flights;
      }
    }
    if w.canceling {
      if s.view.canceling {
        var u :| u in s.flights && s.flights[u].request.CancelWait?;
        assert u in flights && flights[u] == s.flights[u];
      } else {
        assert s.issued in flights;
      }
    }
  }

  lemma ServedSafe(s: System, ticket: nat, response: Response)
    requires Safe(s)
    ensures Safe(Step(s, HostAnswers(ticket, response)))
  {
    hide ViewSafe, RequestSafe, Apart, TimerApart, TimerSafe;
    var after := Step(s, HostAnswers(ticket, response));
    assert forall t :: t in s.flights <==> t in after.flights;
    assert forall t :: t in s.flights ==> after.flights[t].request == s.flights[t].request;
  }

  lemma StepSafe(s: System, action: Action)
    requires Safe(s)
    ensures Safe(Step(s, action))
  {
    hide ViewSafe, FlightsSafe, Answered, Handled, LastSequence;
    match action
    case AnswerArrives(ticket) =>
      if ticket in s.flights && s.flights[ticket].response.Some? {
        var flight := s.flights[ticket];
        FlightSafe(s, ticket);
        AnsweredSafe(s.view, flight.request, flight.response.value);
        AnsweredFlights(s.view, s.flights, ticket, flight.response.value);
      }
    case HostAnswers(ticket, response) => ServedSafe(s, ticket, response);
    case HostStartsRun(_, _) =>
    case HostRecords(_, _, _) =>
    case _ => IssuedSafe(s, action);
  }

  lemma FlightSafe(s: System, ticket: nat)
    requires Safe(s) && ticket in s.flights
    ensures RequestSafe(s.view, s.flights[ticket].request)
  {
    hide RequestSafe;
  }

  /** Every interleaving, with any Host, keeps the view and its requests safe. */
  lemma {:induction false} AlwaysSafe(actions: seq<Action>)
    ensures Safe(After(actions))
  {
    hide Safe, Step;
    if actions == [] {
      StartIsSafe();
    } else {
      AlwaysSafe(actions[..|actions| - 1]);
      StepSafe(After(actions[..|actions| - 1]), actions[|actions| - 1]);
    }
  }

  lemma StartIsSafe()
    ensures Safe(START)
  {
  }

  // ---------------------------------------------------------------- what that means for the user

  predicate InFlight(s: System, ticket: nat) {
    ticket in s.flights
  }

  /**
   In every reachable state the shown sequences increase strictly and stop at the cursor, which is the
   held snapshot's; at most one start is in flight; and a run that succeeded is announced exactly once.
   */
  lemma EveryRunIsSafe(actions: seq<Action>)
    ensures var s := After(actions);
            var v := s.view;
            && (forall i, j :: 0 <= i < j < |v.shown| ==> v.shown[i].sequence < v.shown[j].sequence)
            && (forall e :: e in v.shown ==> 0 < e.sequence <= v.cursor)
            && (v.snapshot.Some? ==> v.snapshot.value.nextCursor == v.cursor)
            && (forall t, u :: InFlight(s, t) && InFlight(s, u) && s.flights[t].request.StartWait? && s.flights[u].request.StartWait? ==> t == u)
            && (forall i, j :: 0 <= i < j < |v.announced| ==> v.announced[i] != v.announced[j])
            && (v.snapshot.Some? && v.snapshot.value.state == Exited && v.snapshot.value.exitCode == Some(0) ==>
                  v.snapshot.value.id in v.announced)
  {
    hide Ascending, LastSequence;
    AlwaysSafe(actions);
    var v := After(actions).view;
    AscendingAt(v.shown, 0);
    forall e | e in v.shown ensures 0 < e.sequence <= v.cursor {
      AscendingBelow(v.shown, 0, e);
    }
  }

  /** An answer to a read issued under an older version changes nothing the user sees. */
  lemma StaleAnswersChangeNothing(s: System, ticket: nat)
    requires ticket in s.flights
    requires s.flights[ticket].request.PollWait? || s.flights[ticket].request.RestoreWait?
    requires s.flights[ticket].request.version != s.view.pollVersion
    ensures Step(s, AnswerArrives(ticket)).view == s.view
  {
  }

  predicate SameRun(v: View, w: View) {
    v.snapshot.Some? ==> w.snapshot.Some? && w.snapshot.value.id == v.snapshot.value.id && w.snapshot.value.address == v.snapshot.value.address
  }

  predicate ReplacesRun(s: System, action: Action) {
    action.AnswerArrives? && action.ticket in s.flights
    && (s.flights[action.ticket].request.StartWait? || s.flights[action.ticket].request.RestoreWait?)
  }

  lemma AdoptedGrows(v: View, next: Snapshot)
    requires Matches(v.snapshot, next)
    ensures v.shown <= Adopted(v, next, false).shown && SameRun(v, Adopted(v, next, false))
  {
    hide Fresh;
  }

  lemma PollAnsweredGrows(v: View, version: nat, expected: Snapshot, reply: Reply)
    ensures var w := PollAnswered(v, version, expected, reply);
            v.shown <= w.shown && SameRun(v, w)
  {
    hide Adopted, Matches;
    if reply.Fetched? && Matches(v.snapshot, reply.snapshot) {
      AdoptedGrows(v, reply.snapshot);
    }
    if Matches(v.snapshot, expected) {
      LostMatches(v.snapshot, expected);
      AdoptedGrows(v, Lost(expected));
    }
  }

  lemma LostMatches(held: Option<Snapshot>, expected: Snapshot)
    requires Matches(held, expected)
    ensures Matches(held, Lost(expected))
  {
  }

  lemma HandledShown(v: View, action: Action)
    requires OfPage(action)
    ensures var w := Handled(v, action).0; v.shown == w.shown && SameRun(v, w)
  {
  }

  /** Nothing shown about a run is ever taken back: only an adopted start or restore replaces the run on display. */
  lemma ShownOnlyGrows(s: System, action: Action)
    ensures var v, w := s.view, Step(s, action).view;
            || (v.shown <= w.shown && SameRun(v, w))
            || ReplacesRun(s, action)
  {
    hide PollAnswered, ReadCommandRun, StartCommandRun, StartAnswered, RestoreAnswered, LastSequence, Adopted, Lost, Handled;
    if OfPage(action) {
      HandledShown(s.view, action);
    } else if action.AnswerArrives? && action.ticket in s.flights && s.flights[action.ticket].response.Some? {
      match s.flights[action.ticket].request
      case PollWait(version, expected, after) =>
        PollAnsweredGrows(s.view, version, expected,
                          ReadCommandRun(expected.id, after, s.flights[action.ticket].response.value));
      case _ =>
    }
  }
}
