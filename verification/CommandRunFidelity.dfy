/** With a Host that answers from its own record of a run, the page shows that record. */
module CommandRunFidelity {
  import opened ByteStrings
  import opened CommandRunClient
  import opened CommandRunSystem
  import opened CommandRunView
  import opened Wrappers

  function AfterOf(request: Request): nat {
    if request.PollWait? then request.after else 0
  }

  /** The document of a run as the Host gives it: what it retains after the requested cursor. */
  predicate DocumentOf(run: HostRun, after: nat, doc: Snapshot)
    requires run.dropped <= |run.events|
  {
    && doc.address == run.address && doc.events == Fresh(run.events[run.dropped..], after)
    && doc.nextCursor == LastSequence(run.events, 0) && (doc.truncated <==> run.dropped > 0)
  }

  predicate Carries(response: Response) {
    response.Http? && response.body.Document?
  }

  /** Any document the Host sends is that of one of its runs at that moment; failures are unconstrained. */
  predicate Honest(s: System, action: Action) {
    action.HostAnswers? && action.ticket in s.flights && Carries(action.response) ==>
      var doc := action.response.body.snapshot;
      && doc.id in s.host && s.host[doc.id].dropped <= |s.host[doc.id].events|
      && DocumentOf(s.host[doc.id], AfterOf(s.flights[action.ticket].request), doc)
  }

  /** What the Host answers from its own record of a run is honest, whatever it still retains. */
  lemma OwnRecordIsHonest(s: System, ticket: nat, run: HostRun, status: nat, location: Option<string>, doc: Snapshot)
    requires ticket in s.flights && doc.id in s.host && s.host[doc.id] == run && run.dropped <= |run.events|
    requires doc.address == run.address && doc.events == Fresh(run.events[run.dropped..], AfterOf(s.flights[ticket].request))
    requires doc.nextCursor == (if run.events == [] then 0 else run.events[|run.events| - 1].sequence)
    requires doc.truncated <==> run.dropped != 0
    ensures Honest(s, HostAnswers(ticket, Http(status, location, Document(doc))))
  {
  }

  predicate HonestHistory(actions: seq<Action>) {
    actions == [] ||
    (HonestHistory(actions[..|actions| - 1]) && Honest(After(actions[..|actions| - 1]), actions[|actions| - 1]))
  }

  // ---------------------------------------------------------------- documents and the display

  predicate HostSafe(host: map<string, HostRun>) {
    forall id :: id in host ==> Ascending(host[id].events, 0) && host[id].dropped <= |host[id].events|
  }

  /** The document dates from when `run` had its first `n` events and had dropped `d` of them. */
  predicate Dates(run: HostRun, after: nat, doc: Snapshot, n: nat, d: nat) {
    && d <= n <= |run.events| && d <= run.dropped
    && doc.events == Fresh(run.events[d..n], after)
    && doc.nextCursor == LastSequence(run.events[..n], 0)
    && (doc.truncated <==> d > 0)
  }

  ghost predicate Told(run: HostRun, after: nat, doc: Snapshot) {
    doc.address == run.address && exists n: nat, d: nat :: Dates(run, after, doc, n, d)
  }

  /** The display stands at the first `n` events of the run and lacks only what the Host has dropped. */
  predicate StandsAt(run: HostRun, shown: seq<RunEvent>, cursor: nat, truncated: bool, n: nat) {
    && n <= |run.events| && cursor == LastSequence(run.events[..n], 0)
    && (forall e :: e in shown ==> e in run.events)
    && (forall i :: 0 <= i < n ==> run.events[i] in shown || i < run.dropped)
    && (!truncated ==> shown == run.events[..n])
  }

  ghost predicate Shows(run: HostRun, shown: seq<RunEvent>, cursor: nat, truncated: bool) {
    exists n: nat :: StandsAt(run, shown, cursor, truncated, n)
  }

  lemma {:induction false} FreshMembers(events: seq<RunEvent>, cursor: nat, e: RunEvent)
    ensures e in Fresh(events, cursor) <==> e in events && e.sequence > cursor
  {
    if events != [] {
      FreshMembers(events[1..], cursor, e);
      assert events == [events[0]] + events[1..];
    }
  }

  lemma {:induction false} FreshConcat(a: seq<RunEvent>, b: seq<RunEvent>, cursor: nat)
    ensures Fresh(a + b, cursor) == Fresh(a, cursor) + Fresh(b, cursor)
  {
    if a == [] {
      assert a + b == b;
    } else {
      FreshConcat(a[1..], b, cursor);
      assert (a + b)[1..] == a[1..] + b;
      var first := if a[0].sequence > cursor then [a[0]] else [];
      assert Fresh(a + b, cursor) == first + Fresh(a[1..] + b, cursor);
      assert Fresh(a, cursor) == first + Fresh(a[1..], cursor);
      Associative(first, Fresh(a[1..], cursor), Fresh(b, cursor));
    }
  }

  lemma {:induction false} FreshOfSeen(events: seq<RunEvent>, cursor: nat)
    requires forall e :: e in events ==> e.sequence <= cursor
    ensures Fresh(events, cursor) == []
  {
    if events != [] {
      FreshOfSeen(events[1..], cursor);
    }
  }

  lemma LastOfPrefix(events: seq<RunEvent>, n: nat, i: nat)
    requires Ascending(events, 0) && n <= |events| && i < |events|
    ensures events[i].sequence <= LastSequence(events[..n], 0) <==> i < n
  {
    AscendingAt(events, 0);
  }

  lemma PrefixLengths(events: seq<RunEvent>, n: nat, m: nat)
    requires Ascending(events, 0) && n <= |events| && m <= |events|
    requires LastSequence(events[..n], 0) <= LastSequence(events[..m], 0)
    ensures n <= m
  {
    hide Ascending;
    if m < n {
      LastOfPrefix(events, n, n - 1);
      LastOfPrefix(events, m, n - 1);
    }
  }

  /** What follows the first `n` events, filtered by their last sequence, is exactly the rest. */
  lemma FreshSuffix(events: seq<RunEvent>, n: nat, m: nat)
    requires Ascending(events, 0) && n <= m <= |events|
    ensures Fresh(events[..m], LastSequence(events[..n], 0)) == events[n..m]
  {
    hide Ascending, Fresh, LastSequence;
    var cursor := LastSequence(events[..n], 0);
    assert events[..m] == events[..n] + events[n..m];
    FreshConcat(events[..n], events[n..m], cursor);
    forall e | e in events[..n] ensures e.sequence <= cursor {
      var i :| 0 <= i < n && events[i] == e;
      LastOfPrefix(events, n, i);
    }
    FreshOfSeen(events[..n], cursor);
    forall e | e in events[n..m] ensures cursor < e.sequence {
      var i :| n <= i < m && events[i] == e;
      LastOfPrefix(events, n, i);
    }
    MiddleAscends(events, n, m);
    AscendingAbove(events[n..m], 0, cursor);
    FreshOfAscending(events[n..m], cursor, cursor);
  }

  lemma MiddleAscends(events: seq<RunEvent>, n: nat, m: nat)
    requires Ascending(events, 0) && n <= m <= |events|
    ensures Ascending(events[n..m], 0)
  {
    hide Ascending;
    AscendingAt(events, 0);
    AscendingAt(events[n..m], 0);
  }

  /** Appending a document that continues at the cursor moves the display to where the document ends. */
  lemma ShowsContinues(run: HostRun, shown: seq<RunEvent>, cursor: nat, truncated: bool, doc: Snapshot)
    requires Ascending(run.events, 0) && Shows(run, shown, cursor, truncated) && Told(run, cursor, doc)
    requires cursor <= doc.nextCursor && (truncated ==> doc.truncated)
    ensures Shows(run, shown + doc.events, doc.nextCursor, doc.truncated)
  {
    hide Ascending, Fresh, LastSequence;
    var n: nat :| StandsAt(run, shown, cursor, truncated, n);
    var m: nat, d: nat :| Dates(run, cursor, doc, m, d);
    PrefixLengths(run.events, n, m);
    var all := shown + doc.events;
    forall e | e in all ensures e in run.events {
      if e !in shown { FreshMembers(run.events[d..m], cursor, e); }
    }
    forall i | 0 <= i < m ensures run.events[i] in all || i < run.dropped {
      if n <= i && d <= i {
        LastOfPrefix(run.events, n, i);
        assert run.events[d..m][i - d] == run.events[i];
        FreshMembers(run.events[d..m], cursor, run.events[i]);
      }
    }
    if !doc.truncated {
      FreshSuffix(run.events, n, m);
      assert run.events[d..m] == run.events[..m];
      assert run.events[..n] + run.events[n..m] == run.events[..m];
    }
    assert StandsAt(run, all, doc.nextCursor, doc.truncated, m);
  }

  lemma ShowsNothing(run: HostRun)
    ensures Shows(run, [], 0, false)
  {
    assert StandsAt(run, [], 0, false, 0);
  }

  // ---------------------------------------------------------------- the whole system

  ghost predicate DisplayTold(v: View, host: map<string, HostRun>) {
    v.snapshot.Some? ==>
      var s := v.snapshot.value;
      && s.id in host && s.address == host[s.id].address
      && (s.truncated ==> host[s.id].dropped > 0)
      && Shows(host[s.id], v.shown, v.cursor, s.truncated)
  }

  ghost predicate ResponseTold(request: Request, response: Response, host: map<string, HostRun>) {
    Carries(response) ==>
      var doc := response.body.snapshot;
      && doc.id in host && Told(host[doc.id], AfterOf(request), doc)
      && (request.PollWait? && request.expected.id == doc.id && request.expected.truncated ==> doc.truncated)
      && (doc.truncated ==> host[doc.id].dropped > 0)
  }

  ghost predicate FlightTold(flight: Flight, host: map<string, HostRun>) {
    && (flight.request.PollWait? ==>
          var expected := flight.request.expected;
          expected.id in host && (expected.truncated ==> host[expected.id].dropped > 0))
    && (flight.response.Some? ==> ResponseTold(flight.request, flight.response.value, host))
  }

  ghost predicate Faithful(s: System) {
    && HostSafe(s.host) && DisplayTold(s.view, s.host)
    && forall t :: t in s.flights ==> FlightTold(s.flights[t], s.host)
  }

  /** Adopting a document of the run on display, or of a new one after a reset, keeps the display faithful. */
  lemma AdoptedTold(v: View, doc: Snapshot, reset: bool, host: map<string, HostRun>)
    requires ViewSafe(v) && HostSafe(host) && doc.id in host
    requires !reset ==> v.snapshot.Some? && v.snapshot.value.id == doc.id && DisplayTold(v, host)
                        && (v.snapshot.value.truncated ==> doc.truncated)
    requires var cursor := if reset then 0 else v.cursor;
             && Told(host[doc.id], cursor, doc) && cursor <= doc.nextCursor
             && Ascending(doc.events, cursor) && LastSequence(doc.events, cursor) <= doc.nextCursor
             && (doc.truncated ==> host[doc.id].dropped > 0)
    ensures DisplayTold(Adopted(v, doc, reset), host)
  {
    hide Adopted, Ascending, LastSequence, Fresh, ViewSafe, Shows;
    AdoptedSafe(v, doc, reset);
    AdoptedFrame(v, doc, reset);
    var run := host[doc.id];
    if reset {
      ShowsNothing(run);
      ShowsContinues(run, [], 0, false, doc);
    } else {
      ShowsContinues(run, v.shown, v.cursor, v.snapshot.value.truncated, doc);
    }
  }

  lemma LostTold(v: View, expected: Snapshot, host: map<string, HostRun>)
    requires ViewSafe(v) && DisplayTold(v, host) && StillOnDisplay(v, expected, v.cursor)
    ensures DisplayTold(Adopted(v, Lost(expected), false), host)
  {
    hide Adopted, Ascending, LastSequence, Fresh, ViewSafe, Shows;
    LostContinues(expected, v.cursor);
    AdoptedSafe(v, Lost(expected), false);
    AdoptedFrame(v, Lost(expected), false);
    assert v.shown + Lost(expected).events == v.shown;
  }

  lemma PollTold(v: View, request: Request, response: Response, host: map<string, HostRun>)
    requires request.PollWait? && ViewSafe(v) && RequestSafe(v, request) && HostSafe(host)
    requires DisplayTold(v, host) && ResponseTold(request, response, host)
    ensures DisplayTold(Answered(v, request, response), host)
  {
    hide Adopted, Lost, ViewSafe, Told, Normal, Fresh, LastSequence, Ascending, ReadCommandRun, HostSafe;
    var expected, after := request.expected, request.after;
    var reply := ReadCommandRun(expected.id, after, response);
    if request.version == v.pollVersion {
      if reply.Fetched? {
        FetchedContinues(expected.id, after, response);
        FetchedCarries(expected.id, after, response);
        AdoptedTold(v, reply.snapshot, false, host);
      } else if reply == Rejected(404) {
        LostTold(v, expected, host);
      }
    }
  }

  lemma FetchedCarries(id: string, after: nat, response: Response)
    requires ReadCommandRun(id, after, response).Fetched?
    ensures Carries(response) && response.body.snapshot == ReadCommandRun(id, after, response).snapshot
  {
    hide Normal;
  }

  lemma StartTold(v: View, response: Response, host: map<string, HostRun>)
    requires ViewSafe(v) && HostSafe(host) && DisplayTold(v, host) && ResponseTold(StartWait, response, host)
    ensures DisplayTold(Answered(v, StartWait, response), host)
  {
    hide Adopted, Told, Fresh, HostSafe, Shows;
    var reply := StartCommandRun(response);
    if reply.Fetched? {
      AdoptedTold(v.(pollVersion := v.pollVersion + 1, timer := NoTimer, snapshot := None), reply.snapshot, true, host);
    }
  }

  lemma RestoreTold(v: View, request: Request, response: Response, host: map<string, HostRun>)
    requires request.RestoreWait? && ViewSafe(v) && HostSafe(host)
    requires DisplayTold(v, host) && ResponseTold(request, response, host)
    ensures DisplayTold(Answered(v, request, response), host)
  {
    hide Adopted, Told, Normal, Fresh, LastSequence, Ascending, ReadCommandRun, HostSafe, Shows;
    var reply := ReadCommandRun(request.id, 0, response);
    if request.version == v.pollVersion && reply.Fetched? {
      FetchedContinues(request.id, 0, response);
      FetchedCarries(request.id, 0, response);
      AdoptedTold(v.(restoring := false, recoveryUncertain := false, snapshot := None), reply.snapshot, true, host);
    }
  }

  lemma ArrivalTold(s: System, ticket: nat)
    requires Safe(s) && Faithful(s)
    ensures Faithful(Step(s, AnswerArrives(ticket)))
  {
    hide Answered, Safe, HostSafe, DisplayTold, ResponseTold, Ascending;
    if ticket in s.flights && s.flights[ticket].response.Some? {
      var flight := s.flights[ticket];
      FlightSafe(s, ticket);
      SafeView(s);
      assert FlightTold(flight, s.host);
      AnsweredTold(s.view, flight.request, flight.response.value, s.host);
    }
  }

  lemma SafeView(s: System)
    requires Safe(s)
    ensures ViewSafe(s.view)
  {
  }

  lemma AnsweredTold(v: View, request: Request, response: Response, host: map<string, HostRun>)
    requires ViewSafe(v) && RequestSafe(v, request) && HostSafe(host)
    requires DisplayTold(v, host) && ResponseTold(request, response, host)
    ensures DisplayTold(Answered(v, request, response), host)
  {
    hide ViewSafe, RequestSafe, HostSafe, ResponseTold, Shows;
    match request
    case StartWait => StartTold(v, response, host);
    case PollWait(_, _, _) => PollTold(v, request, response, host);
    case RestoreWait(_, _) => RestoreTold(v, request, response, host);
    case CancelWait(_, _) =>
  }

  // ---------------------------------------------------------------- the Host moves on

  /** A run only gains events and only drops more of the old ones. */
  predicate Grows(a: HostRun, b: HostRun) {
    a.address == b.address && a.events <= b.events && a.dropped <= b.dropped
  }

  lemma ToldGrows(a: HostRun, b: HostRun, after: nat, doc: Snapshot)
    requires Grows(a, b) && Told(a, after, doc)
    ensures Told(b, after, doc)
  {
    hide Fresh, LastSequence;
    var n: nat, d: nat :| Dates(a, after, doc, n, d);
    assert a.events[d..n] == b.events[d..n] && a.events[..n] == b.events[..n];
    assert Dates(b, after, doc, n, d);
  }

  lemma ShowsGrows(a: HostRun, b: HostRun, shown: seq<RunEvent>, cursor: nat, truncated: bool)
    requires Grows(a, b) && Shows(a, shown, cursor, truncated)
    ensures Shows(b, shown, cursor, truncated)
  {
    hide LastSequence;
    var n: nat :| StandsAt(a, shown, cursor, truncated, n);
    assert a.events[..n] == b.events[..n];
    forall e | e in shown ensures e in b.events {
      var i :| 0 <= i < |a.events| && a.events[i] == e;
      assert b.events[i] == e;
    }
    assert StandsAt(b, shown, cursor, truncated, n);
  }

  predicate HostGrows(a: map<string, HostRun>, b: map<string, HostRun>) {
    forall id :: id in a ==> id in b && Grows(a[id], b[id])
  }

  lemma DisplayGrows(v: View, a: map<string, HostRun>, b: map<string, HostRun>)
    requires HostGrows(a, b) && DisplayTold(v, a)
    ensures DisplayTold(v, b)
  {
    hide Shows;
    if v.snapshot.Some? {
      var id := v.snapshot.value.id;
      ShowsGrows(a[id], b[id], v.shown, v.cursor, v.snapshot.value.truncated);
    }
  }

  lemma FlightGrows(flight: Flight, a: map<string, HostRun>, b: map<string, HostRun>)
    requires HostGrows(a, b) && FlightTold(flight, a)
    ensures FlightTold(flight, b)
  {
    hide Told;
    if flight.response.Some? && Carries(flight.response.value) {
      var doc := flight.response.value.body.snapshot;
      ToldGrows(a[doc.id], b[doc.id], AfterOf(flight.request), doc);
    }
  }

  lemma HostStepGrows(s: System, action: Action)
    requires HostSafe(s.host) && (action.HostStartsRun? || action.HostRecords?)
    ensures HostSafe(Step(s, action).host) && HostGrows(s.host, Step(s, action).host)
    ensures Step(s, action).view == s.view && Step(s, action).flights == s.flights
  {
    hide Ascending;
    if action.HostRecords? && action.id in s.host && LastSequence(s.host[action.id].events, 0) < action.event.sequence {
      AppendAscends(s.host[action.id].events, action.event);
    }
    EmptyAscends();
  }

  lemma AppendAscends(events: seq<RunEvent>, e: RunEvent)
    requires Ascending(events, 0) && LastSequence(events, 0) < e.sequence
    ensures Ascending(events + [e], 0)
  {
    AscendingAt(events, 0);
    AscendingAt(events + [e], 0);
  }

  lemma HostMovesTold(s: System, action: Action)
    requires Faithful(s) && (action.HostStartsRun? || action.HostRecords?)
    ensures Faithful(Step(s, action))
  {
    hide Step, HostSafe, HostGrows, DisplayTold, FlightTold;
    HostStepGrows(s, action);
    var after := Step(s, action);
    DisplayGrows(s.view, s.host, after.host);
    forall t | t in after.flights ensures FlightTold(after.flights[t], after.host) {
      FlightGrows(s.flights[t], s.host, after.host);
    }
  }

  lemma AnswersTold(s: System, ticket: nat, response: Response)
    requires Faithful(s) && Honest(s, HostAnswers(ticket, response))
    ensures Faithful(Step(s, HostAnswers(ticket, response)))
  {
    hide DisplayTold, Ascending;
    if ticket in s.flights && s.flights[ticket].response == None {
      assert FlightTold(s.flights[ticket], s.host);
      if Carries(response) {
        var doc := response.body.snapshot;
        ToldNow(s.host[doc.id], AfterOf(s.flights[ticket].request), doc);
      }
    }
  }

  lemma ToldNow(run: HostRun, after: nat, doc: Snapshot)
    requires run.dropped <= |run.events| && DocumentOf(run, after, doc)
    ensures Told(run, after, doc)
  {
    hide Fresh, LastSequence;
    assert run.events[run.dropped..|run.events|] == run.events[run.dropped..] && run.events[..|run.events|] == run.events;
    assert Dates(run, after, doc, |run.events|, run.dropped);
  }

  /** What the user or a timer does leaves the display, and asks only for what a faithful page asks for. */
  lemma HandledTold(v: View, action: Action, host: map<string, HostRun>)
    requires OfPage(action) && DisplayTold(v, host)
    ensures DisplayTold(Handled(v, action).0, host)
    ensures Handled(v, action).1.Some? ==> FlightTold(Flight(Handled(v, action).1.value, None), host)
  {
    hide Shows, Told;
  }

  lemma PageTold(s: System, action: Action)
    requires Faithful(s) && OfPage(action)
    ensures Faithful(Step(s, action))
  {
    hide HostSafe, Handled, DisplayTold, FlightTold;
    HandledTold(s.view, action, s.host);
  }

  lemma StepTold(s: System, action: Action)
    requires Safe(s) && Faithful(s) && Honest(s, action)
    ensures Faithful(Step(s, action))
  {
    hide Safe, Faithful, Honest, Step;
    match action
    case AnswerArrives(ticket) => ArrivalTold(s, ticket);
    case HostAnswers(ticket, response) => AnswersTold(s, ticket, response);
    case HostStartsRun(_, _) => HostMovesTold(s, action);
    case HostRecords(_, _, _) => HostMovesTold(s, action);
    case _ => PageTold(s, action);
  }

  lemma {:induction false} AlwaysFaithful(actions: seq<Action>)
    requires HonestHistory(actions)
    ensures Faithful(After(actions))
  {
    hide Faithful, Step, Safe, Honest;
    if actions == [] {
      StartIsFaithful();
    } else {
      AlwaysFaithful(actions[..|actions| - 1]);
      AlwaysSafe(actions[..|actions| - 1]);
      StepTold(After(actions[..|actions| - 1]), actions[|actions| - 1]);
    }
  }

  lemma StartIsFaithful()
    ensures Faithful(START)
  {
  }

  /**
   Whatever the interleaving: everything shown is an event of the run on display, the only events missing
   up to the cursor are ones the Host dropped, and a snapshot not marked truncated means nothing is missing.
   */
  lemma DisplayIsFaithful(actions: seq<Action>)
    requires HonestHistory(actions) && After(actions).view.snapshot.Some?
    ensures var v, host := After(actions).view, After(actions).host;
            var held := v.snapshot.value;
            && held.id in host
            && (forall e :: e in v.shown ==> e in host[held.id].events)
            && (forall i :: 0 <= i < |host[held.id].events| && host[held.id].events[i].sequence <= v.cursor ==>
                  host[held.id].events[i] in v.shown || i < host[held.id].dropped)
            && (!held.truncated ==> v.shown <= host[held.id].events && v.cursor == LastSequence(v.shown, 0))
  {
    hide Ascending, LastSequence, After;
    AlwaysFaithful(actions);
    var v, host := After(actions).view, After(actions).host;
    var run := host[v.snapshot.value.id];
    var n: nat :| StandsAt(run, v.shown, v.cursor, v.snapshot.value.truncated, n);
    forall i | 0 <= i < |run.events| && run.events[i].sequence <= v.cursor
      ensures run.events[i] in v.shown || i < run.dropped
    {
      LastOfPrefix(run.events, n, i);
    }
  }
}
