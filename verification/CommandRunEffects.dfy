/**
 What each step of the page changes, and that it changes nothing else.

 The answers are told apart by what came over the network, not by the functions that classify them.
 */
module CommandRunEffects {
  import opened CommandRunClient
  import opened CommandRunSystem
  import opened CommandRunView
  import opened Wrappers

  // ---------------------------------------------------------------- the answers, as they arrive

  /** A document whose fields fit together and whose events ascend up to its cursor. */
  ghost predicate WellFormed(s: Snapshot) {
    && s.id != "" && s.address != ""
    && (s.exitCode.Some? <==> s.state == Exited)
    && (s.error.Some? <==> s.state == Failed) && s.error != Some("")
    && (forall i :: 0 <= i < |s.events| ==> 0 < s.events[i].sequence <= s.nextCursor)
    && (forall i, j :: 0 <= i < j < |s.events| ==> s.events[i].sequence < s.events[j].sequence)
  }

  lemma NormalExactlyWhen(s: Snapshot)
    ensures Normal(s) <==> WellFormed(s)
  {
    AscendingAt(s.events, 0);
    if Normal(s) {
      forall i | 0 <= i < |s.events| ensures s.events[i].sequence <= s.nextCursor {
        AscendingBelow(s.events, 0, s.events[i]);
      }
    }
  }

  /** The Host's answer to a read of run `id` from `after` on: a document that continues there. */
  ghost predicate Continues(response: Response, id: string, after: nat, s: Snapshot) {
    && response.Http? && response.status == 200 && response.body == Document(s)
    && WellFormed(s) && s.id == id && after <= s.nextCursor
    && forall e :: e in s.events ==> after < e.sequence
  }

  /** The Host's answer to a start: the document of the run that its Location names. */
  ghost predicate Starts(response: Response, s: Snapshot) {
    response.Http? && response.status == 201 && response.body == Document(s) && WellFormed(s) && response.location == Some(s.id)
  }

  ghost predicate Gone(response: Response) {
    response.Http? && response.status == 404
  }

  /** No answer, an answer cut off, or a Host error: a read is worth repeating. */
  ghost predicate Transient(response: Response) {
    response.NoResponse? || response.status >= 500 || (response.status == 200 && response.body.Interrupted?)
  }

  /** Whatever else comes back for a read. */
  ghost predicate Unusable(response: Response, id: string, after: nat) {
    !Gone(response) && !Transient(response) && forall s :: !Continues(response, id, after, s)
  }

  lemma ReadOutcome(id: string, after: nat, response: Response)
    ensures var reply := ReadCommandRun(id, after, response);
            && (reply.Fetched? ==> Continues(response, id, after, reply.snapshot))
            && (forall s :: Continues(response, id, after, s) ==> reply == Fetched(s))
            && (reply == Rejected(404) <==> Gone(response))
            && (RetryableRead(reply) <==> Transient(response))
  {
    hide Normal, WellFormed;
    if response.Http? && response.body.Document? { NormalExactlyWhen(response.body.snapshot); }
  }

  lemma StartOutcome(response: Response)
    ensures var reply := StartCommandRun(response);
            && (reply.Fetched? ==> Starts(response, reply.snapshot))
            && (forall s :: Starts(response, s) ==> reply == Fetched(s))
  {
    hide Normal, WellFormed;
    if response.Http? && response.body.Document? { NormalExactlyWhen(response.body.snapshot); }
  }

  // ---------------------------------------------------------------- showing a document

  ghost predicate IsActive(held: Option<Snapshot>) {
    held.Some? && held.value.state in {Running, Canceling}
  }

  /** The run is followed by a poll under `version` while it is active; otherwise the timer is left alone. */
  ghost predicate Follows(v: View, version: nat, w: View) {
    w.timer == if IsActive(w.snapshot) then PollTimer(version) else v.timer
  }

  /** After `before`, `w` displays the events of `next` and holds its fields; a success is announced once per run. */
  ghost predicate Shows(v: View, before: seq<RunEvent>, next: Snapshot, w: View) {
    && w.shown == before + next.events && w.snapshot == Some(next.(events := [])) && w.cursor == next.nextCursor
    && var news := next.state == Exited && next.exitCode == Some(0) && next.id !in v.announced;
       && w.announced == (if news then v.announced + [next.id] else v.announced)
       && w.completed == (if news then v.completed + {next.id} else v.completed)
  }

  ghost predicate SameDisplay(v: View, w: View) {
    && w.shown == v.shown && w.snapshot == v.snapshot && w.cursor == v.cursor
    && w.announced == v.announced && w.completed == v.completed
  }

  ghost predicate SameFlags(v: View, w: View) {
    && w.submitting == v.submitting && w.canceling == v.canceling
    && w.restoring == v.restoring && w.recoveryUncertain == v.recoveryUncertain
  }

  lemma AdoptedShows(v: View, next: Snapshot, reset: bool)
    requires ViewSafe(v) && WellFormed(next)
    requires !reset ==> forall e :: e in next.events ==> v.cursor < e.sequence
    ensures Shows(v, if reset then [] else v.shown, next, Adopted(v, next, reset))
    ensures SameFlags(v, Adopted(v, next, reset)) && Adopted(v, next, reset).timer == v.timer
    ensures Adopted(v, next, reset).pollVersion == v.pollVersion
  {
    hide Fresh, NoRepeats, Ascending, LastSequence;
    NormalExactlyWhen(next);
    var cursor := if reset then 0 else v.cursor;
    AscendingAbove(next.events, 0, cursor);
    FreshOfAscending(next.events, cursor, cursor);
  }

  lemma LostShows(v: View, expected: Snapshot)
    requires ViewSafe(v) && expected.nextCursor == v.cursor
    ensures var w := Adopted(v, Lost(expected), false);
            && w == v.(snapshot := Some(expected.(events := [], state := Failed, exitCode := None,
                                                  error := Some("run record unavailable"))))
  {
  }

  // ---------------------------------------------------------------- answers

  ghost predicate Arrived(s: System, ticket: nat) {
    Safe(s) && ticket in s.flights && s.flights[ticket].response.Some?
  }

  /**
   The answer to a cancel.  Accepted, it marks the run on display as canceling if that is still the
   run it was sent for and still active, and nothing else of the snapshot; refused, it leaves the
   snapshot as it was.  Either way the run is polled again and a further cancel is possible.
   */
  lemma CancelOutcome(s: System, ticket: nat)
    requires Arrived(s, ticket) && s.flights[ticket].request.CancelWait?
    ensures var (v, w) := (s.view, Step(s, AnswerArrives(ticket)).view);
            var (request, response) := (s.flights[ticket].request, s.flights[ticket].response.value);
            var displayed := IsActive(v.snapshot) && v.snapshot.value.id == request.id;
            var accepted := response.Http? && response.status == 204;
            && w.snapshot == (if displayed && accepted then Some(v.snapshot.value.(state := Canceling)) else v.snapshot)
            && w.timer == (if displayed then PollTimer(request.version) else v.timer)
            && !w.canceling && w.pollVersion == v.pollVersion
            && SameFlags(v.(canceling := false), w) && SameDisplay(v.(snapshot := w.snapshot), w)
  {
  }

  /** The answer to a poll: only one of the current version counts, and only for the run still on display. */
  lemma PollOutcome(s: System, ticket: nat)
    requires Arrived(s, ticket) && s.flights[ticket].request.PollWait?
    ensures var (v, w) := (s.view, Step(s, AnswerArrives(ticket)).view);
            var (request, response) := (s.flights[ticket].request, s.flights[ticket].response.value);
            var expected := request.expected;
            && w.pollVersion == v.pollVersion && SameFlags(v, w)
            && (request.version != v.pollVersion ==> w == v)
            && (request.version == v.pollVersion ==>
                  && (forall next :: Continues(response, expected.id, request.after, next) ==>
                        if next.address == expected.address
                        then Shows(v, v.shown, next, w) && Follows(v, request.version, w) else w == v)
                  && (Gone(response) ==>
                        w == v.(snapshot := Some(expected.(events := [], state := Failed, exitCode := None,
                                                           error := Some("run record unavailable")))))
                  && (Transient(response) ==> w == v.(timer := PollTimer(request.version)))
                  && (Unusable(response, expected.id, request.after) ==> w == v))
  {
    hide Safe, WellFormed, ReadCommandRun, Adopted, Lost, ViewSafe, Continues, Shows, Unusable;
    var (request, response) := (s.flights[ticket].request, s.flights[ticket].response.value);
    ArrivedSafe(s, ticket);
    PollAnswer(s.view, request.version, request.expected, request.after, response);
  }

  lemma ArrivedSafe(s: System, ticket: nat)
    requires Arrived(s, ticket)
    ensures ViewSafe(s.view) && RequestSafe(s.view, s.flights[ticket].request)
  {
    hide ViewSafe, RequestSafe;
  }

  lemma PollAnswer(v: View, version: nat, expected: Snapshot, after: nat, response: Response)
    requires ViewSafe(v) && RequestSafe(v, PollWait(version, expected, after))
    ensures var w := PollAnswered(v, version, expected, ReadCommandRun(expected.id, after, response));
            && w.pollVersion == v.pollVersion && SameFlags(v, w)
            && (version != v.pollVersion ==> w == v)
            && (version == v.pollVersion ==>
                  && (forall next :: Continues(response, expected.id, after, next) ==>
                        if next.address == expected.address
                        then Shows(v, v.shown, next, w) && Follows(v, version, w) else w == v)
                  && (Gone(response) ==>
                        w == v.(snapshot := Some(expected.(events := [], state := Failed, exitCode := None,
                                                           error := Some("run record unavailable")))))
                  && (Transient(response) ==> w == v.(timer := PollTimer(version)))
                  && (Unusable(response, expected.id, after) ==> w == v))
  {
    hide ReadCommandRun, Adopted, Lost, ViewSafe, WellFormed;
    var reply := ReadCommandRun(expected.id, after, response);
    ReadOutcome(expected.id, after, response);
    if version == v.pollVersion {
      LostShows(v, expected);
      if reply.Fetched? {
        assert Continues(response, expected.id, after, reply.snapshot);
        AdoptedShows(v, reply.snapshot, false);
      }
    }
  }

  /** The answer to a start: a started run replaces whatever is on display; anything else ends the submission. */
  lemma StartAnswerOutcome(s: System, ticket: nat)
    requires Arrived(s, ticket) && s.flights[ticket].request.StartWait?
    ensures var (v, w) := (s.view, Step(s, AnswerArrives(ticket)).view);
            var response := s.flights[ticket].response.value;
            && !w.submitting && SameFlags(v.(submitting := false), w)
            && (forall next :: Starts(response, next) ==>
                  && w.pollVersion == v.pollVersion + 1 && Shows(v, [], next, w)
                  && Follows(v.(timer := NoTimer), w.pollVersion, w))
            && ((forall next :: !Starts(response, next)) ==> w == v.(submitting := false))
  {
    hide Safe, WellFormed, StartCommandRun, Adopted, ViewSafe;
    var response := s.flights[ticket].response.value;
    var reply := StartCommandRun(response);
    ArrivedSafe(s, ticket);
    StartOutcome(response);
    if reply.Fetched? {
      assert Starts(response, reply.snapshot);
      Cleared(s.view);
      AdoptedShows(s.view.(pollVersion := s.view.pollVersion + 1, timer := NoTimer, snapshot := None), reply.snapshot, true);
    }
  }

  lemma Cleared(v: View)
    requires ViewSafe(v)
    ensures forall w: View :: (w.snapshot == None && w.shown == v.shown && w.cursor == v.cursor
                              && w.completed == v.completed && w.announced == v.announced) ==> ViewSafe(w)
  {
    hide NoRepeats, Ascending, LastSequence;
  }

  /**
   The answer to a restore: the stored run replaces the display, a lost record ends the restoring, a
   transient failure is retried, and after any other the page stays unsure of the stored run.
   */
  lemma RestoreOutcome(s: System, ticket: nat)
    requires Arrived(s, ticket) && s.flights[ticket].request.RestoreWait?
    ensures var (v, w) := (s.view, Step(s, AnswerArrives(ticket)).view);
            var (request, response) := (s.flights[ticket].request, s.flights[ticket].response.value);
            && w.pollVersion == v.pollVersion && w.submitting == v.submitting && w.canceling == v.canceling
            && (request.version != v.pollVersion ==> w == v)
            && (request.version == v.pollVersion ==>
                  && (forall next :: Continues(response, request.id, 0, next) ==>
                        && !w.restoring && !w.recoveryUncertain && Shows(v, [], next, w)
                        && Follows(v, request.version, w))
                  && (Gone(response) ==> w == v.(restoring := false, recoveryUncertain := false))
                  && (Transient(response) ==> w == v.(timer := RestoreTimer(request.id, request.version)))
                  && (Unusable(response, request.id, 0) ==> w == v.(restoring := false, recoveryUncertain := true)))
  {
    hide Safe, WellFormed, ReadCommandRun, Adopted, ViewSafe;
    var (v, request) := (s.view, s.flights[ticket].request);
    var response := s.flights[ticket].response.value;
    var reply := ReadCommandRun(request.id, 0, response);
    ArrivedSafe(s, ticket);
    ReadOutcome(request.id, 0, response);
    if request.version == v.pollVersion && reply.Fetched? {
      assert Continues(response, request.id, 0, reply.snapshot);
      Cleared(v);
      AdoptedShows(v.(restoring := false, recoveryUncertain := false, snapshot := None), reply.snapshot, true);
    }
  }

  // ---------------------------------------------------------------- what the user and the timer start

  /** Exactly one request more is under way. */
  ghost predicate Sends(s: System, t: System, request: Request) {
    t.flights == s.flights[s.issued := Flight(request, None)] && t.issued == s.issued + 1 && t.host == s.host
  }

  /** Execute sends a start exactly when the command can run and no run is active, starting, restored or in doubt. */
  lemma ExecuteOutcome(s: System, runnable: bool)
    ensures var (v, t) := (s.view, Step(s, ExecutePress(runnable)));
            if runnable && !IsActive(v.snapshot) && !v.submitting && !v.restoring && !v.recoveryUncertain
            then t.view == v.(submitting := true) && Sends(s, t, StartWait)
            else t == s
  {
  }

  /** Cancel sends one cancel of the active run on display, unless one is under way, and outdates every poll. */
  lemma CancelPressOutcome(s: System)
    ensures var (v, t) := (s.view, Step(s, CancelPress));
            if IsActive(v.snapshot) && !v.canceling
            then t.view == v.(pollVersion := v.pollVersion + 1, timer := NoTimer, canceling := true)
                 && Sends(s, t, CancelWait(v.pollVersion + 1, v.snapshot.value.id))
            else t == s
  {
  }

  /** Restore reads the stored run, unless nothing is stored or a restore is under way or failed for good. */
  lemma RestoreCallOutcome(s: System, stored: string)
    ensures var (v, t) := (s.view, Step(s, RestoreCall(stored)));
            if stored != "" && !v.restoring && !v.recoveryUncertain
            then t.view == v.(pollVersion := v.pollVersion + 1, restoring := true)
                 && Sends(s, t, RestoreWait(v.pollVersion + 1, stored))
            else t == s
  {
  }

  /** An expired timer polls the active run from its cursor on, or repeats the restore it was set for. */
  lemma TimerOutcome(s: System)
    ensures var (v, t) := (s.view, Step(s, TimerExpires));
            && t.view == v.(timer := NoTimer)
            && (if v.timer.PollTimer? && v.timer.version == v.pollVersion && IsActive(v.snapshot)
                then Sends(s, t, PollWait(v.pollVersion, v.snapshot.value, v.cursor))
                else if v.timer.RestoreTimer?
                then Sends(s, t, RestoreWait(v.timer.version, v.timer.id))
                else t == s.(view := t.view))
  {
  }

  // ---------------------------------------------------------------- the Host

  /** The Host starts a run under a fresh id with nothing recorded; a known id stays what it is. */
  lemma HostStartOutcome(s: System, id: string, address: string)
    ensures var t := Step(s, HostStartsRun(id, address));
            && t.view == s.view && t.flights == s.flights && t.issued == s.issued
            && t.host == if id in s.host then s.host else s.host[id := HostRun(address, [], 0)]
  {
  }

  /** The Host records a later event behind the others and may forget some of the oldest; the page sees nothing of it yet. */
  lemma HostRecordOutcome(s: System, id: string, event: RunEvent, drops: nat)
    requires id in s.host
    ensures var (t, run) := (Step(s, HostRecords(id, event, drops)), s.host[id]);
            var later := run.events == [] || run.events[|run.events| - 1].sequence < event.sequence;
            && t.view == s.view && t.flights == s.flights && t.issued == s.issued
            && (later && event.sequence > 0 && run.dropped + drops <= |run.events| + 1 ==>
                  && t.host[id].events == run.events + [event] && t.host[id].dropped == run.dropped + drops
                  && t.host[id].address == run.address && t.host.Keys == s.host.Keys
                  && forall other :: other in s.host && other != id ==> t.host[other] == s.host[other])
            && (!later || run.dropped + drops > |run.events| + 1 ==> t == s)
  {
  }

  /** The Host answers a request once, with anything; the answer waits to arrive. */
  lemma HostAnswerOutcome(s: System, ticket: nat, response: Response)
    requires ticket in s.flights
    ensures var t := Step(s, HostAnswers(ticket, response));
            && t.view == s.view && t.host == s.host && t.issued == s.issued
            && t.flights == if s.flights[ticket].response == None
                            then s.flights[ticket := Flight(s.flights[ticket].request, Some(response))] else s.flights
  {
  }
}
