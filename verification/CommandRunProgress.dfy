/** While reads are understood, the page never waits for nothing, exactly when restore is called on a quiet page. */
module CommandRunProgress {
  import opened CommandRunClient
  import opened CommandRunSystem
  import opened CommandRunView
  import opened Wrappers

  /** The restore guard lets the call through. */
  predicate RestoreEnabled(v: View, stored: string) {
    stored != "" && !v.restoring && !v.recoveryUncertain
  }

  /** A start that is not answered yet, or was answered with a run. */
  predicate CanStillStart(flight: Flight) {
    flight.request.StartWait? && (flight.response.Some? ==> StartCommandRun(flight.response.value).Fetched?)
  }

  ghost predicate NothingStarts(flights: map<nat, Flight>) {
    forall t :: t in flights ==> !CanStillStart(flights[t])
  }

  /** Nothing runs, and no start can still succeed. */
  ghost predicate Quiet(s: System) {
    !Active(s.view.snapshot) && NothingStarts(s.flights)
  }

  ghost predicate Orderly(s: System, action: Action) {
    action.RestoreCall? && RestoreEnabled(s.view, action.stored) ==> Quiet(s)
  }

  /** A read is answered by a document of that run, by 404, or by a failure that is retried. */
  predicate Understood(request: Request, response: Response) {
    match request
    case PollWait(_, expected, after) =>
      var reply := ReadCommandRun(expected.id, after, response);
      (reply.Fetched? && reply.snapshot.address == expected.address) || reply == Rejected(404) || RetryableRead(reply)
    case RestoreWait(_, id) =>
      var reply := ReadCommandRun(id, 0, response);
      reply.Fetched? || reply == Rejected(404) || RetryableRead(reply)
    case _ => true
  }

  ghost predicate Allowed(s: System, action: Action) {
    && Orderly(s, action)
    && (action.HostAnswers? && action.ticket in s.flights ==> Understood(s.flights[action.ticket].request, action.response))
  }

  ghost predicate AllowedHistory(actions: seq<Action>) {
    actions == [] ||
    (AllowedHistory(actions[..|actions| - 1]) && Allowed(After(actions[..|actions| - 1]), actions[|actions| - 1]))
  }

  // ---------------------------------------------------------------- what is being waited for

  predicate Tracks(v: View, r: Request) {
    Current(v, r) && (r.PollWait? || r.CancelWait?)
  }

  predicate Recovers(v: View, r: Request) {
    Current(v, r) && r.RestoreWait?
  }

  ghost predicate Tracked(v: View, flights: map<nat, Flight>) {
    v.timer == PollTimer(v.pollVersion) || exists t :: t in flights && Tracks(v, flights[t].request)
  }

  ghost predicate Recovering(v: View, flights: map<nat, Flight>) {
    (v.timer.RestoreTimer? && TimerCurrent(v)) || exists t :: t in flights && Recovers(v, flights[t].request)
  }

  predicate ModesApart(v: View) {
    && (v.restoring ==> !Active(v.snapshot))
    && (v.canceling ==> Active(v.snapshot))
    && !v.recoveryUncertain
  }

  /** A current poll or cancel is about the active run on display. */
  predicate AboutDisplay(v: View, r: Request) {
    && (Current(v, r) && r.PollWait? ==> Active(v.snapshot) && !v.canceling)
    && (r.CancelWait? ==> Current(v, r) && Active(v.snapshot) && v.snapshot.value.id == r.id)
    && (r.RestoreWait? ==> Current(v, r))
  }

  /** While a run is active or being restored, no start can succeed any more. */
  ghost predicate StartsOver(v: View, flights: map<nat, Flight>) {
    v.restoring || Active(v.snapshot) ==> NothingStarts(flights)
  }

  predicate Starts(request: Request, response: Response) {
    request.StartWait? && StartCommandRun(response).Fetched?
  }

  /** An answer with a started run arrives only while nothing is active or being restored. */
  predicate Timely(v: View, request: Request, response: Response) {
    Starts(request, response) ==> !v.restoring && !Active(v.snapshot)
  }

  ghost predicate Followed(v: View, flights: map<nat, Flight>) {
    && ModesApart(v) && StartsOver(v, flights)
    && (Active(v.snapshot) ==> Tracked(v, flights))
    && (v.restoring ==> Recovering(v, flights))
    && (forall t :: t in flights ==> AboutDisplay(v, flights[t].request))
    && (forall t :: t in flights && flights[t].response.Some? ==> Understood(flights[t].request, flights[t].response.value))
  }

  // ---------------------------------------------------------------- an answer arrives

  /** Answering a request settles what it was waiting for. */
  lemma AnswerSettles(v: View, request: Request, response: Response)
    requires TimerSafe(v) && RequestSafe(v, request) && TimerApart(v, request)
    requires ModesApart(v) && AboutDisplay(v, request) && Understood(request, response) && Timely(v, request, response)
    ensures var w := Answered(v, request, response);
            && ModesApart(w)
            && (Active(w.snapshot) && (Starts(request, response) || Current(v, request)) ==> w.timer == PollTimer(w.pollVersion))
            && (w.restoring && request.RestoreWait? ==> w.timer.RestoreTimer? && TimerCurrent(w))
            && (!Starts(request, response) && !Current(v, request) ==> w == v.(submitting := w.submitting))
  {
    hide Adopted, ReadCommandRun, StartCommandRun, Normal, Lost;
    match request
    case StartWait =>
      var reply := StartCommandRun(response);
      if reply.Fetched? {
        AdoptedFrame(v.(pollVersion := v.pollVersion + 1, timer := NoTimer, snapshot := None), reply.snapshot, true);
      }
    case PollWait(version, expected, after) =>
      var reply := ReadCommandRun(expected.id, after, response);
      if reply.Fetched? {
        FetchedContinues(expected.id, after, response);
        AdoptedFrame(v, reply.snapshot, false);
      }
      AdoptedFrame(v, Lost(expected), false);
      LostIsSettled(expected);
    case RestoreWait(version, id) =>
      var reply := ReadCommandRun(id, 0, response);
      if reply.Fetched? {
        AdoptedFrame(v.(restoring := false, recoveryUncertain := false, snapshot := None), reply.snapshot, true);
      }
    case CancelWait(_, _) =>
  }

  lemma LostIsSettled(expected: Snapshot)
    ensures !Active(Some(Held(Lost(expected)))) && Lost(expected).id == expected.id && Lost(expected).address == expected.address
  {
  }

  /** Another request stays about the display, because it is not current together with the answered one. */
  lemma OthersStayAbout(v: View, request: Request, response: Response, other: Request)
    requires RequestSafe(v, request) && RequestSafe(v, other) && Apart(v, request, other)
    requires ModesApart(v) && AboutDisplay(v, request) && AboutDisplay(v, other) && Timely(v, request, response)
    ensures AboutDisplay(Answered(v, request, response), other)
  {
    hide PollAnswered, StartAnswered, RestoreAnswered, ReadCommandRun, StartCommandRun, StillOnDisplay;
    match request
    case StartWait => StartAnsweredFrame(v, StartCommandRun(response));
    case PollWait(version, expected, after) =>
      PollAnsweredFrame(v, version, expected, ReadCommandRun(expected.id, after, response));
    case RestoreWait(version, id) => RestoreAnsweredFrame(v, version, id, ReadCommandRun(id, 0, response));
    case CancelWait(_, _) =>
  }

  lemma ArrivalFollowed(s: System, ticket: nat)
    requires Safe(s) && Followed(s.view, s.flights) && ticket in s.flights && s.flights[ticket].response.Some?
    ensures var w := Step(s, AnswerArrives(ticket));
            Followed(w.view, w.flights)
  {
    hide Answered, RequestSafe, TimerApart, Apart, TimerSafe, AboutDisplay, ViewSafe, ModesApart, Understood, StartsOver, StartCommandRun;
    var v, flights, request, response := s.view, s.flights, s.flights[ticket].request, s.flights[ticket].response.value;
    AnswersAreTimely(s, ticket);
    StartsStayOver(s, ticket);
    var w, rest := Answered(v, request, response), flights - {ticket};
    assert Step(s, AnswerArrives(ticket)).view == w && Step(s, AnswerArrives(ticket)).flights == rest;
    AnswerSettles(v, request, response);
    forall t | t in rest ensures AboutDisplay(w, rest[t].request) {
      OthersStayAbout(v, request, response, flights[t].request);
    }
    if Active(w.snapshot) && w.timer != PollTimer(w.pollVersion) {
      StillTracked(v, w, flights, ticket);
    }
    if w.restoring && !(w.timer.RestoreTimer? && TimerCurrent(w)) {
      StillRecovering(v, flights, ticket, response);
    }
  }

  lemma AnswersAreTimely(s: System, ticket: nat)
    requires Followed(s.view, s.flights) && ticket in s.flights && s.flights[ticket].response.Some?
    ensures Timely(s.view, s.flights[ticket].request, s.flights[ticket].response.value)
  {
    hide StartCommandRun, Tracked, Recovering, AboutDisplay, Understood;
    if s.view.restoring || Active(s.view.snapshot) { assert !CanStillStart(s.flights[ticket]); }
  }

  lemma StartsStayOver(s: System, ticket: nat)
    requires Safe(s) && Followed(s.view, s.flights) && ticket in s.flights && s.flights[ticket].response.Some?
    ensures StartsOver(Answered(s.view, s.flights[ticket].request, s.flights[ticket].response.value), s.flights - {ticket})
  {
    hide StartCommandRun, ReadCommandRun, Tracked, Recovering, Understood, Answered, ViewSafe, TimerApart;
    var v, request, response := s.view, s.flights[ticket].request, s.flights[ticket].response.value;
    var w := Answered(v, request, response);
    if w.restoring || Active(w.snapshot) {
      if v.restoring || Active(v.snapshot) {
        assert forall t :: t in s.flights - {ticket} ==> !CanStillStart(s.flights[t]);
      } else {
        WakesByStart(v, request, response);
        assert forall t :: t in s.flights - {ticket} ==> Apart(v, request, s.flights[t].request);
      }
    }
  }

  /** Only a start wakes an idle page. */
  lemma WakesByStart(v: View, request: Request, response: Response)
    requires RequestSafe(v, request) && AboutDisplay(v, request) && !v.restoring && !Active(v.snapshot)
    requires var w := Answered(v, request, response); w.restoring || Active(w.snapshot)
    ensures request.StartWait?
  {
    hide StartAnswered, RestoreAnswered, ReadCommandRun, StartCommandRun, Adopted, Lost;
  }

  lemma StillTracked(v: View, w: View, flights: map<nat, Flight>, ticket: nat)
    requires ticket in flights && !Current(v, flights[ticket].request) && w == v.(submitting := w.submitting)
    requires Tracked(v, flights)
    ensures Tracked(w, flights - {ticket})
  {
    if v.timer != PollTimer(v.pollVersion) {
      var t :| t in flights && Tracks(v, flights[t].request);
      assert t in flights - {ticket} && Tracks(w, flights[t].request);
    }
  }

  lemma StillRecovering(v: View, flights: map<nat, Flight>, ticket: nat, response: Response)
    requires ticket in flights && FlightsSafe(v, flights) && Followed(v, flights)
    requires Understood(flights[ticket].request, response) && Timely(v, flights[ticket].request, response)
    requires var w := Answered(v, flights[ticket].request, response);
             w.restoring && !(w.timer.RestoreTimer? && TimerCurrent(w))
    ensures Recovering(Answered(v, flights[ticket].request, response), flights - {ticket})
  {
    hide PollAnswered, RestoreAnswered, CancelAnswered, StartAnswered, ReadCommandRun, StartCommandRun, StillOnDisplay, Tracked;
    var request := flights[ticket].request;
    AnswerSettles(v, request, response);
    assert RequestSafe(v, request) && AboutDisplay(v, request);
    RestoringFrame(v, request, response);
    if t :| t in flights && Recovers(v, flights[t].request) {
      assert t in flights - {ticket};
    }
  }

  /** A restore under way is left alone by every answer but its own. */
  lemma RestoringFrame(v: View, request: Request, response: Response)
    requires Answered(v, request, response).restoring && !request.RestoreWait?
    requires RequestSafe(v, request) && ModesApart(v) && AboutDisplay(v, request) && Timely(v, request, response)
    ensures var w := Answered(v, request, response);
            v.restoring && w.pollVersion == v.pollVersion && w.timer == v.timer
  {
    hide PollAnswered, StartAnswered, RestoreAnswered, ReadCommandRun, StartCommandRun;
    match request
    case StartWait => StartAnsweredFrame(v, StartCommandRun(response));
    case PollWait(version, expected, after) =>
      PollAnsweredFrame(v, version, expected, ReadCommandRun(expected.id, after, response));
    case CancelWait(_, _) =>
  }

  // ---------------------------------------------------------------- the page acts

  /** No timer ticks beside a cancel, and a restore timer is never stale. */
  predicate TimerUseful(v: View) {
    && (v.canceling ==> !TimerCurrent(v))
    && (v.timer.RestoreTimer? ==> TimerCurrent(v))
  }

  lemma FollowedTimer(v: View, flights: map<nat, Flight>)
    requires FlightsSafe(v, flights) && Followed(v, flights)
    ensures TimerUseful(v)
  {
    hide RequestSafe, Apart, ModesApart, Tracked;
    if v.canceling {
      var t :| t in flights && flights[t].request.CancelWait?;
      assert AboutDisplay(v, flights[t].request) && TimerApart(v, flights[t].request);
    }
    if v.timer.RestoreTimer? {
      assert forall t :: t in flights ==> TimerApart(v, flights[t].request);
      assert forall t :: t in flights ==> !Recovers(v, flights[t].request);
    }
  }

  lemma HandledFollows(v: View, action: Action)
    requires OfPage(action) && TimerSafe(v) && ModesApart(v)
    requires TimerUseful(v) && (action.RestoreCall? && RestoreEnabled(v, action.stored) ==> !Active(v.snapshot))
    ensures var (w, request) := Handled(v, action);
            && ModesApart(w)
            && (request.Some? ==> AboutDisplay(w, request.value))
            && (Active(w.snapshot) && (v.timer == PollTimer(v.pollVersion) || w.pollVersion != v.pollVersion)
                ==> w.timer == PollTimer(w.pollVersion) || (request.Some? && Tracks(w, request.value)))
            && (w.restoring && (!v.restoring || (v.timer.RestoreTimer? && TimerCurrent(v)))
                ==> (w.timer.RestoreTimer? && TimerCurrent(w)) || (request.Some? && Recovers(w, request.value)))
            && (v.restoring ==> w.restoring && w.pollVersion == v.pollVersion)
  {
  }

  /** A request under way stays about the display when the page acts. */
  lemma HandledStaysAbout(v: View, action: Action, other: Request)
    requires OfPage(action) && ModesApart(v) && RequestSafe(v, other) && AboutDisplay(v, other)
    requires action.RestoreCall? && RestoreEnabled(v, action.stored) ==> !Active(v.snapshot)
    ensures AboutDisplay(Handled(v, action).0, other)
    ensures Tracks(v, other) && !action.CancelPress? ==> Tracks(Handled(v, action).0, other)
    ensures Recovers(v, other) ==> Recovers(Handled(v, action).0, other)
  {
    hide StillOnDisplay;
  }

  lemma PageFollowed(s: System, action: Action)
    requires Safe(s) && Followed(s.view, s.flights) && OfPage(action) && Orderly(s, action)
    ensures var w := Step(s, action);
            Followed(w.view, w.flights)
  {
    hide Handled, RequestSafe, TimerApart, Apart, TimerSafe, AboutDisplay, ViewSafe, ModesApart, Understood;
    hide TimerUseful, Tracks, Recovers, TimerCurrent, StartsOver;
    var v := s.view;
    var (w, request) := Handled(v, action);
    var after := Step(s, action);
    FollowedTimer(v, s.flights);
    HandledFollows(v, action);
    PageStartsOver(s, action);
    forall t | t in s.flights
      ensures AboutDisplay(w, s.flights[t].request)
      ensures Tracks(v, s.flights[t].request) && !action.CancelPress? ==> Tracks(w, s.flights[t].request)
      ensures Recovers(v, s.flights[t].request) ==> Recovers(w, s.flights[t].request)
    {
      HandledStaysAbout(v, action, s.flights[t].request);
    }
    assert forall t :: t in s.flights ==> t in after.flights && after.flights[t] == s.flights[t];
    assert forall t :: t in after.flights ==>
             t in s.flights || (request.Some? && t == s.issued && after.flights[t] == Flight(request.value, None));
    if Active(w.snapshot) { StaysTracked(s, action); }
    if w.restoring { StaysRecovering(s, action); }
  }

  lemma PageStartsOver(s: System, action: Action)
    requires Followed(s.view, s.flights) && OfPage(action) && Orderly(s, action)
    ensures StartsOver(Step(s, action).view, Step(s, action).flights)
  {
    hide AboutDisplay, Understood, Tracked, Recovering, StartCommandRun;
    var (w, request) := Handled(s.view, action);
    if w.restoring || Active(w.snapshot) {
      assert NothingStarts(s.flights);
      assert request.Some? ==> !request.value.StartWait?;
    }
  }

  lemma StaysTracked(s: System, action: Action)
    requires Safe(s) && Followed(s.view, s.flights) && OfPage(action) && Orderly(s, action)
    requires Active(Handled(s.view, action).0.snapshot)
    ensures Tracked(Step(s, action).view, Step(s, action).flights)
  {
    hide RequestSafe, TimerApart, Apart, AboutDisplay, ViewSafe, Understood, TimerUseful, Recovering;
    var v := s.view;
    var (w, request) := Handled(v, action);
    var after := Step(s, action);
    FollowedTimer(v, s.flights);
    HandledFollows(v, action);
    if request.Some? && Tracks(w, request.value) {
      assert s.issued in after.flights && after.flights[s.issued].request == request.value;
    } else if t :| t in s.flights && Tracks(v, s.flights[t].request) {
      HandledStaysAbout(v, action, s.flights[t].request);
      assert after.flights[t] == s.flights[t];
    }
  }

  lemma StaysRecovering(s: System, action: Action)
    requires Safe(s) && Followed(s.view, s.flights) && OfPage(action) && Orderly(s, action)
    requires Handled(s.view, action).0.restoring
    ensures Recovering(Step(s, action).view, Step(s, action).flights)
  {
    hide RequestSafe, TimerApart, Apart, AboutDisplay, ViewSafe, Understood, TimerUseful, Tracked;
    var v := s.view;
    var (w, request) := Handled(v, action);
    var after := Step(s, action);
    FollowedTimer(v, s.flights);
    HandledFollows(v, action);
    if request.Some? && Recovers(w, request.value) {
      assert s.issued in after.flights && after.flights[s.issued].request == request.value;
    } else if t :| t in s.flights && Recovers(v, s.flights[t].request) {
      HandledStaysAbout(v, action, s.flights[t].request);
      assert after.flights[t] == s.flights[t];
    }
  }

  lemma ServedFollowed(s: System, ticket: nat, response: Response)
    requires Followed(s.view, s.flights) && Allowed(s, HostAnswers(ticket, response))
    ensures var w := Step(s, HostAnswers(ticket, response));
            Followed(w.view, w.flights)
  {
    hide AboutDisplay, ModesApart, Understood, Tracks, Recovers;
    var after := Step(s, HostAnswers(ticket, response));
    assert forall t :: t in s.flights <==> t in after.flights;
    assert forall t :: t in s.flights ==> after.flights[t].request == s.flights[t].request;
  }

  lemma StepFollowed(s: System, action: Action)
    requires Safe(s) && Followed(s.view, s.flights) && Allowed(s, action)
    ensures Followed(Step(s, action).view, Step(s, action).flights)
  {
    hide Safe, Followed, Answered, Handled, Understood;
    match action
    case AnswerArrives(ticket) =>
      if ticket in s.flights && s.flights[ticket].response.Some? { ArrivalFollowed(s, ticket); }
    case HostAnswers(ticket, response) => ServedFollowed(s, ticket, response);
    case HostStartsRun(_, _) =>
    case HostRecords(_, _, _) =>
    case _ => PageFollowed(s, action);
  }

  lemma {:induction false} AlwaysFollowed(actions: seq<Action>)
    requires AllowedHistory(actions)
    ensures Followed(After(actions).view, After(actions).flights)
  {
    hide Followed, Step, Safe, Allowed;
    if actions == [] {
      StartIsFollowed();
    } else {
      AlwaysFollowed(actions[..|actions| - 1]);
      AlwaysSafe(actions[..|actions| - 1]);
      StepFollowed(After(actions[..|actions| - 1]), actions[|actions| - 1]);
    }
  }

  lemma StartIsFollowed()
    ensures Followed(START.view, START.flights)
  {
  }

  /**
   An active run always has a poll or a cancel of the current version pending, a restore in progress has its
   own read pending, and a start being submitted is in flight: the page never waits for nothing.
   */
  lemma NeverStalls(actions: seq<Action>)
    requires AllowedHistory(actions)
    ensures var s := After(actions);
            && (Active(s.view.snapshot) ==> Tracked(s.view, s.flights))
            && (s.view.restoring ==> Recovering(s.view, s.flights))
            && (s.view.submitting ==> exists t :: t in s.flights && s.flights[t].request.StartWait?)
            && !s.view.recoveryUncertain
  {
    hide After;
    AlwaysFollowed(actions);
    AlwaysSafe(actions);
  }

  // ---------------------------------------------------------------- when a restore call is harmless

  function RunFrom(s: System, actions: seq<Action>): System
    decreases |actions|
  {
    if actions == [] then s else RunFrom(Step(s, actions[0]), actions[1..])
  }

  ghost predicate AllowedFrom(s: System, actions: seq<Action>)
    decreases |actions|
  {
    actions == [] || (Allowed(s, actions[0]) && AllowedFrom(Step(s, actions[0]), actions[1..]))
  }

  /** Something is pending for whatever the page waits for. */
  ghost predicate Waits(s: System) {
    (Active(s.view.snapshot) ==> Tracked(s.view, s.flights)) && (s.view.restoring ==> Recovering(s.view, s.flights))
  }

  /** However the run goes on, the page never waits for nothing after this restore call. */
  ghost predicate StallFree(s: System, stored: string) {
    forall later :: AllowedFrom(Step(s, RestoreCall(stored)), later) ==> Waits(RunFrom(Step(s, RestoreCall(stored)), later))
  }

  lemma {:induction false} RunFollowed(s: System, later: seq<Action>)
    requires Safe(s) && Followed(s.view, s.flights) && AllowedFrom(s, later)
    ensures Followed(RunFrom(s, later).view, RunFrom(s, later).flights)
    decreases |later|
  {
    hide Safe, Followed, Step, Allowed;
    if later != [] {
      StepSafe(s, later[0]);
      StepFollowed(s, later[0]);
      RunFollowed(Step(s, later[0]), later[1..]);
    }
  }

  lemma QuietIsStallFree(s: System, stored: string)
    requires Safe(s) && Followed(s.view, s.flights) && Quiet(s)
    ensures StallFree(s, stored)
  {
    hide Safe, Step, Tracked, Recovering, Quiet, AllowedFrom;
    var r := Step(s, RestoreCall(stored));
    StepSafe(s, RestoreCall(stored));
    StepFollowed(s, RestoreCall(stored));
    forall later | AllowedFrom(r, later) ensures Waits(RunFrom(r, later)) {
      RunFollowed(r, later);
    }
  }

  /** A read that finds no record drops the version that the run on display was followed under. */
  lemma ActiveIsLost(s: System, stored: string)
    requires Safe(s) && RestoreEnabled(s.view, stored) && Active(s.view.snapshot)
    ensures !StallFree(s, stored)
  {
    hide Safe, Step, RunFrom, AllowedFrom, StallFree, Waits, Allowed;
    var r := Step(s, RestoreCall(stored));
    GoneStalls(s, stored);
    TwoSteps(r, HostAnswers(s.issued, GONE), AnswerArrives(s.issued));
    StallsAfter(s, stored, [HostAnswers(s.issued, GONE), AnswerArrives(s.issued)]);
  }

  const GONE := Http(404, None, Unusable)

  lemma GoneStalls(s: System, stored: string)
    requires Safe(s) && RestoreEnabled(s.view, stored) && Active(s.view.snapshot)
    ensures var r := Step(s, RestoreCall(stored));
            var answered := Step(r, HostAnswers(s.issued, GONE));
            && Allowed(r, HostAnswers(s.issued, GONE)) && Allowed(answered, AnswerArrives(s.issued))
            && !Waits(Step(answered, AnswerArrives(s.issued)))
  {
    hide ViewSafe, Apart, StillOnDisplay, Recovering, Tracked;
    var r := Step(s, RestoreCall(stored));
    var settled := Step(Step(r, HostAnswers(s.issued, GONE)), AnswerArrives(s.issued));
    assert r.flights[s.issued].request == RestoreWait(s.view.pollVersion + 1, stored);
    assert settled.flights == s.flights;
    Outdated(s, settled.view);
  }

  /** Nothing issued before the version moved on tracks the run. */
  lemma Outdated(s: System, w: View)
    requires Safe(s) && w.timer == s.view.timer && w.pollVersion > s.view.pollVersion
    ensures !Tracked(w, s.flights)
  {
    hide ViewSafe, Apart, StillOnDisplay;
    assert forall t :: t in s.flights ==> RequestSafe(s.view, s.flights[t].request);
  }

  lemma StallsAfter(s: System, stored: string, later: seq<Action>)
    requires AllowedFrom(Step(s, RestoreCall(stored)), later) && !Waits(RunFrom(Step(s, RestoreCall(stored)), later))
    ensures !StallFree(s, stored)
  {
    hide Step, AllowedFrom, RunFrom, Waits;
  }

  lemma OneStep(s: System, action: Action)
    requires Allowed(s, action)
    ensures AllowedFrom(s, [action]) && RunFrom(s, [action]) == Step(s, action)
  {
    hide Step, Allowed;
  }

  lemma TwoSteps(s: System, first: Action, second: Action)
    requires Allowed(s, first) && Allowed(Step(s, first), second)
    ensures AllowedFrom(s, [first, second]) && RunFrom(s, [first, second]) == Step(Step(s, first), second)
  {
    hide Step, Allowed;
    assert [first, second][1..] == [second];
    OneStep(Step(s, first), second);
  }

  /** A started run that arrives during a restore drops the version that the restore waits under. */
  lemma StartOvertakes(s: System, ticket: nat)
    requires Safe(s) && s.view.restoring && ticket in s.flights && s.flights[ticket].response.Some?
    requires Starts(s.flights[ticket].request, s.flights[ticket].response.value)
    ensures !Waits(Step(s, AnswerArrives(ticket)))
  {
    hide ViewSafe, Apart, StillOnDisplay, StartAnswered, StartCommandRun, Tracked;
    var after := Step(s, AnswerArrives(ticket));
    StartAnsweredFrame(s.view, StartCommandRun(s.flights[ticket].response.value));
    assert forall t :: t in after.flights ==> RequestSafe(s.view, s.flights[t].request);
  }

  /** A run that has ended; the answer to a start may already be one. */
  const FINISHED := Snapshot("1", "proj", Exited, Some(0), None, 0, [], false)

  lemma FinishedStarts()
    ensures Starts(StartWait, Http(201, Some("1"), Document(FINISHED)))
  {
  }

  lemma StartCanOvertake(s: System, stored: string, ticket: nat)
    requires Safe(s) && RestoreEnabled(s.view, stored) && ticket in s.flights && CanStillStart(s.flights[ticket])
    ensures !StallFree(s, stored)
  {
    hide Safe, ViewSafe, FlightsSafe, Waits, StallFree, AllowedFrom, RunFrom, StartCommandRun, Answered;
    var r := Step(s, RestoreCall(stored));
    StepSafe(s, RestoreCall(stored));
    TicketIsOld(s, ticket);
    assert r.view.restoring && r.flights[ticket] == s.flights[ticket];
    if s.flights[ticket].response.Some? {
      StartOvertakes(r, ticket);
      OneStep(r, AnswerArrives(ticket));
      StallsAfter(s, stored, [AnswerArrives(ticket)]);
    } else {
      var answer := HostAnswers(ticket, Http(201, Some("1"), Document(FINISHED)));
      FinishedStarts();
      StepSafe(r, answer);
      StartOvertakes(Step(r, answer), ticket);
      TwoSteps(r, answer, AnswerArrives(ticket));
      StallsAfter(s, stored, [answer, AnswerArrives(ticket)]);
    }
  }

  lemma TicketIsOld(s: System, ticket: nat)
    requires Safe(s) && ticket in s.flights
    ensures ticket < s.issued
  {
  }

  /**
   An enabled restore call never leaves the page waiting for nothing, however the run goes on, exactly when
   it comes while nothing runs and no start can still succeed.
   */
  lemma RestoreIsStallFreeExactlyWhen(actions: seq<Action>, stored: string)
    requires AllowedHistory(actions) && RestoreEnabled(After(actions).view, stored)
    ensures StallFree(After(actions), stored) <==> Quiet(After(actions))
  {
    hide After, Safe, Followed, StallFree, CanStillStart, AllowedHistory;
    var s := After(actions);
    AlwaysSafe(actions);
    AlwaysFollowed(actions);
    if Quiet(s) {
      QuietIsStallFree(s, stored);
    } else if Active(s.view.snapshot) {
      ActiveIsLost(s, stored);
    } else {
      var ticket :| ticket in s.flights && CanStillStart(s.flights[ticket]);
      StartCanOvertake(s, stored, ticket);
    }
  }

  lemma AfterThen(actions: seq<Action>, action: Action)
    ensures After(actions + [action]) == Step(After(actions), action)
  {
    hide Step;
    assert (actions + [action])[..|actions|] == actions;
  }

  function Overtaken(stored: string, s: Snapshot): seq<Action> {
    [ExecutePress(true)] + [RestoreCall(stored)] + [HostAnswers(0, Http(201, Some(s.id), Document(s)))] + [AnswerArrives(0)]
    + [HostAnswers(1, GONE)] + [AnswerArrives(1)]
  }

  lemma OvertakenView(stored: string, s: Snapshot)
    requires stored != "" && Normal(s) && !Active(Some(s))
    ensures var v := START.view.(submitting := true, restoring := true, pollVersion := 1);
            var w := StartAnswered(v, Fetched(s));
            && w.restoring && w.timer == NoTimer && !Active(w.snapshot) && w.pollVersion == 2 && !w.submitting
  {
    hide Adopted, Normal;
    var v := START.view.(submitting := true, restoring := true, pollVersion := 1);
    AdoptedFrame(v.(pollVersion := 2, timer := NoTimer, snapshot := None), s, true);
  }

  /** The two arrivals of `Overtaken`, from where both requests are under way. */
  lemma OvertakenArrivals(v: View, stored: string, s: Snapshot)
    requires v == START.view.(submitting := true, restoring := true, pollVersion := 1) && stored != "" && Normal(s) && !Active(Some(s))
    ensures var start := Http(201, Some(s.id), Document(s));
            var both := System(v, map[0 := Flight(StartWait, None), 1 := Flight(RestoreWait(1, stored), None)], 2, map[]);
            var started := Step(Step(both, HostAnswers(0, start)), AnswerArrives(0));
            Step(Step(started, HostAnswers(1, GONE)), AnswerArrives(1)) == System(StartAnswered(v, Fetched(s)), map[], 2, map[])
  {
    hide Normal, StartAnswered, Handled;
    OvertakenView(stored, s);
    var start := Http(201, Some(s.id), Document(s));
    var f0, f1 := Flight(StartWait, None), Flight(RestoreWait(1, stored), None);
    assert map[0 := f0.(response := Some(start)), 1 := f1] - {0} == map[1 := f1];
    assert map[1 := f1.(response := Some(GONE))] - {1} == map[];
  }

  lemma OvertakenEnds(stored: string, s: Snapshot)
    requires stored != ""
    ensures var both := After([ExecutePress(true)] + [RestoreCall(stored)]);
            var started := Step(Step(both, HostAnswers(0, Http(201, Some(s.id), Document(s)))), AnswerArrives(0));
            After(Overtaken(stored, s)) == Step(Step(started, HostAnswers(1, GONE)), AnswerArrives(1))
  {
    hide After, Step;
    var a2 := [ExecutePress(true)] + [RestoreCall(stored)];
    var a3 := a2 + [HostAnswers(0, Http(201, Some(s.id), Document(s)))];
    var a4 := a3 + [AnswerArrives(0)];
    var a5 := a4 + [HostAnswers(1, GONE)];
    AfterThen(a2, HostAnswers(0, Http(201, Some(s.id), Document(s))));
    AfterThen(a3, AnswerArrives(0));
    AfterThen(a4, HostAnswers(1, GONE));
    AfterThen(a5, AnswerArrives(1));
  }

  /**
   When a start overtakes a restore, the page is left restoring with nothing pending, and no action of the
   page changes it again.
   */
  lemma OvertakenRestoreStalls(stored: string, s: Snapshot)
    requires stored != "" && Normal(s) && !Active(Some(s))
    ensures var stalled := After(Overtaken(stored, s));
            && stalled.view.restoring && !Recovering(stalled.view, stalled.flights)
            && forall action :: OfPage(action) ==> Step(stalled, action) == stalled
  {
    hide Normal, StartAnswered, After, Step, OfPage, Recovering, Overtaken;
    OvertakenView(stored, s);
    BeforeOvertaking(stored);
    OvertakenEnds(stored, s);
    OvertakenArrivals(START.view.(submitting := true, restoring := true, pollVersion := 1), stored, s);
    NothingMoves(After(Overtaken(stored, s)));
  }

  lemma NothingMoves(s: System)
    requires s.view.restoring && s.view.timer == NoTimer && !Active(s.view.snapshot) && s.flights == map[]
    ensures !Recovering(s.view, s.flights) && forall action :: OfPage(action) ==> Step(s, action) == s
  {
  }

  lemma BeforeOvertaking(stored: string)
    requires stored != ""
    ensures After([ExecutePress(true)] + [RestoreCall(stored)])
            == System(START.view.(submitting := true, restoring := true, pollVersion := 1),
                      map[0 := Flight(StartWait, None), 1 := Flight(RestoreWait(1, stored), None)], 2, map[])
  {
    hide Ascending;
    AfterThen([], ExecutePress(true));
    assert [] + [ExecutePress(true)] == [ExecutePress(true)];
    AfterThen([ExecutePress(true)], RestoreCall(stored));
  }
}
