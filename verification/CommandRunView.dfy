/** The page's view of one command run: every handler, split where it waits for an answer. */
module CommandRunView {
  import opened CommandRunClient
  import opened Wrappers

  datatype Timer =
    | NoTimer
    | PollTimer(version: nat)
    | RestoreTimer(id: string, version: nat)

  /** What a handler waits for, with the local variables it resumes with. */
  datatype Request =
    | PollWait(version: nat, expected: Snapshot, after: nat)
    | StartWait
    | CancelWait(version: nat, id: string)
    | RestoreWait(version: nat, id: string)

  /** `shown` is what the output received since its last reset; `announced` lists the calls of `onCompleted`. */
  datatype View = View(
    snapshot: Option<Snapshot>, cursor: nat, timer: Timer, pollVersion: nat,
    submitting: bool, canceling: bool, restoring: bool, recoveryUncertain: bool,
    completed: set<string>, shown: seq<RunEvent>, announced: seq<string>)

  const INITIAL := View(None, 0, NoTimer, 0, false, false, false, false, {}, [], [])

  function Fresh(events: seq<RunEvent>, cursor: nat): seq<RunEvent> {
    if events == [] then []
    else (if events[0].sequence > cursor then [events[0]] else []) + Fresh(events[1..], cursor)
  }

  function Held(next: Snapshot): Snapshot {
    next.(events := [])
  }

  predicate Matches(held: Option<Snapshot>, next: Snapshot) {
    held.Some? ==> held.value.id == next.id && held.value.address == next.address
  }

  predicate Succeeded(s: Snapshot) {
    s.state == Exited && s.exitCode == Some(0)
  }

  /** Adopts an answer about the run on display; the caller has cleared or matched `v.snapshot`. */
  function Adopted(v: View, next: Snapshot, reset: bool): View {
    var base := if reset then v.(cursor := 0, shown := []) else v;
    var announce := Succeeded(next) && next.id !in v.completed;
    base.(shown := base.shown + Fresh(next.events, base.cursor), cursor := next.nextCursor, snapshot := Some(Held(next)),
          completed := if announce then v.completed + {next.id} else v.completed,
          announced := if announce then v.announced + [next.id] else v.announced)
  }

  function Following(v: View, version: nat): View {
    if Active(v.snapshot) then v.(timer := PollTimer(version)) else v
  }

  function Lost(expected: Snapshot): Snapshot {
    Held(expected).(state := Failed, exitCode := None, error := Some("run record unavailable"))
  }

  function TimerFired(v: View): (View, Option<Request>) {
    var idle := v.(timer := NoTimer);
    match v.timer
    case NoTimer => (v, None)
    case RestoreTimer(id, version) => (idle, Some(RestoreWait(version, id)))
    case PollTimer(version) =>
      if version == v.pollVersion && Active(v.snapshot) then
        (idle, Some(PollWait(version, v.snapshot.value, v.cursor)))
      else (idle, None)
  }

  function PollAnswered(v: View, version: nat, expected: Snapshot, reply: Reply): View {
    if version != v.pollVersion then v
    else if reply.Fetched? then
      if Matches(v.snapshot, reply.snapshot) then Following(Adopted(v, reply.snapshot, false), version) else v
    else if reply == Rejected(404) then
      if Matches(v.snapshot, expected) then Adopted(v, Lost(expected), false) else v
    else if RetryableRead(reply) then v.(timer := PollTimer(version))
    else v
  }

  function ExecutePressed(v: View, runnable: bool): (View, Option<Request>) {
    if !runnable || Active(v.snapshot) || v.submitting || v.restoring || v.recoveryUncertain then (v, None)
    else (v.(submitting := true), Some(StartWait))
  }

  function StartAnswered(v: View, reply: Reply): View {
    if reply.Fetched? then
      var started := v.(pollVersion := v.pollVersion + 1, timer := NoTimer, snapshot := None);
      Following(Adopted(started, reply.snapshot, true), started.pollVersion).(submitting := false)
    else v.(submitting := false)
  }

  function CancelPressed(v: View): (View, Option<Request>) {
    if !Active(v.snapshot) || v.canceling then (v, None)
    else
      var version := v.pollVersion + 1;
      (v.(pollVersion := version, timer := NoTimer, canceling := true), Some(CancelWait(version, v.snapshot.value.id)))
  }

  function CancelAnswered(v: View, version: nat, id: string, accepted: bool): View {
    var done := v.(canceling := false);
    if !Active(v.snapshot) || v.snapshot.value.id != id then done
    else if accepted then
      done.(snapshot := Some(v.snapshot.value.(state := Canceling)), timer := PollTimer(version))
    else done.(timer := PollTimer(version))
  }

  function RestoreCalled(v: View, stored: string): (View, Option<Request>) {
    if stored == "" || v.restoring || v.recoveryUncertain then (v, None)
    else
      var version := v.pollVersion + 1;
      (v.(restoring := true, pollVersion := version), Some(RestoreWait(version, stored)))
  }

  function RestoreAnswered(v: View, version: nat, id: string, reply: Reply): View {
    if version != v.pollVersion then v
    else if reply.Fetched? then
      var settled := v.(restoring := false, recoveryUncertain := false, snapshot := None);
      Following(Adopted(settled, reply.snapshot, true), version)
    else if reply == Rejected(404) then v.(restoring := false, recoveryUncertain := false)
    else if RetryableRead(reply) then v.(timer := RestoreTimer(id, version))
    else v.(restoring := false, recoveryUncertain := true)
  }

  /** The closure variables of the view, changed in place by each handler. */
  class CommandRunPanel {
    var snapshot: Option<Snapshot>
    var cursor: nat
    var timer: Timer
    var pollVersion: nat
    var submitting: bool
    var canceling: bool
    var restoring: bool
    var recoveryUncertain: bool
    var completed: set<string>
    ghost var shown: seq<RunEvent>
    ghost var announced: seq<string>

    ghost function State(): View
      reads this
    {
      View(snapshot, cursor, timer, pollVersion, submitting, canceling, restoring, recoveryUncertain,
           completed, shown, announced)
    }

    constructor ()
      ensures State() == INITIAL
    {
      snapshot, cursor, timer, pollVersion := None, 0, NoTimer, 0;
      submitting, canceling, restoring, recoveryUncertain := false, false, false, false;
      completed, shown, announced := {}, [], [];
    }

    /** Refuses, changing nothing, an answer about another run than the one on display. */
    method AdoptSnapshot(next: Snapshot, reset: bool) returns (adopted: bool)
      modifies this
      ensures adopted <==> Matches(old(snapshot), next)
      ensures pollVersion == old(pollVersion)
      ensures State() == if adopted then Adopted(old(State()), next, reset) else old(State())
    {
      hide Fresh;
      if snapshot.Some? && (snapshot.value.id != next.id || snapshot.value.address != next.address) {
        return false;
      }
      if reset {
        shown := [];
        cursor := 0;
      }
      shown := shown + Fresh(next.events, cursor);
      cursor := next.nextCursor;
      snapshot := Some(next.(events := []));
      if next.state == Exited && next.exitCode == Some(0) && next.id !in completed {
        completed := completed + {next.id};
        announced := announced + [next.id];
      }
      adopted := true;
    }

    method OnTimer() returns (request: Option<Request>)
      modifies this
      ensures (State(), request) == TimerFired(old(State()))
    {
      var fired := timer;
      timer := NoTimer;
      match fired {
        case NoTimer => request := None;
        case RestoreTimer(id, version) => request := Some(RestoreWait(version, id));
        case PollTimer(version) =>
          if snapshot == None || version != pollVersion || !Active(snapshot) {
            request := None;
          } else {
            request := Some(PollWait(version, snapshot.value, cursor));
          }
      }
    }

    method OnPollAnswer(version: nat, expected: Snapshot, reply: Reply)
      modifies this
      ensures State() == PollAnswered(old(State()), version, expected, reply)
    {
      hide Adopted;
      if version != pollVersion {
        return;
      }
      if reply.Fetched? {
        var adopted := AdoptSnapshot(reply.snapshot, false);
        if adopted && Active(snapshot) {
          timer := PollTimer(version);
        }
      } else if reply == Rejected(404) {
        var _ := AdoptSnapshot(Lost(expected), false);
      } else if RetryableRead(reply) {
        timer := PollTimer(version);
      }
    }

    method Execute(runnable: bool) returns (request: Option<Request>)
      modifies this
      ensures (State(), request) == ExecutePressed(old(State()), runnable)
    {
      if !runnable || Active(snapshot) || submitting || restoring || recoveryUncertain {
        return None;
      }
      submitting := true;
      request := Some(StartWait);
    }

    method OnStartAnswer(reply: Reply)
      modifies this
      ensures State() == StartAnswered(old(State()), reply)
    {
      hide Adopted;
      if reply.Fetched? {
        pollVersion := pollVersion + 1;
        timer := NoTimer;
        snapshot := None;
        var _ := AdoptSnapshot(reply.snapshot, true);
        if Active(snapshot) {
          timer := PollTimer(pollVersion);
        }
      }
      submitting := false;
    }

    method Cancel() returns (request: Option<Request>)
      modifies this
      ensures (State(), request) == CancelPressed(old(State()))
    {
      if !Active(snapshot) || canceling {
        return None;
      }
      pollVersion := pollVersion + 1;
      timer := NoTimer;
      canceling := true;
      request := Some(CancelWait(pollVersion, snapshot.value.id));
    }

    method OnCancelAnswer(version: nat, id: string, accepted: bool)
      modifies this
      ensures State() == CancelAnswered(old(State()), version, id, accepted)
    {
      if Active(snapshot) && snapshot.value.id == id {
        if accepted {
          snapshot := Some(snapshot.value.(state := Canceling));
        }
        timer := PollTimer(version);
      }
      canceling := false;
    }

    method Restore(stored: string) returns (request: Option<Request>)
      modifies this
      ensures (State(), request) == RestoreCalled(old(State()), stored)
    {
      if stored == "" || restoring || recoveryUncertain {
        return None;
      }
      restoring := true;
      recoveryUncertain := false;
      pollVersion := pollVersion + 1;
      request := Some(RestoreWait(pollVersion, stored));
    }

    method OnRestoreAnswer(version: nat, id: string, reply: Reply)
      modifies this
      ensures State() == RestoreAnswered(old(State()), version, id, reply)
    {
      hide Adopted, Lost;
      if version != pollVersion {
        return;
      }
      if reply.Fetched? {
        restoring := false;
        recoveryUncertain := false;
        snapshot := None;
        var _ := AdoptSnapshot(reply.snapshot, true);
        if Active(snapshot) {
          timer := PollTimer(version);
        }
      } else if reply == Rejected(404) {
        restoring := false;
        recoveryUncertain := false;
      } else if RetryableRead(reply) {
        timer := RestoreTimer(id, version);
      } else {
        restoring := false;
        recoveryUncertain := true;
      }
    }
  }
}
