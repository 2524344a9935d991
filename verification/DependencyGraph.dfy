/**
 What the dependency checker's answer means.

 `Unfold` is the checker without budgets; the budgeted walk returns it exactly when it fits.
 Its readiness is then a statement about the requirement graph alone.
 */
module DependencyGraph {
  import opened CommandModel
  import opened DependencyCheck
  import opened Wrappers

  // ---------------------------------------------------------------- unfolding without budgets

  function Addresses(commands: seq<CommandNode>): set<string> {
    set c | c in commands :: c.address
  }

  lemma ActiveGrows(w: World, r: CommandRequirement, active: set<string>)
    requires Opened(w, r, active).Open?
    ensures |Addresses(w.commands) - (active + {r.provider})| < |Addresses(w.commands) - active|
  {
    var all := Addresses(w.commands);
    assert r.provider in all - active;
    assert all - (active + {r.provider}) == (all - active) - {r.provider};
  }

  function Unfold(w: World, r: CommandRequirement, active: set<string>): DependencyCheck
    decreases |Addresses(w.commands) - active|, 0, 0
  {
    match Opened(w, r, active)
    case Closed(check) => check
    case Open(provider) =>
      ActiveGrows(w, r, active);
      Verdict(w, r, provider, UnfoldAll(w, provider.requirements, active + {r.provider}))
  }

  function UnfoldAll(w: World, rs: seq<CommandRequirement>, active: set<string>): (checks: seq<DependencyCheck>)
    ensures |checks| == |rs|
    ensures forall i :: 0 <= i < |rs| ==> checks[i] == Unfold(w, rs[i], active)
    decreases |Addresses(w.commands) - active|, 1, |rs|
  {
    if rs == [] then [] else [Unfold(w, rs[0], active)] + UnfoldAll(w, rs[1..], active)
  }

  // ---------------------------------------------------------------- size and height

  function Size(check: DependencyCheck): nat
    decreases check, 0
  {
    1 + SizeAll(check.dependencies)
  }

  function SizeAll(checks: seq<DependencyCheck>): nat
    decreases checks, |checks|
  {
    if checks == [] then 0 else Size(checks[0]) + SizeAll(checks[1..])
  }

  function Height(check: DependencyCheck): nat
    decreases check, 0
  {
    1 + HeightAll(check.dependencies)
  }

  function HeightAll(checks: seq<DependencyCheck>): nat
    decreases checks, |checks|
  {
    if checks == [] then 0
    else
      var first, rest := Height(checks[0]), HeightAll(checks[1..]);
      if first > rest then first else rest
  }

  /** Every node's depth and the number of nodes stay within the budgets. */
  predicate Fits(checks: seq<DependencyCheck>, depth: nat, items: nat) {
    && (checks == [] || depth + HeightAll(checks) <= MAX_DEPENDENCY_DEPTH + 1)
    && items + SizeAll(checks) <= MAX_DEPENDENCY_ITEMS
  }

  lemma FitsCons(first: DependencyCheck, rest: seq<DependencyCheck>, depth: nat, items: nat)
    ensures Fits([first] + rest, depth, items) <==> Fits([first], depth, items) && Fits(rest, depth, items + Size(first))
    ensures SizeAll([first] + rest) == Size(first) + SizeAll(rest)
  {
    assert ([first] + rest)[1..] == rest;
    assert SizeAll([first]) == Size(first) && HeightAll([first]) == Height(first);
  }

  lemma FitsWithin(checks: seq<DependencyCheck>, depth: nat, items: nat)
    ensures Fits(checks, depth, items) ==> items + SizeAll(checks) <= MAX_DEPENDENCY_ITEMS
    ensures checks == [] && items <= MAX_DEPENDENCY_ITEMS ==> Fits(checks, depth, items)
  {
  }

  lemma FitsVerdict(w: World, r: CommandRequirement, provider: CommandNode, checks: seq<DependencyCheck>, depth: nat, items: nat)
    ensures var check := Verdict(w, r, provider, checks);
            && Size(check) == 1 + SizeAll(checks)
            && (Fits([check], depth, items) <==>
                depth <= MAX_DEPENDENCY_DEPTH && items < MAX_DEPENDENCY_ITEMS && Fits(checks, depth + 1, items + 1))
  {
    hide CheckerOf, InspectPublication;
    var check := Verdict(w, r, provider, checks);
    assert check.dependencies == checks;
    assert SizeAll([check]) == Size(check) && HeightAll([check]) == Height(check);
  }

  lemma FitsLeaf(check: DependencyCheck, depth: nat, items: nat)
    requires check.dependencies == []
    ensures Size(check) == 1
    ensures Fits([check], depth, items) <==> depth <= MAX_DEPENDENCY_DEPTH && items < MAX_DEPENDENCY_ITEMS
  {
    assert SizeAll([check]) == 1 && HeightAll([check]) == 1;
  }

  // ---------------------------------------------------------------- the budgeted walk computes the unfolding

  /** The walk answers with the unfolding, restores `active` and spends one item a node, or the unfolding does not fit. */
  predicate Refines(walked: Walked<seq<DependencyCheck>>, unfolded: seq<DependencyCheck>, depth: nat, active: set<string>, items: nat) {
    if Fits(unfolded, depth, items)
    then walked == Walked(Ok(unfolded), active, items + SizeAll(unfolded))
    else walked.result.Err?
  }

  function Single(walked: Walked<DependencyCheck>): Walked<seq<DependencyCheck>> {
    match walked.result
    case Err(error) => Walked(Err(error), walked.active, walked.items)
    case Ok(check) => Walked(Ok([check]), walked.active, walked.items)
  }

  lemma {:induction false} EvaluateRefines(w: World, r: CommandRequirement, depth: nat, active: set<string>, items: nat)
    requires items <= MAX_DEPENDENCY_ITEMS
    ensures Refines(Single(Evaluate(w, r, depth, active, items)), [Unfold(w, r, active)], depth, active, items)
    decreases MAX_DEPENDENCY_DEPTH + 1 - depth, 0, 0
  {
    hide Verdict, Fits, Size;
    match Opened(w, r, active)
    case Closed(check) =>
      ClosedIsLeaf(w, r, active);
      FitsLeaf(check, depth, items);
      assert SizeAll([check]) == 1 by { FitsCons(check, [], 0, 0); assert [check] + [] == [check]; }
    case Open(provider) =>
      var inner := active + {r.provider};
      var checks := UnfoldAll(w, provider.requirements, inner);
      var check := Verdict(w, r, provider, checks);
      FitsVerdict(w, r, provider, checks, depth, items);
      assert SizeAll([check]) == Size(check) by { FitsCons(check, [], 0, 0); assert [check] + [] == [check]; }
      if depth <= MAX_DEPENDENCY_DEPTH && items < MAX_DEPENDENCY_ITEMS {
        EvaluateAllRefines(w, provider.requirements, depth + 1, inner, items + 1);
        assert inner - {r.provider} == active;
      }
  }

  lemma ClosedIsLeaf(w: World, r: CommandRequirement, active: set<string>)
    requires Opened(w, r, active).Closed?
    ensures Opened(w, r, active).check.dependencies == []
  {
  }

  lemma {:induction false} EvaluateAllRefines(w: World, rs: seq<CommandRequirement>, depth: nat, active: set<string>, items: nat)
    requires items <= MAX_DEPENDENCY_ITEMS
    ensures Refines(EvaluateAll(w, rs, depth, active, items), UnfoldAll(w, rs, active), depth, active, items)
    decreases MAX_DEPENDENCY_DEPTH + 1 - depth, 1, |rs|
  {
    hide Evaluate, Unfold;
    if rs == [] {
      assert Fits([], depth, items) by { FitsWithin([], depth, items); }
    } else {
      EvaluateRefines(w, rs[0], depth, active, items);
      var first, rest := Unfold(w, rs[0], active), UnfoldAll(w, rs[1..], active);
      FitsCons(first, rest, depth, items);
      FitsCons(first, [], depth, items);
      assert [first] + [] == [first];
      if Fits([first], depth, items) {
        FitsWithin([first], depth, items);
        EvaluateAllRefines(w, rs[1..], depth, active, items + Size(first));
      }
    }
  }

  // ---------------------------------------------------------------- the requirement graph

  /** One requirement follows another when the first one's provider declares the second. */
  predicate Follows(w: World, r: CommandRequirement, next: CommandRequirement) {
    var provider := Provider(w.commands, r.provider);
    provider.Some? && next in provider.value.requirements
  }

  /** A walk through the requirement graph. */
  predicate IsWalk(w: World, walk: seq<CommandRequirement>) {
    walk != [] && forall i :: 0 < i < |walk| ==> Follows(w, walk[i - 1], walk[i])
  }

  /** A requirement met on its own: its provider exists, is runnable and published, and declares the export. */
  predicate Met(w: World, r: CommandRequirement) {
    var provider := Provider(w.commands, r.provider);
    && provider.Some? && provider.value.runnable
    && (exists p :: p in provider.value.provisions && p.id == r.exported)
    && InspectPublication(w.facts(provider.value), w.entryName, provider.value).ready
  }

  /** The walk never comes back to a provider, nor to one of `active`. */
  predicate NeverReturns(walk: seq<CommandRequirement>, active: set<string>) {
    && (forall i :: 0 <= i < |walk| ==> walk[i].provider !in active)
    && (forall i, j :: 0 <= i < j < |walk| ==> walk[i].provider != walk[j].provider)
  }

  lemma WalkTail(w: World, walk: seq<CommandRequirement>)
    requires IsWalk(w, walk) && |walk| > 1
    ensures IsWalk(w, walk[1..]) && Follows(w, walk[0], walk[1])
  {
    var tail := walk[1..];
    assert forall i :: 0 < i < |tail| ==> tail[i - 1] == walk[i] && tail[i] == walk[i + 1];
  }

  lemma WalkCons(w: World, r: CommandRequirement, tail: seq<CommandRequirement>)
    requires IsWalk(w, tail) && Follows(w, r, tail[0])
    ensures IsWalk(w, [r] + tail)
  {
  }

  lemma NeverReturnsCons(r: CommandRequirement, tail: seq<CommandRequirement>, active: set<string>)
    ensures NeverReturns([r] + tail, active) <==> r.provider !in active && NeverReturns(tail, active + {r.provider})
  {
    hide NeverReturns;
    if NeverReturns([r] + tail, active) { NeverReturnsTail(r, tail, active); }
    if r.provider !in active && NeverReturns(tail, active + {r.provider}) { NeverReturnsFirst(r, tail, active); }
  }

  lemma NeverReturnsTail(r: CommandRequirement, tail: seq<CommandRequirement>, active: set<string>)
    requires NeverReturns([r] + tail, active)
    ensures r.provider !in active && NeverReturns(tail, active + {r.provider})
  {
    var walk := [r] + tail;
    assert walk[0] == r;
    forall i | 0 <= i < |tail| ensures tail[i].provider !in active + {r.provider} {
      assert walk[i + 1] == tail[i];
    }
    forall i, j | 0 <= i < j < |tail| ensures tail[i].provider != tail[j].provider {
      assert walk[i + 1] == tail[i] && walk[j + 1] == tail[j];
    }
  }

  lemma NeverReturnsFirst(r: CommandRequirement, tail: seq<CommandRequirement>, active: set<string>)
    requires r.provider !in active && NeverReturns(tail, active + {r.provider})
    ensures NeverReturns([r] + tail, active)
  {
    var walk := [r] + tail;
    forall i | 0 <= i < |walk| ensures walk[i].provider !in active {
      if i > 0 { assert walk[i] == tail[i - 1]; }
    }
    forall i, j | 0 <= i < j < |walk| ensures walk[i].provider != walk[j].provider {
      assert walk[j] == tail[j - 1];
      if i > 0 { assert walk[i] == tail[i - 1]; }
    }
  }

  /** Readiness of an opened requirement, from its provider and its own requirements. */
  lemma OpenReady(w: World, r: CommandRequirement, active: set<string>)
    requires Opened(w, r, active).Open?
    ensures var provider := Opened(w, r, active).provider;
            && Provider(w.commands, r.provider) == Some(provider)
            && (Unfold(w, r, active).ready <==>
                && Met(w, r)
                && forall c :: c in provider.requirements ==> Unfold(w, c, active + {r.provider}).ready)
  {
    hide CheckerOf, InspectPublication;
    var provider := Opened(w, r, active).provider;
    var children := UnfoldAll(w, provider.requirements, active + {r.provider});
    forall c | c in provider.requirements
      ensures exists check :: check in children && check == Unfold(w, c, active + {r.provider})
    {
      var i :| 0 <= i < |provider.requirements| && provider.requirements[i] == c;
      assert children[i] in children;
    }
  }

  lemma ClosedNotReady(w: World, r: CommandRequirement, active: set<string>)
    requires Opened(w, r, active).Closed?
    ensures !Unfold(w, r, active).ready
    ensures r.provider in active || !Met(w, r)
  {
  }

  /** A ready requirement answers for every walk that starts with it. */
  lemma {:induction false} ReadyMeansEveryWalk(w: World, r: CommandRequirement, active: set<string>, walk: seq<CommandRequirement>)
    requires Unfold(w, r, active).ready && IsWalk(w, walk) && walk[0] == r
    ensures Met(w, walk[|walk| - 1]) && NeverReturns(walk, active)
    decreases |walk|
  {
    hide Unfold, Met;
    if Opened(w, r, active).Closed? {
      ClosedNotReady(w, r, active);
    } else {
      OpenReady(w, r, active);
      if |walk| > 1 {
        WalkTail(w, walk);
        ReadyMeansEveryWalk(w, walk[1], active + {r.provider}, walk[1..]);
        NeverReturnsCons(r, walk[1..], active);
        assert walk == [r] + walk[1..];
      }
    }
  }

  /** A requirement that is not ready has a walk to blame. */
  lemma {:induction false} UnreadyHasWalk(w: World, r: CommandRequirement, active: set<string>) returns (walk: seq<CommandRequirement>)
    requires !Unfold(w, r, active).ready
    ensures IsWalk(w, walk) && walk[0] == r
    ensures !Met(w, walk[|walk| - 1]) || !NeverReturns(walk, active)
    decreases |Addresses(w.commands) - active|
  {
    hide Unfold, Met;
    walk := [r];
    if Opened(w, r, active).Closed? {
      ClosedNotReady(w, r, active);
    } else {
      OpenReady(w, r, active);
      if Met(w, r) {
        var provider := Opened(w, r, active).provider;
        var c :| c in provider.requirements && !Unfold(w, c, active + {r.provider}).ready;
        ActiveGrows(w, r, active);
        var tail := UnreadyHasWalk(w, c, active + {r.provider});
        walk := [r] + tail;
        WalkCons(w, r, tail);
        NeverReturnsCons(r, tail, active);
        assert walk[|walk| - 1] == tail[|tail| - 1];
      }
    }
  }

  // ---------------------------------------------------------------- the document

  /** A walk that starts at one of the target's own requirements. */
  predicate WalkFrom(w: World, target: CommandNode, walk: seq<CommandRequirement>) {
    IsWalk(w, walk) && walk[0] in target.requirements
  }

  /** Every requirement reachable from the target is met, and none of the walks there is a cycle. */
  ghost predicate GraphReady(w: World, target: CommandNode) {
    forall walk :: WalkFrom(w, target, walk) ==> Met(w, walk[|walk| - 1]) && NeverReturns(walk, {target.address})
  }

  lemma UnfoldedReadyIsGraphReady(w: World, target: CommandNode)
    ensures AllReady(UnfoldAll(w, target.requirements, {target.address})) <==> GraphReady(w, target)
  {
    hide Met, Unfold, NeverReturns;
    var active := {target.address};
    var checks := UnfoldAll(w, target.requirements, active);
    if AllReady(checks) {
      forall walk | WalkFrom(w, target, walk)
        ensures Met(w, walk[|walk| - 1]) && NeverReturns(walk, active)
      {
        var i :| 0 <= i < |target.requirements| && target.requirements[i] == walk[0];
        assert checks[i] in checks;
        ReadyMeansEveryWalk(w, walk[0], active, walk);
      }
    } else {
      var check :| check in checks && !check.ready;
      var i :| 0 <= i < |checks| && checks[i] == check;
      var walk := UnreadyHasWalk(w, target.requirements[i], active);
      assert WalkFrom(w, target, walk);
    }
  }

  /** The unfolding of a target. */
  function Unfolding(w: World, target: CommandNode): seq<DependencyCheck> {
    UnfoldAll(w, target.requirements, {target.address})
  }

  lemma DependenciesAreTheUnfolding(w: World, target: CommandNode)
    ensures EvaluateDependencies(w, target).Ok? <==> Fits(Unfolding(w, target), 0, 0)
    ensures EvaluateDependencies(w, target).Ok? ==> EvaluateDependencies(w, target).value == Unfolding(w, target)
  {
    hide EvaluateAll, UnfoldAll, Fits;
    EvaluateAllRefines(w, target.requirements, 0, {target.address}, 0);
  }

  /**
   A check document exists exactly when the target resolves and its unfolding fits the budgets, and
   then it is ready exactly when the target is runnable and its requirement graph is ready.
   */
  lemma InspectIsSoundAndComplete(w: World, address: string)
    ensures var resolved := ResolveTarget(w.commands, address);
            var inspected := Inspect(w, address);
            && (inspected.Ok? <==> resolved.Ok? && Fits(Unfolding(w, resolved.value), 0, 0))
            && (inspected.Ok? ==>
                  && inspected.value.dependencies == Unfolding(w, resolved.value)
                  && (inspected.value.ready <==> resolved.value.runnable && GraphReady(w, resolved.value)))
  {
    hide EvaluateDependencies, Fits, GraphReady, Unfolding;
    var resolved := ResolveTarget(w.commands, address);
    if resolved.Ok? {
      DependenciesAreTheUnfolding(w, resolved.value);
      ReadyUnfolding(w, resolved.value);
    }
  }

  lemma ReadyUnfolding(w: World, target: CommandNode)
    ensures AllReady(Unfolding(w, target)) <==> GraphReady(w, target)
  {
    UnfoldedReadyIsGraphReady(w, target);
  }

  lemma {:induction false} SummariesOfUnready(checks: seq<DependencyCheck>, entryName: string)
    ensures Summaries(checks, entryName) == [] <==> AllReady(checks)
  {
    if checks != [] {
      SummariesOfUnready(checks[1..], entryName);
      assert checks == [checks[0]] + checks[1..];
    }
  }

  /** The execution gate opens exactly when the same inspection finds every dependency ready. */
  lemma GateOpensExactlyWhenReady(w: World, address: string)
    ensures var inspected := Inspect(w, address);
            && (AssertDependenciesReady(w, address).Ok? <==>
                inspected.Ok? && AllReady(inspected.value.dependencies))
            && (AssertDependenciesReady(w, address).Ok? ==>
                GraphReady(w, ResolveTarget(w.commands, address).value))
  {
    hide EvaluateDependencies, GraphReady, Unfolding;
    var resolved := ResolveTarget(w.commands, address);
    if resolved.Ok? {
      DependenciesAreTheUnfolding(w, resolved.value);
      ReadyUnfolding(w, resolved.value);
      var evaluated := EvaluateDependencies(w, resolved.value);
      if evaluated.Ok? { SummariesOfUnready(evaluated.value, w.entryName); }
    }
  }

  // ---------------------------------------------------------------- what the browser re-checks

  /** `dependency` of the browser's model: the running count, or nothing when it throws. */
  function ProjectDependency(check: DependencyCheck, count: nat, depth: nat): Option<nat>
    decreases check, 0
  {
    if depth > 32 then None
    else if count + 1 > 512 then None
    else
      var counted := ProjectAll(check.dependencies, count + 1, depth + 1);
      if counted.None? || check.ready != (check.status == "ready" && AllReady(check.dependencies)) then None else counted
  }

  function ProjectAll(checks: seq<DependencyCheck>, count: nat, depth: nat): Option<nat>
    decreases checks, |checks|
  {
    if checks == [] then Some(count)
    else
      var first := ProjectDependency(checks[0], count, depth);
      if first.None? then None else ProjectAll(checks[1..], first.value, depth)
  }

  predicate Projects(document: CommandCheckDocument) {
    && ProjectAll(document.dependencies, 0, 0).Some?
    && (document.ready <==> document.command.runnable && AllReady(document.dependencies))
  }

  /** The running count that one projection of a document shares. */
  class ProjectionBudget {
    var count: nat

    constructor ()
      ensures count == 0
    {
      count := 0;
    }

    method Dependency(check: DependencyCheck, depth: nat) returns (accepted: bool)
      modifies this
      ensures accepted <==> ProjectDependency(check, old(count), depth).Some?
      ensures accepted ==> count == ProjectDependency(check, old(count), depth).value
      decreases check, 0
    {
      if depth > 32 { return false; }
      count := count + 1;
      if count > 512 { return false; }
      accepted := Dependencies(check.dependencies, depth + 1);
      if accepted {
        accepted := check.ready == (check.status == "ready" && AllReady(check.dependencies));
      }
    }

    method Dependencies(checks: seq<DependencyCheck>, depth: nat) returns (accepted: bool)
      modifies this
      ensures accepted <==> ProjectAll(checks, old(count), depth).Some?
      ensures accepted ==> count == ProjectAll(checks, old(count), depth).value
      decreases checks, |checks|
    {
      hide ProjectDependency;
      assert checks[0..] == checks;
      for i := 0 to |checks|
        invariant ProjectAll(checks[i..], count, depth) == ProjectAll(checks, old(count), depth)
      {
        assert checks[i..][0] == checks[i] && checks[i..][1..] == checks[i + 1..];
        accepted := Dependency(checks[i], depth);
        if !accepted { return; }
      }
      accepted := true;
    }
  }

  method CreateProjection(document: CommandCheckDocument) returns (accepted: bool)
    ensures accepted <==> Projects(document)
  {
    var budget := new ProjectionBudget();
    accepted := budget.Dependencies(document.dependencies, 0);
    if accepted {
      accepted := document.ready == (document.command.runnable && AllReady(document.dependencies));
    }
  }

  /** At every node, `ready` agrees with the status and with the nodes below. */
  predicate Consistent(check: DependencyCheck)
    decreases check, 0
  {
    && (check.ready <==> check.status == "ready" && AllReady(check.dependencies))
    && (!check.ready ==> check.message.Some? || !AllReady(check.dependencies))
    && ConsistentAll(check.dependencies)
  }

  predicate ConsistentAll(checks: seq<DependencyCheck>)
    decreases checks, |checks|
  {
    checks == [] || (Consistent(checks[0]) && ConsistentAll(checks[1..]))
  }

  lemma VerdictIsConsistent(w: World, r: CommandRequirement, provider: CommandNode, checks: seq<DependencyCheck>)
    requires ConsistentAll(checks)
    ensures Consistent(Verdict(w, r, provider, checks))
  {
    hide CheckerOf;
    var check := Verdict(w, r, provider, checks);
    assert check.dependencies == checks;
  }

  lemma {:induction false} UnfoldIsConsistent(w: World, r: CommandRequirement, active: set<string>)
    ensures Consistent(Unfold(w, r, active))
    decreases |Addresses(w.commands) - active|, 0, 0
  {
    hide Verdict;
    match Opened(w, r, active)
    case Closed(check) =>
    case Open(provider) =>
      ActiveGrows(w, r, active);
      UnfoldAllIsConsistent(w, provider.requirements, active + {r.provider});
      VerdictIsConsistent(w, r, provider, UnfoldAll(w, provider.requirements, active + {r.provider}));
  }

  lemma {:induction false} UnfoldAllIsConsistent(w: World, rs: seq<CommandRequirement>, active: set<string>)
    ensures ConsistentAll(UnfoldAll(w, rs, active))
    decreases |Addresses(w.commands) - active|, 1, |rs|
  {
    hide Unfold;
    if rs != [] {
      UnfoldIsConsistent(w, rs[0], active);
      UnfoldAllIsConsistent(w, rs[1..], active);
      assert UnfoldAll(w, rs, active)[1..] == UnfoldAll(w, rs[1..], active);
    }
  }

  lemma {:induction false} ProjectionAcceptsNode(check: DependencyCheck, count: nat, depth: nat)
    requires Consistent(check)
    ensures ProjectDependency(check, count, depth)
            == if Fits([check], depth, count) then Some(count + Size(check)) else None
    decreases check, 0
  {
    var checks := check.dependencies;
    assert SizeAll([check]) == Size(check) && HeightAll([check]) == Height(check);
    if depth <= 32 && count < 512 {
      ProjectionAcceptsAll(checks, count + 1, depth + 1);
    }
  }

  lemma {:induction false} ProjectionAcceptsAll(checks: seq<DependencyCheck>, count: nat, depth: nat)
    requires ConsistentAll(checks) && count <= 512
    ensures ProjectAll(checks, count, depth)
            == if Fits(checks, depth, count) then Some(count + SizeAll(checks)) else None
    decreases checks, |checks|
  {
    if checks != [] {
      ProjectionAcceptsNode(checks[0], count, depth);
      FitsCons(checks[0], checks[1..], depth, count);
      assert checks == [checks[0]] + checks[1..];
      if Fits([checks[0]], depth, count) {
        assert SizeAll([checks[0]]) == Size(checks[0]);
        ProjectionAcceptsAll(checks[1..], count + Size(checks[0]), depth);
      }
    }
  }

  /** Every document the checker produces passes the browser's depth, count and readiness checks. */
  lemma BrowserAcceptsInspections(w: World, address: string)
    requires Inspect(w, address).Ok?
    ensures Projects(Inspect(w, address).value)
  {
    hide EvaluateDependencies, Fits, Unfolding, ProjectAll, ConsistentAll;
    var target := ResolveTarget(w.commands, address).value;
    DependenciesAreTheUnfolding(w, target);
    UnfoldingIsConsistent(w, target);
    ProjectionAcceptsAll(Unfolding(w, target), 0, 0);
  }

  lemma UnfoldingIsConsistent(w: World, target: CommandNode)
    ensures ConsistentAll(Unfolding(w, target))
  {
    UnfoldAllIsConsistent(w, target.requirements, {target.address});
  }

  // ---------------------------------------------------------------- failure summaries

  /** The node that a failure summary ends at: down first unready dependencies to one with a message. */
  function FailureLeaf(check: DependencyCheck): Option<DependencyCheck>
    decreases check
  {
    if check.message.Some? then Some(check)
    else
      var unready := FirstUnready(check.dependencies);
      if unready.Some? then FailureLeaf(unready.value) else None
  }

  /** The concrete failure a node reports. */
  function Report(check: DependencyCheck): string
    requires check.message.Some?
  {
    check.provider + "#" + check.exported + " [" + check.status + "]: " + check.message.value
  }

  lemma {:induction false} ConsistentMember(checks: seq<DependencyCheck>, check: DependencyCheck)
    requires ConsistentAll(checks) && check in checks
    ensures Consistent(check)
  {
    if checks[0] != check { ConsistentMember(checks[1..], check); }
  }

  lemma Framed(prefix: string, before: string, report: string, after: string, suffix: string)
    ensures prefix + (before + report + after) + suffix == (prefix + before) + report + (after + suffix)
  {
  }

  /** The summary of an unready dependency always contains the concrete message it was followed to. */
  lemma {:induction false} SummaryReachesAMessage(check: DependencyCheck, entryName: string)
    returns (leaf: DependencyCheck, before: string, after: string)
    requires Consistent(check) && !check.ready
    ensures FailureLeaf(check) == Some(leaf) && leaf.message.Some? && !leaf.ready
    ensures FailureSummary(check, entryName) == before + Report(leaf) + after
    decreases check
  {
    hide CheckHint, FirstUnready;
    var name := check.provider + "#" + check.exported;
    var suffix := CheckHint(check.checker, entryName);
    if check.message.Some? {
      leaf, before, after := check, "", suffix;
    } else {
      var child := FirstUnready(check.dependencies).value;
      ConsistentMember(check.dependencies, child);
      leaf, before, after := SummaryReachesAMessage(child, entryName);
      Framed(name + " depends on ", before, Report(leaf), after, suffix);
      before, after := name + " depends on " + before, after + suffix;
    }
  }
}
