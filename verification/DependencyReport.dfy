/**
 What the single fields of a dependency check say about the Catalog.

 The statements here speak of the unfolding, which is what every check that returns consists of,
 and of the Catalog as a list; none of them uses the functions the walk is made of.
 */
module DependencyReport {
  import opened CommandIdentity
  import opened CommandModel
  import opened DependencyCheck
  import opened DependencyGraph
  import opened Wrappers

  // ---------------------------------------------------------------- whom a check names

  /** `p` is the command the Catalog offers under `address`: the first one there that is no alias. */
  ghost predicate IsProvider(commands: seq<CommandNode>, address: string, p: CommandNode) {
    exists k :: && 0 <= k < |commands| && commands[k] == p && p.address == address && p.aliasOf == None
                && forall i :: 0 <= i < k ==> commands[i].address != address || commands[i].aliasOf != None
  }

  /** No command of that address, unless an alias. */
  ghost predicate IsMissing(commands: seq<CommandNode>, address: string) {
    forall c :: c in commands && c.address == address ==> c.aliasOf != None
  }

  ghost predicate Offers(p: CommandNode, exported: string) {
    exists provision :: provision in p.provisions && provision.id == exported
  }

  lemma ProviderFound(commands: seq<CommandNode>, address: string)
    ensures match Provider(commands, address)
            case None => IsMissing(commands, address)
            case Some(p) => IsProvider(commands, address, p)
  {
    hide Provider;
    var k := ProviderIsFirst(commands, address);
    if k < |commands| {
      assert Provider(commands, address) == Some(commands[k]);
    }
  }

  lemma ProviderIsUnique(commands: seq<CommandNode>, address: string, p: CommandNode)
    requires IsProvider(commands, address, p)
    ensures Provider(commands, address) == Some(p)
  {
    hide Provider;
    var k := ProviderIsFirst(commands, address);
    var j :| && 0 <= j < |commands| && commands[j] == p && p.address == address && p.aliasOf == None
             && forall i :: 0 <= i < j ==> commands[i].address != address || commands[i].aliasOf != None;
    assert Provides(commands[j], address);
    assert k <= j;
  }

  /**
   The check names its requirement and, if it lists any, has one dependency for every requirement of
   the command the Catalog offers as provider, in their order, each of which does the same.
   */
  ghost predicate Names(w: World, r: CommandRequirement, check: DependencyCheck)
    decreases check
  {
    && check.provider == r.provider && check.exported == r.exported
    && (check.dependencies == []
        || exists p :: && IsProvider(w.commands, r.provider, p) && |check.dependencies| == |p.requirements|
                       && forall i :: 0 <= i < |p.requirements| ==> Names(w, p.requirements[i], check.dependencies[i]))
  }

  lemma {:induction false} UnfoldNames(w: World, r: CommandRequirement, active: set<string>)
    ensures Names(w, r, Unfold(w, r, active))
    decreases |DependencyGraph.Addresses(w.commands) - active|
  {
    hide IsProvider, CheckerOf, InspectPublication;
    match Opened(w, r, active)
    case Closed(check) =>
    case Open(p) =>
      ActiveGrows(w, r, active);
      var inner := active + {r.provider};
      OpenedProvider(w, r, active);
      forall i | 0 <= i < |p.requirements| ensures Names(w, p.requirements[i], Unfold(w, p.requirements[i], inner)) {
        UnfoldNames(w, p.requirements[i], inner);
      }
      assert Unfold(w, r, active).dependencies == UnfoldAll(w, p.requirements, inner);
  }

  lemma OpenedProvider(w: World, r: CommandRequirement, active: set<string>)
    requires Opened(w, r, active).Open?
    ensures IsProvider(w.commands, r.provider, Opened(w, r, active).provider)
  {
    ProviderFound(w.commands, r.provider);
  }

  // ---------------------------------------------------------------- what a status says

  const REFUSALS: set<string> := {"cycle", "provider-missing", "export-not-declared"}

  /** The three refusals: nothing below the provider is looked at and no checker is named. */
  lemma RefusalExactlyWhen(w: World, r: CommandRequirement, active: set<string>)
    ensures var check := Unfold(w, r, active);
            && (check.status == "cycle" <==> r.provider in active)
            && (check.status == "provider-missing" <==> r.provider !in active && IsMissing(w.commands, r.provider))
            && (check.status == "export-not-declared" <==>
                  && r.provider !in active
                  && exists p :: IsProvider(w.commands, r.provider, p) && !Offers(p, r.exported))
            && (check.status in REFUSALS ==> !check.ready && check.checker == None && check.dependencies == [])
            && (check.status == "cycle" ==> check.message == Some("module dependency cycle detected"))
            && (check.status == "provider-missing" ==> check.message == Some("provider command is absent from the Catalog"))
            && (check.status == "export-not-declared" ==>
                  check.message == Some("provider does not declare the required export"))
  {
    hide CheckerOf, IsProvider;
    ProviderFound(w.commands, r.provider);
    forall p | IsProvider(w.commands, r.provider, p) ensures Provider(w.commands, r.provider) == Some(p) {
      ProviderIsUnique(w.commands, r.provider, p);
    }
    MissingHasNoProvider(w.commands, r.provider);
    if Opened(w, r, active).Open? { VerdictIsNoRefusal(w, r, active); }
  }

  lemma MissingHasNoProvider(commands: seq<CommandNode>, address: string)
    ensures IsMissing(commands, address) ==> Provider(commands, address) == None
  {
  }

  lemma VerdictIsNoRefusal(w: World, r: CommandRequirement, active: set<string>)
    requires Opened(w, r, active).Open?
    ensures Unfold(w, r, active).status !in REFUSALS
  {
    hide CheckerOf;
  }

  // ---------------------------------------------------------------- an opened provider

  /** Nothing stood in the way of reading the provider's directory. */
  ghost predicate Readable(facts: PublicationFacts) {
    facts.dataRoot.Ok? && facts.directoryChain.Ok? && facts.exportReady.Ok? && facts.stateStatus.Ok?
  }

  ghost predicate Published(facts: PublicationFacts) {
    Readable(facts) && facts.exportReady.value && facts.stateStatus.value == Some("ready")
  }

  /** The dependencies are the checks of the provider's own requirements, with the provider active as well. */
  lemma OpenedDependencies(w: World, r: CommandRequirement, active: set<string>, p: CommandNode)
    requires r.provider !in active && IsProvider(w.commands, r.provider, p) && Offers(p, r.exported)
    ensures Opened(w, r, active) == Open(p)
    ensures var check := Unfold(w, r, active);
            && |check.dependencies| == |p.requirements|
            && forall i :: 0 <= i < |p.requirements| ==>
                 check.dependencies[i] == Unfold(w, p.requirements[i], active + {r.provider})
  {
    hide CheckerOf, InspectPublication;
    ProviderIsUnique(w.commands, r.provider, p);
    assert Opened(w, r, active) == Open(p);
  }

  /** Each status of an opened provider, with the states of the Catalog and of the directory it stands for. */
  lemma StatusExactlyWhen(w: World, r: CommandRequirement, active: set<string>, p: CommandNode)
    requires r.provider !in active && IsProvider(w.commands, r.provider, p) && Offers(p, r.exported)
    ensures var (check, facts) := (Unfold(w, r, active), w.facts(p));
            && (check.status == "provider-not-runnable" <==> !p.runnable)
            && (check.status == "data-root-unavailable" <==> p.runnable && facts.dataRoot.Err?)
            && (check.status == "provider-path-invalid" <==>
                  p.runnable && facts.dataRoot.Ok? && facts.directoryChain.Err?)
            && (check.status == "export-invalid" <==>
                  p.runnable && facts.dataRoot.Ok? && facts.directoryChain.Ok? && facts.exportReady.Err?)
            && (check.status == "state-invalid" <==>
                  && p.runnable && facts.dataRoot.Ok? && facts.directoryChain.Ok? && facts.exportReady.Ok?
                  && facts.stateStatus.Err?)
            && (check.status == "state-missing" <==> p.runnable && Readable(facts) && facts.stateStatus.value == None)
            && (check.status == "not-ready" <==>
                  p.runnable && Readable(facts) && facts.stateStatus.value.Some? && !Published(facts))
            && (check.status == "dependency-not-ready" <==>
                  p.runnable && Published(facts) && exists d :: d in check.dependencies && !d.ready)
            && (check.status == "ready" <==>
                  p.runnable && Published(facts) && forall d :: d in check.dependencies ==> d.ready)
            && (check.ready <==> check.status == "ready")
  {
    hide CheckerOf;
    OpenedDependencies(w, r, active, p);
  }

  /** The message of an opened provider's check: what failed, in its own words, or what to run. */
  lemma MessageOf(w: World, r: CommandRequirement, active: set<string>, p: CommandNode)
    requires r.provider !in active && IsProvider(w.commands, r.provider, p) && Offers(p, r.exported)
    ensures var (message, facts) := (Unfold(w, r, active).message, w.facts(p));
            var hint := "run '" + w.entryName + " " + r.provider + "'";
            && (!p.runnable ==>
                  message == if p.diagnostic.Some? then p.diagnostic else Some("provider command is not runnable"))
            && (p.runnable && facts.dataRoot.Err? ==> message == Some(facts.dataRoot.error))
            && (p.runnable && facts.dataRoot.Ok? && facts.directoryChain.Err? ==> message == Some(facts.directoryChain.error))
            && (p.runnable && facts.dataRoot.Ok? && facts.directoryChain.Ok? && facts.exportReady.Err? ==>
                  message == Some(facts.exportReady.error))
            && (p.runnable && facts.dataRoot.Ok? && facts.directoryChain.Ok? && facts.exportReady.Ok? && facts.stateStatus.Err? ==>
                  message == Some(facts.stateStatus.error))
            && (p.runnable && Readable(facts) && facts.stateStatus.value == None ==> message == Some(hint))
            && (p.runnable && Readable(facts) && facts.stateStatus.value.Some? && facts.stateStatus.value != Some("ready") ==>
                  message == Some("provider state is " + facts.stateStatus.value.value + "; " + hint))
            && (p.runnable && Readable(facts) && facts.stateStatus.value == Some("ready") && !facts.exportReady.value ==>
                  message == Some("provider export directory is missing or unsafe"))
            && (p.runnable && Published(facts) ==> message == None)
  {
    hide CheckerOf;
    OpenedDependencies(w, r, active, p);
    ProviderIsUnique(w.commands, r.provider, p);
    assert p.address == r.provider;
    if p.runnable && Readable(w.facts(p)) && w.facts(p).stateStatus.value.Some? && w.facts(p).stateStatus.value != Some("ready") {
      StateMessage(w.facts(p), w.entryName, p);
    }
  }

  lemma StateMessage(facts: PublicationFacts, entryName: string, p: CommandNode)
    requires Readable(facts) && facts.stateStatus.value.Some? && facts.stateStatus.value != Some("ready")
    ensures InspectPublication(facts, entryName, p).message
            == Some("provider state is " + facts.stateStatus.value.value + "; " + ("run '" + entryName + " " + p.address + "'"))
  {
    var start := "provider state is " + facts.stateStatus.value.value;
    assert start + "; run '" + entryName + " " + p.address + "'"
        == start + "; " + ("run '" + entryName + " " + p.address + "'");
  }

  // ---------------------------------------------------------------- the checker a check names

  /** `c` can check exports of `p`: its child `check` in the same space and namespace, runnable and no alias. */
  ghost predicate CanCheck(c: CommandNode, p: CommandNode) {
    && c.runnable && c.aliasOf == None && c.space == p.space && c.namespace == p.namespace
    && c.address == p.address + "/check"
  }

  /** Position `k` is the only one at which `f` holds. */
  ghost predicate OnlyAt(commands: seq<CommandNode>, f: CommandNode -> bool, k: int) {
    0 <= k < |commands| && f(commands[k]) && forall i :: 0 <= i < |commands| && f(commands[i]) ==> i == k
  }

  lemma {:induction false} NothingMatches(commands: seq<CommandNode>, f: CommandNode -> bool)
    ensures Matching(commands, f) == [] <==> forall i :: 0 <= i < |commands| ==> !f(commands[i])
  {
    if commands != [] {
      NothingMatches(commands[1..], f);
      assert forall i :: 0 < i < |commands| ==> commands[i] == commands[1..][i - 1];
      assert forall i :: 0 <= i < |commands[1..]| ==> commands[1..][i] == commands[i + 1];
    }
  }

  /** A position that is the only one, seen without the first command. */
  lemma OnlyLater(commands: seq<CommandNode>, f: CommandNode -> bool)
    requires commands != [] && !f(commands[0])
    ensures (exists k :: OnlyAt(commands, f, k)) <==> exists k :: OnlyAt(commands[1..], f, k)
  {
    if k :| OnlyAt(commands[1..], f, k) {
      assert OnlyAt(commands, f, k + 1);
    }
    if k :| OnlyAt(commands, f, k) {
      assert OnlyAt(commands[1..], f, k - 1);
    }
  }

  lemma {:induction false} OneMatches(commands: seq<CommandNode>, f: CommandNode -> bool)
    ensures |Matching(commands, f)| == 1 <==> exists k :: OnlyAt(commands, f, k)
  {
    if commands != [] {
      OneMatches(commands[1..], f);
      NothingMatches(commands[1..], f);
      if f(commands[0]) {
        OnlyFirst(commands, f);
      } else {
        OnlyLater(commands, f);
      }
    }
  }

  lemma OnlyFirst(commands: seq<CommandNode>, f: CommandNode -> bool)
    requires commands != [] && f(commands[0])
    ensures (exists k :: OnlyAt(commands, f, k)) <==> forall i :: 0 <= i < |commands[1..]| ==> !f(commands[1..][i])
  {
    if forall i :: 0 <= i < |commands[1..]| ==> !f(commands[1..][i]) {
      assert forall i :: 0 < i < |commands| ==> commands[i] == commands[1..][i - 1];
      assert OnlyAt(commands, f, 0);
    }
    if k :| OnlyAt(commands, f, k) {
      assert forall i :: 0 <= i < |commands[1..]| ==> commands[1..][i] == commands[i + 1];
    }
  }

  /** A check of an opened provider names a checker exactly when the Catalog has one and only one, asked for the export. */
  lemma CheckerIsTheOnlyOne(w: World, r: CommandRequirement, active: set<string>, p: CommandNode)
    requires r.provider !in active && IsProvider(w.commands, r.provider, p) && Offers(p, r.exported)
    ensures var checker := Unfold(w, r, active).checker;
            && (checker.Some? <==>
                  exists k :: && 0 <= k < |w.commands| && CanCheck(w.commands[k], p)
                              && forall i :: 0 <= i < |w.commands| && CanCheck(w.commands[i], p) ==> i == k)
            && (checker.Some? ==> && checker.value.address == r.provider + "/check" && checker.value.space == p.space
                                  && checker.value.namespace == p.namespace && checker.value.arguments == [r.exported])
  {
    OpenedDependencies(w, r, active, p);
    CheckerFound(w.commands, p, r.exported);
    assert Unfold(w, r, active).checker == CheckerOf(w.commands, p, r.exported) by { hide CheckerOf, InspectPublication; }
  }

  lemma CheckerFound(commands: seq<CommandNode>, p: CommandNode, exported: string)
    ensures var checker := CheckerOf(commands, p, exported);
            && (checker.Some? <==>
                  exists k :: && 0 <= k < |commands| && CanCheck(commands[k], p)
                              && forall i :: 0 <= i < |commands| && CanCheck(commands[i], p) ==> i == k)
            && (checker.Some? ==> && checker.value.address == p.address + "/check" && checker.value.space == p.space
                                  && checker.value.namespace == p.namespace && checker.value.arguments == [exported])
  {
    hide OnlyAt, CanCheck;
    var f := (c: CommandNode) => ChecksFor(c, p);
    OneMatches(commands, f);
    forall k ensures OnlyAt(commands, f, k) <==>
                     && 0 <= k < |commands| && CanCheck(commands[k], p)
                     && forall i :: 0 <= i < |commands| && CanCheck(commands[i], p) ==> i == k
    {
      OnlyCheck(commands, f, p, k);
    }
    MatchingMembers(commands, f);
    var matches := Matching(commands, f);
    if |matches| == 1 { assert matches[0] in matches && f(matches[0]); }
  }

  lemma OnlyCheck(commands: seq<CommandNode>, f: CommandNode -> bool, p: CommandNode, k: int)
    requires forall c :: f(c) == ChecksFor(c, p)
    ensures OnlyAt(commands, f, k) <==>
            && 0 <= k < |commands| && CanCheck(commands[k], p)
            && forall i :: 0 <= i < |commands| && CanCheck(commands[i], p) ==> i == k
  {
    assert forall i :: 0 <= i < |commands| ==> (f(commands[i]) <==> CanCheck(commands[i], p));
  }

  // ---------------------------------------------------------------- where a walk stops

  /** A check's name and its depth. */
  datatype Node = Node(named: CommandRequirement, depth: nat)

  /** The checks of a document in the order in which it lists them, each before those below it. */
  ghost function NodesOf(checks: seq<DependencyCheck>, depth: nat): seq<Node>
    decreases checks, |checks|
  {
    if checks == [] then []
    else
      [Node(CommandRequirement(checks[0].provider, checks[0].exported), depth)]
      + (NodesOf(checks[0].dependencies, depth + 1) + NodesOf(checks[1..], depth))
  }

  ghost predicate Over(node: Node, items: nat) {
    node.depth > 32 || items >= 512
  }

  /** What the first node beyond a budget is refused for, if there is one. */
  ghost function FirstOver(nodes: seq<Node>, items: nat): Option<CheckError> {
    if nodes == [] then None
    else if Over(nodes[0], items) then
      Some(if nodes[0].depth > 32 then DepthExceeded(nodes[0].named) else ItemsExceeded(nodes[0].named))
    else FirstOver(nodes[1..], items + 1)
  }

  lemma {:induction false} FirstOverConcat(a: seq<Node>, b: seq<Node>, items: nat)
    ensures FirstOver(a + b, items) == if FirstOver(a, items).Some? then FirstOver(a, items) else FirstOver(b, items + |a|)
  {
    hide Over;
    if a == [] {
      assert a + b == b;
    } else {
      assert (a + b)[1..] == a[1..] + b;
      FirstOverConcat(a[1..], b, items + 1);
    }
  }

  lemma {:induction false} NodesCount(checks: seq<DependencyCheck>, depth: nat)
    ensures |NodesOf(checks, depth)| == SizeAll(checks)
    decreases checks, |checks|
  {
    if checks != [] {
      NodesCount(checks[0].dependencies, depth + 1);
      NodesCount(checks[1..], depth);
    }
  }

  lemma NodesOfOne(check: DependencyCheck, depth: nat)
    ensures NodesOf([check], depth)
            == [Node(CommandRequirement(check.provider, check.exported), depth)] + NodesOf(check.dependencies, depth + 1)
    ensures |NodesOf([check], depth)| == Size(check)
  {
    NodesCount([check], depth);
    assert [check][1..] == [] && SizeAll([check]) == Size(check);
    assert NodesOf(check.dependencies, depth + 1) + [] == NodesOf(check.dependencies, depth + 1);
  }

  lemma NodesCons(first: DependencyCheck, rest: seq<DependencyCheck>, depth: nat)
    ensures NodesOf([first] + rest, depth) == NodesOf([first], depth) + NodesOf(rest, depth)
  {
    NodesOfOne(first, depth);
    assert ([first] + rest)[1..] == rest;
  }

  ghost function ErrorOf<T>(result: Result<T, CheckError>): Option<CheckError> {
    if result.Err? then Some(result.error) else None
  }

  lemma {:induction false} EvaluateStops(w: World, r: CommandRequirement, depth: nat, active: set<string>, items: nat)
    requires items <= MAX_DEPENDENCY_ITEMS
    ensures ErrorOf(Evaluate(w, r, depth, active, items).result) == FirstOver(NodesOf([Unfold(w, r, active)], depth), items)
    decreases MAX_DEPENDENCY_DEPTH + 1 - depth, 0, 0
  {
    hide Verdict, NodesOf, FirstOver, EvaluateAll, UnfoldAll, Size;
    var check := Unfold(w, r, active);
    var node := Node(CommandRequirement(check.provider, check.exported), depth);
    UnfoldNames(w, r, active);
    NodesOfOne(check, depth);
    FirstOverConcat([node], NodesOf(check.dependencies, depth + 1), items);
    FirstNode(node, items);
    assert node.named == r;
    if depth <= MAX_DEPENDENCY_DEPTH && items < MAX_DEPENDENCY_ITEMS {
      match Opened(w, r, active)
      case Closed(_) =>
        ClosedIsLeaf(w, r, active);
        NoNodes(depth + 1, items + 1);
      case Open(provider) =>
        VerdictDependencies(w, r, provider, UnfoldAll(w, provider.requirements, active + {r.provider}));
        EvaluateAllStops(w, provider.requirements, depth + 1, active + {r.provider}, items + 1);
    }
  }

  lemma VerdictDependencies(w: World, r: CommandRequirement, provider: CommandNode, checks: seq<DependencyCheck>)
    ensures Verdict(w, r, provider, checks).dependencies == checks
  {
    hide CheckerOf, InspectPublication;
  }

  lemma FirstNode(node: Node, items: nat)
    ensures FirstOver([node], items)
            == if node.depth > 32 then Some(DepthExceeded(node.named))
               else if items >= 512 then Some(ItemsExceeded(node.named)) else None
  {
    assert [node][1..] == [];
  }

  lemma NoNodes(depth: nat, items: nat)
    ensures NodesOf([], depth) == [] && FirstOver([], items) == None
  {
  }

  lemma {:induction false} EvaluateAllStops(w: World, rs: seq<CommandRequirement>, depth: nat, active: set<string>, items: nat)
    requires items <= MAX_DEPENDENCY_ITEMS
    ensures ErrorOf(EvaluateAll(w, rs, depth, active, items).result) == FirstOver(NodesOf(UnfoldAll(w, rs, active), depth), items)
    decreases MAX_DEPENDENCY_DEPTH + 1 - depth, 1, |rs|
  {
    hide Evaluate, Unfold, NodesOf, FirstOver, Fits, Size;
    if rs == [] {
      NoNodes(depth, items);
    } else {
      var first, rest := Unfold(w, rs[0], active), UnfoldAll(w, rs[1..], active);
      EvaluateStops(w, rs[0], depth, active, items);
      EvaluateRefines(w, rs[0], depth, active, items);
      NodesCons(first, rest, depth);
      NodesOfOne(first, depth);
      FirstOverConcat(NodesOf([first], depth), NodesOf(rest, depth), items);
      if Evaluate(w, rs[0], depth, active, items).result.Ok? {
        FitsWithin([first], depth, items);
        assert SizeAll([first]) == Size(first) by { FitsCons(first, [], 0, 0); assert [first] + [] == [first]; }
        EvaluateAllStops(w, rs[1..], depth, active, items + Size(first));
      }
    }
  }

  /** A walk that stops names the first check of the unfolding, in document order, that is beyond a budget. */
  lemma WalkStopsAtFirstOver(w: World, target: CommandNode, k: nat)
    requires var nodes := NodesOf(Unfolding(w, target), 0);
             k < |nodes| && Over(nodes[k], k) && forall i :: 0 <= i < k ==> !Over(nodes[i], i)
    ensures var node := NodesOf(Unfolding(w, target), 0)[k];
            EvaluateDependencies(w, target)
            == Err(if node.depth > 32 then DepthExceeded(node.named) else ItemsExceeded(node.named))
  {
    hide EvaluateAll, UnfoldAll, NodesOf, FirstOver, Over;
    EvaluateAllStops(w, target.requirements, 0, {target.address}, 0);
    FirstOverAt(NodesOf(Unfolding(w, target), 0), 0, k);
  }

  lemma {:induction false} FirstOverAt(nodes: seq<Node>, items: nat, k: nat)
    requires k < |nodes| && Over(nodes[k], items + k) && forall i :: 0 <= i < k ==> !Over(nodes[i], items + i)
    ensures FirstOver(nodes, items)
            == Some(if nodes[k].depth > 32 then DepthExceeded(nodes[k].named) else ItemsExceeded(nodes[k].named))
    decreases k
  {
    hide Over;
    if k > 0 {
      var rest := nodes[1..];
      assert !Over(nodes[0], items + 0);
      assert rest[k - 1] == nodes[k] && items + 1 + (k - 1) == items + k;
      forall i | 0 <= i < k - 1 ensures !Over(rest[i], items + 1 + i) {
        assert rest[i] == nodes[i + 1] && items + 1 + i == items + (i + 1);
      }
      FirstOverAt(rest, items + 1, k - 1);
    }
  }

  // ---------------------------------------------------------------- what the gate reports

  /** What is inspected: the target's own fields, or the reason why there is no document; the gate fails for the same reason. */
  lemma DocumentOf(w: World, address: string)
    ensures var (resolved, inspected) := (ResolveTarget(w.commands, address), Inspect(w, address));
            && (resolved.Err? ==> inspected == Err(resolved.error))
            && (resolved.Ok? && EvaluateDependencies(w, resolved.value).Err? ==>
                  inspected == Err(EvaluateDependencies(w, resolved.value).error))
            && (inspected.Ok? ==>
                  var (c, target) := (inspected.value.command, resolved.value);
                  && c.address == target.address && c.space == target.space && c.namespace == target.namespace
                  && c.runnable == target.runnable && c.adapter == target.adapter && c.diagnostic == target.diagnostic)
            && (inspected.Err? ==> AssertDependenciesReady(w, address) == Err(inspected.error))
  {
    hide ResolveTarget, EvaluateAll, Summaries;
  }

  /** The positions of the unready checks. */
  ghost function UnreadyAt(checks: seq<DependencyCheck>, from: nat): seq<nat>
    requires from <= |checks|
    decreases |checks| - from
  {
    if from == |checks| then []
    else if checks[from].ready then UnreadyAt(checks, from + 1)
    else [from] + UnreadyAt(checks, from + 1)
  }

  /** Ascending positions of unready checks from `from` on. */
  ghost predicate Positions(checks: seq<DependencyCheck>, from: nat, at: seq<nat>) {
    && (forall n :: 0 <= n < |at| ==> from <= at[n] < |checks| && !checks[at[n]].ready)
    && (forall n, m :: 0 <= n < m < |at| ==> at[n] < at[m])
  }

  lemma PositionsCons(checks: seq<DependencyCheck>, from: nat, at: seq<nat>)
    requires from < |checks| && Positions(checks, from + 1, at)
    ensures Positions(checks, from, at)
    ensures !checks[from].ready ==> Positions(checks, from, [from] + at)
  {
  }

  lemma {:induction false} UnreadyPositions(checks: seq<DependencyCheck>, from: nat)
    requires from <= |checks|
    ensures Positions(checks, from, UnreadyAt(checks, from))
    decreases |checks| - from
  {
    if from < |checks| {
      hide Positions;
      UnreadyPositions(checks, from + 1);
      PositionsCons(checks, from, UnreadyAt(checks, from + 1));
    }
  }

  lemma {:induction false} UnreadyIsAt(checks: seq<DependencyCheck>, from: nat, i: nat)
    requires from <= i < |checks| && !checks[i].ready
    ensures i in UnreadyAt(checks, from)
    decreases i - from
  {
    if from < i { UnreadyIsAt(checks, from + 1, i); }
  }

  /** `texts` are the summaries of the checks at these positions. */
  ghost predicate Summarize(checks: seq<DependencyCheck>, entryName: string, at: seq<nat>, texts: seq<string>) {
    && |texts| == |at|
    && forall n :: 0 <= n < |at| ==> at[n] < |checks| && texts[n] == FailureSummary(checks[at[n]], entryName)
  }

  lemma SummarizeCons(checks: seq<DependencyCheck>, entryName: string, k: nat, at: seq<nat>, texts: seq<string>)
    requires Summarize(checks, entryName, at, texts) && k < |checks|
    ensures Summarize(checks, entryName, [k] + at, [FailureSummary(checks[k], entryName)] + texts)
  {
    hide FailureSummary;
  }

  /** The summaries are those of the unready checks, in order. */
  lemma {:induction false} SummariesAt(checks: seq<DependencyCheck>, entryName: string, from: nat)
    requires from <= |checks|
    ensures Summarize(checks, entryName, UnreadyAt(checks, from), Summaries(checks[from..], entryName))
    decreases |checks| - from
  {
    hide FailureSummary;
    if from < |checks| {
      hide Summarize;
      SummariesAt(checks, entryName, from + 1);
      assert checks[from..][1..] == checks[from + 1..] && checks[from..][0] == checks[from];
      SummarizeCons(checks, entryName, from, UnreadyAt(checks, from + 1), Summaries(checks[from + 1..], entryName));
      assert [] + Summaries(checks[from + 1..], entryName) == Summaries(checks[from + 1..], entryName);
    }
  }

  /** A gate that stays shut reports the target's address and one summary for each unready dependency, in order. */
  lemma GateReports(w: World, address: string) returns (at: seq<nat>)
    requires Inspect(w, address).Ok? && AssertDependenciesReady(w, address).Err?
    ensures var (checks, refusal) := (Inspect(w, address).value.dependencies, AssertDependenciesReady(w, address).error);
            && refusal.NotReady? && refusal.address == ResolveTarget(w.commands, address).value.address
            && |refusal.failures| == |at|
            && (forall n :: 0 <= n < |at| ==>
                  at[n] < |checks| && !checks[at[n]].ready && refusal.failures[n] == FailureSummary(checks[at[n]], w.entryName))
            && (forall n, m :: 0 <= n < m < |at| ==> at[n] < at[m])
            && (forall i :: 0 <= i < |checks| && !checks[i].ready ==> i in at)
  {
    hide ResolveTarget, EvaluateAll, Summaries, FailureSummary;
    var checks := Inspect(w, address).value.dependencies;
    at := UnreadyAt(checks, 0);
    UnreadyPositions(checks, 0);
    forall i | 0 <= i < |checks| && !checks[i].ready ensures i in at { UnreadyIsAt(checks, 0, i); }
    SummariesAt(checks, w.entryName, 0);
    assert checks[0..] == checks;
  }

  // ---------------------------------------------------------------- the text of a summary

  ghost function Spaced(arguments: seq<string>): string {
    if arguments == [] then "" else Spaced(arguments[..|arguments| - 1]) + " " + arguments[|arguments| - 1]
  }

  lemma {:induction false} SpacedConcat(a: seq<string>, b: seq<string>)
    ensures Spaced(a + b) == Spaced(a) + Spaced(b)
    decreases |b|
  {
    if b == [] {
      assert a + b == a;
    } else {
      var front, last := b[..|b| - 1], b[|b| - 1];
      SpacedConcat(a, front);
      assert (a + b)[..|a + b| - 1] == a + front && (a + b)[|a + b| - 1] == last;
      assert Spaced(a) + (Spaced(front) + " " + last) == (Spaced(a) + Spaced(front)) + " " + last;
    }
  }

  lemma {:induction false} WordsAreSpaced(arguments: seq<string>)
    ensures Words(arguments) == Spaced(arguments)
  {
    if arguments != [] {
      WordsAreSpaced(arguments[1..]);
      SpacedConcat([arguments[0]], arguments[1..]);
      assert [arguments[0]] + arguments[1..] == arguments && [arguments[0]][..0] == [];
    }
  }

  /** The invitation to run the checker of a check that names one. */
  ghost function Invitation(check: DependencyCheck, entryName: string): string {
    if check.checker == None then ""
    else "; check with '" + entryName + " " + check.checker.value.address + Spaced(check.checker.value.arguments) + "'"
  }

  /** From each check of the chain to the first unready one among its dependencies, down to one with a message. */
  ghost predicate IsChain(chain: seq<DependencyCheck>) {
    && chain != [] && chain[|chain| - 1].message.Some?
    && (forall i :: 0 <= i < |chain| - 1 ==> chain[i].message == None && LeadsOn(chain[i], chain[i + 1]))
  }

  ghost predicate LeadsOn(check: DependencyCheck, next: DependencyCheck) {
    exists k :: && 0 <= k < |check.dependencies| && check.dependencies[k] == next && !next.ready
                && forall i :: 0 <= i < k ==> check.dependencies[i].ready
  }

  ghost function Leading(chain: seq<DependencyCheck>): string
    requires chain != []
  {
    if |chain| == 1 then "" else chain[0].provider + "#" + chain[0].exported + " depends on " + Leading(chain[1..])
  }

  ghost function Trailing(chain: seq<DependencyCheck>, entryName: string): string {
    if chain == [] then "" else Trailing(chain[1..], entryName) + Invitation(chain[0], entryName)
  }

  lemma FirstUnreadyLeadsOn(check: DependencyCheck)
    requires FirstUnready(check.dependencies).Some?
    ensures LeadsOn(check, FirstUnready(check.dependencies).value)
  {
    hide FirstUnready;
    var k := FirstUnreadyIsFirst(check.dependencies);
  }

  lemma ChainCons(check: DependencyCheck, chain: seq<DependencyCheck>)
    requires IsChain(chain) && check.message == None && LeadsOn(check, chain[0])
    ensures IsChain([check] + chain)
  {
    hide LeadsOn;
    var longer := [check] + chain;
    assert forall i :: 0 < i < |longer| ==> longer[i] == chain[i - 1];
  }

  lemma ChainEnds(chain: seq<DependencyCheck>)
    requires IsChain(chain)
    ensures chain != [] && chain[|chain| - 1].message.Some?
  {
  }

  /**
   The summary of an unready check: the names along its chain, the last one's status and message, and
   the invitations to their checkers from the last back to the first.
   */
  lemma {:induction false} SummaryOfChain(check: DependencyCheck, entryName: string) returns (chain: seq<DependencyCheck>)
    requires Consistent(check) && !check.ready
    ensures IsChain(chain) && chain[0] == check
    ensures var last := chain[|chain| - 1];
            FailureSummary(check, entryName)
            == Leading(chain)
               + (last.provider + "#" + last.exported + " [" + last.status + "]: " + last.message.value)
               + Trailing(chain, entryName)
    decreases check
  {
    hide FirstUnready, LeadsOn, Invitation, CheckHint, IsChain;
    HintIsInvitation(check, entryName);
    if check.message.Some? {
      chain := [check];
      OneLink(check, entryName);
    } else {
      var child := FirstUnready(check.dependencies).value;
      ConsistentMember(check.dependencies, child);
      FirstUnreadyLeadsOn(check);
      var rest := SummaryOfChain(child, entryName);
      chain := [check] + rest;
      ChainCons(check, rest);
      ChainEnds(rest);
      var last := rest[|rest| - 1];
      assert chain[1..] == rest && chain[|chain| - 1] == last;
      var name := check.provider + "#" + check.exported + " depends on ";
      var report := last.provider + "#" + last.exported + " [" + last.status + "]: " + last.message.value;
      Framed(name, Leading(rest), report, Trailing(rest, entryName), Invitation(check, entryName));
    }
  }

  lemma HintIsInvitation(check: DependencyCheck, entryName: string)
    ensures CheckHint(check.checker, entryName) == Invitation(check, entryName)
  {
    if check.checker.Some? { WordsAreSpaced(check.checker.value.arguments); }
  }

  lemma OneLink(check: DependencyCheck, entryName: string)
    requires check.message.Some?
    ensures IsChain([check]) && Leading([check]) == "" && Trailing([check], entryName) == Invitation(check, entryName)
  {
    assert [check][1..] == [];
  }
}
