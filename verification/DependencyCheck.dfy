/**
 The dependency checker: a budgeted depth-first unfolding of the requirement graph.

 What the provider's own directory says is a parameter, one `PublicationFacts` per provider.
 */
module DependencyCheck {
  import opened CommandIdentity
  import opened CommandModel
  import opened Wrappers

  const MAX_DEPENDENCY_DEPTH: nat := 32
  const MAX_DEPENDENCY_ITEMS: nat := 512

  // ---------------------------------------------------------------- publication

  /** What inspecting a provider's directory finds: errors carry their message. */
  datatype PublicationFacts = PublicationFacts(
    dataRoot: Result<(), string>,
    directoryChain: Result<(), string>,
    exportReady: Result<bool, string>,
    stateStatus: Result<Option<string>, string>)

  datatype Publication = Publication(ready: bool, status: string, message: Option<string>)

  /** The message of the first check that failed. */
  function FirstError(facts: PublicationFacts): Option<string> {
    if facts.dataRoot.Err? then Some(facts.dataRoot.error)
    else if facts.directoryChain.Err? then Some(facts.directoryChain.error)
    else if facts.exportReady.Err? then Some(facts.exportReady.error)
    else if facts.stateStatus.Err? then Some(facts.stateStatus.error)
    else None
  }

  function InspectPublication(facts: PublicationFacts, entryName: string, provider: CommandNode): (p: Publication)
    ensures p.ready <==> && facts.dataRoot.Ok? && facts.directoryChain.Ok? && facts.exportReady == Ok(true)
                         && facts.stateStatus == Ok(Some("ready"))
    ensures p.ready <==> p.status == "ready"
    ensures p.ready <==> p.message == None
  {
    if facts.dataRoot.Err? then Publication(false, "data-root-unavailable", Some(facts.dataRoot.error))
    else if facts.directoryChain.Err? then Publication(false, "provider-path-invalid", Some(facts.directoryChain.error))
    else if facts.exportReady.Err? then Publication(false, "export-invalid", Some(facts.exportReady.error))
    else if facts.stateStatus.Err? then Publication(false, "state-invalid", Some(facts.stateStatus.error))
    else if facts.stateStatus.value == None then
      Publication(false, "state-missing", Some("run '" + entryName + " " + provider.address + "'"))
    else
      var status := facts.stateStatus.value.value;
      var ready := status == "ready" && facts.exportReady.value;
      var message :=
        if status != "ready" then
          Some("provider state is " + status + "; run '" + entryName + " " + provider.address + "'")
        else if !facts.exportReady.value then Some("provider export directory is missing or unsafe")
        else None;
      Publication(ready, if ready then "ready" else "not-ready", message)
  }

  /** The status names the first check that failed, and its error is the message. */
  lemma StatusNamesFailure(facts: PublicationFacts, entryName: string, provider: CommandNode)
    ensures var p := InspectPublication(facts, entryName, provider);
            && (p.status == "data-root-unavailable" <==> facts.dataRoot.Err?)
            && (p.status == "provider-path-invalid" <==> facts.dataRoot.Ok? && facts.directoryChain.Err?)
            && (p.status == "export-invalid" <==> facts.dataRoot.Ok? && facts.directoryChain.Ok? && facts.exportReady.Err?)
            && (p.status == "state-invalid" <==>
                facts.dataRoot.Ok? && facts.directoryChain.Ok? && facts.exportReady.Ok? && facts.stateStatus.Err?)
            && (p.status == "state-missing" <==>
                facts.dataRoot.Ok? && facts.directoryChain.Ok? && facts.exportReady.Ok? && facts.stateStatus == Ok(None))
            && (FirstError(facts).Some? ==> p.message == FirstError(facts))
  {
  }

  // ---------------------------------------------------------------- documents

  datatype DependencyChecker = DependencyChecker(
    address: string, space: CommandSpace, namespace: Option<string>, arguments: seq<string>)

  datatype DependencyCheck = DependencyCheck(
    provider: string,
    exported: string,
    ready: bool,
    status: string,
    message: Option<string>,
    checker: Option<DependencyChecker>,
    dependencies: seq<DependencyCheck>)

  datatype CheckedCommand = CheckedCommand(
    address: string, space: CommandSpace, namespace: Option<string>, runnable: bool,
    adapter: Option<CommandAdapter>, diagnostic: Option<string>)

  datatype CommandCheckDocument = CommandCheckDocument(
    command: CheckedCommand, dependencies: seq<DependencyCheck>, ready: bool)

  /** What ends a check without a document; `Unending` stands for a call that never returns. */
  datatype CheckError =
    | Unending
    | CommandNotFound(address: string)
    | AmbiguousCommand(address: string)
    | DepthExceeded(requirement: CommandRequirement)
    | ItemsExceeded(requirement: CommandRequirement)
    | NotReady(address: string, failures: seq<string>)

  /** The Catalog and everything else a check reads. */
  datatype World = World(
    commands: seq<CommandNode>, entryName: string, facts: CommandNode -> PublicationFacts)

  // ---------------------------------------------------------------- looking up

  function Provider(commands: seq<CommandNode>, address: string): (p: Option<CommandNode>)
    ensures p.Some? ==> p.value in commands && p.value.address == address && p.value.aliasOf == None
    ensures p.None? ==> forall c :: c in commands && c.address == address ==> c.aliasOf.Some?
  {
    if commands == [] then None
    else if commands[0].address == address && commands[0].aliasOf == None then Some(commands[0])
    else Provider(commands[1..], address)
  }

  predicate Provides(command: CommandNode, address: string) {
    command.address == address && command.aliasOf == None
  }

  /** The provider is the first command of the address that is no alias. */
  lemma {:induction false} ProviderIsFirst(commands: seq<CommandNode>, address: string) returns (k: nat)
    ensures k <= |commands| && forall i :: 0 <= i < k ==> !Provides(commands[i], address)
    ensures if k == |commands| then Provider(commands, address) == None
            else Provides(commands[k], address) && Provider(commands, address) == Some(commands[k])
  {
    if commands == [] || Provides(commands[0], address) {
      k := 0;
    } else {
      var later := ProviderIsFirst(commands[1..], address);
      k := later + 1;
      assert forall i :: 0 < i < k ==> commands[i] == commands[1..][i - 1];
    }
  }

  predicate Declares(provider: CommandNode, exported: string) {
    exists p :: p in provider.provisions && p.id == exported
  }

  predicate ChecksFor(command: CommandNode, provider: CommandNode) {
    && command.address == provider.address + "/check" && command.space == provider.space
    && command.namespace == provider.namespace && command.aliasOf == None && command.runnable
  }

  function Matching(commands: seq<CommandNode>, p: CommandNode -> bool): seq<CommandNode> {
    if commands == [] then []
    else (if p(commands[0]) then [commands[0]] else []) + Matching(commands[1..], p)
  }

  function CheckerOf(commands: seq<CommandNode>, provider: CommandNode, exported: string): Option<DependencyChecker> {
    var matches := Matching(commands, c => ChecksFor(c, provider));
    if |matches| != 1 then None
    else Some(DependencyChecker(matches[0].address, matches[0].space, matches[0].namespace, [exported]))
  }

  // ---------------------------------------------------------------- one dependency's verdict

  function Failure(r: CommandRequirement, status: string, message: string): DependencyCheck {
    DependencyCheck(r.provider, r.exported, false, status, Some(message), None, [])
  }

  predicate AllReady(checks: seq<DependencyCheck>) {
    forall c :: c in checks ==> c.ready
  }

  function Verdict(w: World, r: CommandRequirement, provider: CommandNode, dependencies: seq<DependencyCheck>): DependencyCheck {
    var publication := InspectPublication(w.facts(provider), w.entryName, provider);
    var dependenciesReady := AllReady(dependencies);
    var (status, message) :=
      if !provider.runnable then
        ("provider-not-runnable",
         Some(if provider.diagnostic.Some? then provider.diagnostic.value else "provider command is not runnable"))
      else if !publication.ready then (publication.status, publication.message)
      else if !dependenciesReady then ("dependency-not-ready", None)
      else ("ready", None);
    DependencyCheck(
      r.provider, r.exported, provider.runnable && publication.ready && dependenciesReady, status, message,
      CheckerOf(w.commands, provider, r.exported), dependencies)
  }

  /** What is decided about a requirement before its provider's own requirements are looked at. */
  datatype Opening = Closed(check: DependencyCheck) | Open(provider: CommandNode)

  function Opened(w: World, r: CommandRequirement, active: set<string>): (o: Opening)
    ensures o.Open? ==> o.provider in w.commands && o.provider.address == r.provider && r.provider !in active
  {
    if r.provider in active then Closed(Failure(r, "cycle", "module dependency cycle detected"))
    else
      match Provider(w.commands, r.provider)
      case None => Closed(Failure(r, "provider-missing", "provider command is absent from the Catalog"))
      case Some(provider) =>
        if !Declares(provider, r.exported) then
          Closed(Failure(r, "export-not-declared", "provider does not declare the required export"))
        else Open(provider)
  }

  // ---------------------------------------------------------------- the budgeted walk

  /** A result together with the walk's mutable state after it. */
  datatype Walked<T> = Walked(result: Result<T, CheckError>, active: set<string>, items: nat)

  /** `DependencyBudget::consume`. */
  function Consume(r: CommandRequirement, depth: nat, items: nat): Option<CheckError> {
    if depth > MAX_DEPENDENCY_DEPTH then Some(DepthExceeded(r))
    else if items >= MAX_DEPENDENCY_ITEMS then Some(ItemsExceeded(r))
    else None
  }

  function Evaluate(w: World, r: CommandRequirement, depth: nat, active: set<string>, items: nat): Walked<DependencyCheck>
    decreases MAX_DEPENDENCY_DEPTH + 1 - depth, 0, 0
  {
    var refused := Consume(r, depth, items);
    if refused.Some? then Walked(Err(refused.value), active, items)
    else
      match Opened(w, r, active)
      case Closed(check) => Walked(Ok(check), active, items + 1)
      case Open(provider) =>
        var children := EvaluateAll(w, provider.requirements, depth + 1, active + {r.provider}, items + 1);
        match children.result
        case Err(error) => Walked(Err(error), children.active, children.items)
        case Ok(checks) => Walked(Ok(Verdict(w, r, provider, checks)), children.active - {r.provider}, children.items)
  }

  /** The checks of `rs` in order, stopping at the first error. */
  function EvaluateAll(w: World, rs: seq<CommandRequirement>, depth: nat, active: set<string>, items: nat)
    : Walked<seq<DependencyCheck>>
    decreases MAX_DEPENDENCY_DEPTH + 1 - depth, 1, |rs|
  {
    if rs == [] then Walked(Ok([]), active, items)
    else
      var first := Evaluate(w, rs[0], depth, active, items);
      match first.result
      case Err(error) => Walked(Err(error), first.active, first.items)
      case Ok(check) =>
        var rest := EvaluateAll(w, rs[1..], depth, first.active, first.items);
        match rest.result
        case Err(error) => Walked(Err(error), rest.active, rest.items)
        case Ok(checks) => Walked(Ok([check] + checks), rest.active, rest.items)
  }

  // ---------------------------------------------------------------- inspecting a command

  ghost function Addresses(commands: seq<CommandNode>): set<string> {
    set c | c in commands :: c.address
  }

  /** `resolve_target`, with the aliases followed so far; the program itself does not notice that it returns to one. */
  function ResolveFrom(commands: seq<CommandNode>, address: string, followed: set<string>): (r: Result<CommandNode, CheckError>)
    ensures r.Ok? ==> r.value in commands && r.value.aliasOf == None
    ensures r.Ok? ==> forall c :: c in commands && c.address == r.value.address ==> c == r.value
    decreases |Addresses(commands) - followed|
  {
    var matches := At(commands, address);
    MatchingMembers(commands, (c: CommandNode) => c.address == address);
    if matches == [] then Err(CommandNotFound(address))
    else if |matches| > 1 then Err(AmbiguousCommand(address))
    else
      assert matches[0] in matches;
      match matches[0].aliasOf
      case None => Ok(matches[0])
      case Some(canonical) =>
        if address in followed then Err(Unending)
        else
          FollowedGrows(Addresses(commands), address, followed);
          ResolveFrom(commands, canonical, followed + {address})
  }

  function At(commands: seq<CommandNode>, address: string): seq<CommandNode> {
    Matching(commands, (c: CommandNode) => c.address == address)
  }

  lemma FollowedGrows(addresses: set<string>, address: string, followed: set<string>)
    requires address in addresses && address !in followed
    ensures |addresses - (followed + {address})| < |addresses - followed|
  {
    assert addresses - followed == (addresses - (followed + {address})) + {address};
  }

  function ResolveTarget(commands: seq<CommandNode>, address: string): Result<CommandNode, CheckError> {
    ResolveFrom(commands, address, {})
  }

  lemma {:induction false} MatchingMembers(commands: seq<CommandNode>, p: CommandNode -> bool)
    ensures forall c :: c in Matching(commands, p) <==> c in commands && p(c)
  {
    if commands != [] {
      MatchingMembers(commands[1..], p);
      assert commands == [commands[0]] + commands[1..];
    }
  }

  // ---------------------------------------------------------------- alias chains

  /** Where the only command of an address leads, if it is an alias. */
  function AliasAt(commands: seq<CommandNode>, address: string): Option<string> {
    if |At(commands, address)| == 1 then At(commands, address)[0].aliasOf else None
  }

  /** The address that `n` aliases lead to. */
  function Followed(commands: seq<CommandNode>, address: string, n: nat): Option<string>
    decreases n
  {
    if n == 0 then Some(address)
    else
      match AliasAt(commands, address)
      case None => None
      case Some(canonical) => Followed(commands, canonical, n - 1)
  }

  ghost predicate LeadsTo(commands: seq<CommandNode>, address: string, canonical: string) {
    exists n: nat :: n > 0 && Followed(commands, address, n) == Some(canonical)
  }

  ghost predicate Endless(commands: seq<CommandNode>, address: string) {
    forall n: nat :: Followed(commands, address, n).Some?
  }

  lemma {:induction false} FollowedThen(commands: seq<CommandNode>, address: string, n: nat, k: nat)
    requires Followed(commands, address, n).Some?
    ensures Followed(commands, address, n + k) == Followed(commands, Followed(commands, address, n).value, k)
    decreases n
  {
    hide AliasAt;
    if n > 0 { FollowedThen(commands, AliasAt(commands, address).value, n - 1, k); }
  }

  lemma {:induction false} FollowedBefore(commands: seq<CommandNode>, address: string, n: nat, k: nat)
    requires k <= n && Followed(commands, address, n).Some?
    ensures Followed(commands, address, k).Some?
    decreases n
  {
    hide AliasAt;
    if k > 0 { FollowedBefore(commands, AliasAt(commands, address).value, n - 1, k - 1); }
  }

  /** Aliases that lead back to where they started lead on for ever. */
  lemma {:induction false} ReturnIsEndless(commands: seq<CommandNode>, address: string, period: nat, n: nat)
    requires period > 0 && Followed(commands, address, period) == Some(address)
    ensures Followed(commands, address, n).Some?
    decreases n
  {
    if n < period {
      FollowedBefore(commands, address, period, n);
    } else {
      ReturnIsEndless(commands, address, period, n - period);
      FollowedThen(commands, address, period, n - period);
    }
  }

  lemma EndlessNext(commands: seq<CommandNode>, address: string)
    requires AliasAt(commands, address).Some?
    ensures Endless(commands, address) <==> Endless(commands, AliasAt(commands, address).value)
  {
    hide AliasAt;
    var next := AliasAt(commands, address).value;
    if Endless(commands, address) {
      forall n: nat ensures Followed(commands, next, n).Some? {
        assert Followed(commands, address, n + 1).Some?;
      }
    }
    if Endless(commands, next) {
      forall n: nat ensures Followed(commands, address, n).Some? {
        assert n > 0 ==> Followed(commands, next, n - 1).Some?;
      }
    }
  }

  lemma ResolveTurn(commands: seq<CommandNode>, address: string, followed: set<string>)
    ensures var resolved := ResolveFrom(commands, address, followed);
            match AliasAt(commands, address)
            case None => resolved != Err(Unending)
            case Some(next) =>
              if address in followed then resolved == Err(Unending)
              else address in Addresses(commands) && resolved == ResolveFrom(commands, next, followed + {address})
  {
    MatchingMembers(commands, (c: CommandNode) => c.address == address);
    if At(commands, address) != [] { assert At(commands, address)[0] in At(commands, address); }
  }

  lemma {:induction false} ResolveEnds(commands: seq<CommandNode>, address: string, followed: set<string>)
    requires forall a :: a in followed ==> LeadsTo(commands, a, address)
    ensures ResolveFrom(commands, address, followed) == Err(Unending) <==> Endless(commands, address)
    decreases |Addresses(commands) - followed|
  {
    hide Endless, LeadsTo, ResolveFrom, AliasAt, Addresses;
    ResolveTurn(commands, address, followed);
    match AliasAt(commands, address)
    case None => EndsHere(commands, address);
    case Some(next) =>
      if address in followed {
        GoesOn(commands, address);
      } else {
        FollowedGrows(Addresses(commands), address, followed);
        forall a | a in followed + {address} ensures LeadsTo(commands, a, next) {
          OneFurther(commands, a, address, next, followed);
        }
        ResolveEnds(commands, next, followed + {address});
        EndlessNext(commands, address);
      }
  }

  lemma EndsHere(commands: seq<CommandNode>, address: string)
    requires AliasAt(commands, address) == None
    ensures !Endless(commands, address)
  {
    assert Followed(commands, address, 1) == None;
  }

  lemma GoesOn(commands: seq<CommandNode>, address: string)
    requires LeadsTo(commands, address, address)
    ensures Endless(commands, address)
  {
    var period: nat :| period > 0 && Followed(commands, address, period) == Some(address);
    forall n: nat ensures Followed(commands, address, n).Some? { ReturnIsEndless(commands, address, period, n); }
  }

  lemma OneFurther(commands: seq<CommandNode>, a: string, address: string, next: string, followed: set<string>)
    requires forall b :: b in followed ==> LeadsTo(commands, b, address)
    requires a in followed + {address} && AliasAt(commands, address) == Some(next)
    ensures LeadsTo(commands, a, next)
  {
    hide AliasAt;
    assert Followed(commands, next, 0) == Some(next);
    assert Followed(commands, address, 1) == Some(next);
    if a != address {
      var n: nat :| n > 0 && Followed(commands, a, n) == Some(address);
      FollowedThen(commands, a, n, 1);
    }
  }

  /** The program resolves or refuses an address exactly when its aliases do not lead on for ever. */
  lemma ResolveEndsExactlyWhen(commands: seq<CommandNode>, address: string)
    ensures ResolveTarget(commands, address) != Err(Unending) <==> !Endless(commands, address)
  {
    ResolveEnds(commands, address, {});
  }

  /** An alias of itself: the program never returns. */
  lemma SelfAliasIsEndless(commands: seq<CommandNode>, address: string)
    requires AliasAt(commands, address) == Some(address)
    ensures ResolveTarget(commands, address) == Err(Unending)
  {
    hide AliasAt;
    assert Followed(commands, address, 0) == Some(address);
    assert Followed(commands, address, 1) == Some(address);
    GoesOn(commands, address);
    ResolveEndsExactlyWhen(commands, address);
  }

  // ---------------------------------------------------------------- inspection

  function EvaluateDependencies(w: World, target: CommandNode): Result<seq<DependencyCheck>, CheckError> {
    EvaluateAll(w, target.requirements, 0, {target.address}, 0).result
  }

  function Inspect(w: World, address: string): Result<CommandCheckDocument, CheckError>
  {
    match ResolveTarget(w.commands, address)
    case Err(error) => Err(error)
    case Ok(target) =>
      match EvaluateDependencies(w, target)
      case Err(error) => Err(error)
      case Ok(dependencies) =>
        Ok(CommandCheckDocument(
             CheckedCommand(target.address, target.space, target.namespace, target.runnable, target.adapter, target.diagnostic),
             dependencies,
             target.runnable && AllReady(dependencies)))
  }

  // ---------------------------------------------------------------- the execution gate

  function {:tailrecursion false} FirstUnready(checks: seq<DependencyCheck>): (c: Option<DependencyCheck>)
    ensures c.Some? ==> c.value in checks && !c.value.ready
    ensures c.None? <==> AllReady(checks)
  {
    if checks == [] then None
    else if !checks[0].ready then Some(checks[0])
    else FirstUnready(checks[1..])
  }

  /** What a summary follows is the first unready dependency. */
  lemma {:induction false} FirstUnreadyIsFirst(checks: seq<DependencyCheck>) returns (k: nat)
    ensures k <= |checks| && forall i :: 0 <= i < k ==> checks[i].ready
    ensures if k == |checks| then FirstUnready(checks) == None else !checks[k].ready && FirstUnready(checks) == Some(checks[k])
  {
    if checks == [] || !checks[0].ready {
      k := 0;
    } else {
      var later := FirstUnreadyIsFirst(checks[1..]);
      k := later + 1;
      assert forall i :: 0 < i < k ==> checks[i] == checks[1..][i - 1];
    }
  }

  function Words(arguments: seq<string>): string {
    if arguments == [] then "" else " " + arguments[0] + Words(arguments[1..])
  }

  function CheckHint(checker: Option<DependencyChecker>, entryName: string): string {
    match checker
    case Some(c) => "; check with '" + entryName + " " + c.address + Words(c.arguments) + "'"
    case None => ""
  }

  function FailureSummary(check: DependencyCheck, entryName: string): string
    decreases check
  {
    var name := check.provider + "#" + check.exported;
    var unready := FirstUnready(check.dependencies);
    var summary :=
      if check.message.Some? then name + " [" + check.status + "]: " + check.message.value
      else if unready.Some? then name + " depends on " + FailureSummary(unready.value, entryName)
      else name + " [" + check.status + "]: provider dependency is not ready";
    summary + CheckHint(check.checker, entryName)
  }

  function Summaries(checks: seq<DependencyCheck>, entryName: string): seq<string> {
    if checks == [] then []
    else (if checks[0].ready then [] else [FailureSummary(checks[0], entryName)]) + Summaries(checks[1..], entryName)
  }

  function AssertDependenciesReady(w: World, address: string): Result<(), CheckError>
  {
    match ResolveTarget(w.commands, address)
    case Err(error) => Err(error)
    case Ok(target) =>
      match EvaluateDependencies(w, target)
      case Err(error) => Err(error)
      case Ok(dependencies) =>
        var failures := Summaries(dependencies, w.entryName);
        if failures == [] then Ok(()) else Err(NotReady(target.address, failures))
  }

  // ---------------------------------------------------------------- the walk as the program runs it

  /** The checks already made, before those of a further walk. */
  function Preceded(done: seq<DependencyCheck>, rest: Walked<seq<DependencyCheck>>): Walked<seq<DependencyCheck>> {
    match rest.result
    case Err(_) => rest
    case Ok(checks) => rest.(result := Ok(done + checks))
  }

  lemma WalkTurn(w: World, done: seq<DependencyCheck>, rs: seq<CommandRequirement>, depth: nat, active: set<string>, items: nat)
    requires rs != []
    ensures var first := Evaluate(w, rs[0], depth, active, items);
            Preceded(done, EvaluateAll(w, rs, depth, active, items))
            == if first.result.Err? then Walked(Err(first.result.error), first.active, first.items)
               else Preceded(done + [first.result.value], EvaluateAll(w, rs[1..], depth, first.active, first.items))
  {
    hide Evaluate;
    var first := Evaluate(w, rs[0], depth, active, items);
    if first.result.Ok? {
      var rest := EvaluateAll(w, rs[1..], depth, first.active, first.items);
      if rest.result.Ok? {
        assert done + ([first.result.value] + rest.result.value) == (done + [first.result.value]) + rest.result.value;
      }
    }
  }

  /** `active` and `budget` of one evaluation. */
  class DependencyWalk {
    const w: World
    var active: set<string>
    var items: nat

    constructor (w: World, target: CommandNode)
      ensures this.w == w && active == {target.address} && items == 0
    {
      this.w := w;
      active := {target.address};
      items := 0;
    }

    method EvaluateDependency(r: CommandRequirement, depth: nat) returns (result: Result<DependencyCheck, CheckError>)
      modifies this
      ensures Walked(result, active, items) == Evaluate(w, r, depth, old(active), old(items))
      decreases MAX_DEPENDENCY_DEPTH + 1 - depth, 0
    {
      hide EvaluateAll, Verdict, Failure, Declares;
      if depth > MAX_DEPENDENCY_DEPTH { return Err(DepthExceeded(r)); }
      if items >= MAX_DEPENDENCY_ITEMS { return Err(ItemsExceeded(r)); }
      items := items + 1;
      if r.provider in active {
        return Ok(Failure(r, "cycle", "module dependency cycle detected"));
      }
      active := active + {r.provider};
      var found := Provider(w.commands, r.provider);
      if found.None? {
        active := active - {r.provider};
        return Ok(Failure(r, "provider-missing", "provider command is absent from the Catalog"));
      }
      var provider := found.value;
      if !Declares(provider, r.exported) {
        active := active - {r.provider};
        return Ok(Failure(r, "export-not-declared", "provider does not declare the required export"));
      }
      var children := EvaluateRequirements(provider.requirements, depth + 1);
      match children {
        case Err(error) => return Err(error);
        case Ok(checks) =>
          active := active - {r.provider};
          return Ok(Verdict(w, r, provider, checks));
      }
    }

    method EvaluateRequirements(rs: seq<CommandRequirement>, depth: nat)
      returns (result: Result<seq<DependencyCheck>, CheckError>)
      modifies this
      ensures Walked(result, active, items) == EvaluateAll(w, rs, depth, old(active), old(items))
      decreases MAX_DEPENDENCY_DEPTH + 1 - depth, 1
    {
      hide Evaluate;
      var checks := [];
      var i := 0;
      ghost var walked := EvaluateAll(w, rs, depth, active, items);
      assert rs[0..] == rs && Preceded([], walked) == walked by {
        if walked.result.Ok? { assert [] + walked.result.value == walked.result.value; }
      }
      while i < |rs|
        invariant 0 <= i <= |rs|
        invariant Preceded(checks, EvaluateAll(w, rs[i..], depth, active, items)) == walked
      {
        WalkTurn(w, checks, rs[i..], depth, active, items);
        assert rs[i..][1..] == rs[i + 1..];
        var check := EvaluateDependency(rs[i], depth);
        if check.Err? { return Err(check.error); }
        checks := checks + [check.value];
        i := i + 1;
      }
      assert rs[i..] == [] && checks + [] == checks;
      return Ok(checks);
    }
  }
}
