/** What discovery reads of each directory it visits, and which directories those are. */
module CatalogContents {
  import opened Catalog
  import opened CommandIdentity
  import opened CommandModel
  import opened Ordering
  import opened ResourceRoute
  import opened Wrappers

  // ---------------------------------------------------------------- what counts of a directory

  /** A command has a route if it is below a root and needs at most 32 hops. */
  ghost predicate HasRoute(id: CommandIdentity) {
    id.path != [] && |id.path| + (if id.space.System? then 0 else 1) <= 32
  }

  /** The directory is a Resource directory that loads as this contract and whose command has a route. */
  ghost predicate Uses(p: Pending, contract: Contract) {
    p.directory.declaration == Authored(contract) && HasRoute(p.id)
  }

  /** The entry the directory offers: its contract's, or its `run.*` file if it is no Resource directory. */
  ghost predicate Offers(p: Pending, e: Entry) {
    match p.directory.declaration
    case Authored(contract) => HasRoute(p.id) && contract.entry == Some(e)
    case _ => p.directory.local == Ok(Some(e))
  }

  /** An entry that may run there: no foreign Core or Runtime entry, no Bun outside modules, no Python. */
  ghost predicate MayRun(e: Entry, id: CommandIdentity, restricted: (Entry, CommandIdentity) -> bool) {
    && !(e.adapter in {CommandAdapter.Core, CommandAdapter.Runtime} && restricted(e, id))
    && (e.adapter == CommandAdapter.Bun ==> id.space == Module) && e.adapter != CommandAdapter.Python
  }

  // ---------------------------------------------------------------- the command of a directory

  /** `c` is the command at the directory's own place in its space. */
  ghost predicate At(c: CommandNode, id: CommandId) {
    && c.space == id.space && c.namespace == id.namespace && c.path == id.path && c.address == CatalogAddress(id)
    && c.aliasOf == None && c.nativeOwner == None
  }

  /** Its capabilities are those of the contract that is used; without one it has none. */
  ghost predicate DeclaresAs(c: CommandNode, p: Pending) {
    && (forall contract :: Uses(p, contract) ==>
          && c.requirements == contract.requirements && c.provisions == contract.provisions
          && c.delegateOwner == contract.delegateOwner && c.declaresNative == contract.declaresNative)
    && ((forall contract :: !Uses(p, contract)) ==>
          c.requirements == [] && c.provisions == [] && c.delegateOwner == None && !c.declaresNative)
  }

  /** It runs the entry that the directory offers and may run; otherwise it does not run. */
  ghost predicate RunsAs(c: CommandNode, p: Pending, restricted: (Entry, CommandIdentity) -> bool) {
    && (forall e :: Offers(p, e) && MayRun(e, p.id, restricted) ==>
          c.runnable && c.entry == Some(e.name) && c.adapter == Some(e.adapter) && c.handler == e.handler && c.product == e.product)
    && ((forall e :: !(Offers(p, e) && MayRun(e, p.id, restricted))) ==>
          !c.runnable && c.entry == None && c.adapter == None && c.handler == None && c.product == None)
  }

  /** Something about the directory is reported. */
  ghost predicate Faulty(p: Pending, restricted: (Entry, CommandIdentity) -> bool) {
    || p.directory.declaration.Unreadable?
    || (match p.directory.declaration
        case Authored(contract) =>
          || !HasRoute(p.id) || contract.diagnostics != []
          || exists child :: child in contract.children && ChildId(p.id, child.name) == None
        case _ => p.directory.local.Err?)
    || exists e :: Offers(p, e) && !MayRun(e, p.id, restricted)
  }

  lemma UsedIsUses(p: Pending)
    ensures forall contract :: UsedContract(p) == Some(contract) <==> Uses(p, contract)
  {
    hide CommandIdentity.Valid;
    if p.id.path != [] { HopCount(p.id); }
  }

  lemma HopCount(id: CommandId)
    requires id.path != []
    ensures |CommandHops(id)| == |id.path| + if id.space.System? then 0 else 1
  {
    hide CommandIdentity.Valid;
  }

  lemma LocalIsOffered(p: Pending)
    ensures forall e :: LocalEntry(p).0 == Some(e) <==> Offers(p, e)
  {
    hide CommandHops, CommandIdentity.Valid;
    if p.id.path != [] { HopCount(p.id); }
  }

  lemma AdmittedMayRun(entry: Option<Entry>, id: CommandId, restricted: (Entry, CommandIdentity) -> bool)
    ensures Admitted(entry, id, restricted).0
            == if entry.Some? && MayRun(entry.value, id, restricted) then entry else None
    ensures Admitted(entry, id, restricted).1 != [] <==> entry.Some? && !MayRun(entry.value, id, restricted)
  {
    hide CommandIdentity.Valid;
  }

  lemma NodeDeclares(p: Pending, restricted: (Entry, CommandIdentity) -> bool)
    ensures At(NodeOf(p, restricted), p.id) && DeclaresAs(NodeOf(p, restricted), p)
  {
    hide JoinDiagnostics, Refused, LocalEntry, Admitted, UsedContract, Uses, CatalogAddress, ParentId, CommandIdentity.Valid;
    UsedIsUses(p);
  }

  lemma NodeRuns(p: Pending, restricted: (Entry, CommandIdentity) -> bool)
    ensures RunsAs(NodeOf(p, restricted), p, restricted)
  {
    hide JoinDiagnostics, Refused, LocalEntry, Admitted, UsedContract, Offers, MayRun, CatalogAddress, ParentId, CommandIdentity.Valid;
    LocalIsOffered(p);
    AdmittedMayRun(LocalEntry(p).0, p.id, restricted);
  }

  lemma {:induction false} RefusedExactlyWhen(id: CommandId, children: seq<Child>)
    ensures Refused(id, children) == [] <==> forall child :: child in children ==> ChildId(id, child.name).Some?
  {
    hide ChildId;
    if children != [] {
      RefusedExactlyWhen(id, children[1..]);
      assert children == [children[0]] + children[1..];
    }
  }

  lemma JoinedExactlyWhen(diagnostics: seq<string>)
    ensures JoinDiagnostics(diagnostics) == None <==> diagnostics == []
  {
  }

  lemma NodeReports(p: Pending, restricted: (Entry, CommandIdentity) -> bool)
    ensures NodeOf(p, restricted).diagnostic.Some? <==> Faulty(p, restricted)
  {
    hide JoinDiagnostics, Refused, Admitted, CommandHops, MayRun, CatalogAddress, ParentId, ChildId, CommandIdentity.Valid;
    var (local, reasons) := LocalEntry(p);
    LocalIsOffered(p);
    AdmittedMayRun(local, p.id, restricted);
    if p.id.path != [] { HopCount(p.id); }
    if p.directory.declaration.Authored? { RefusedExactlyWhen(p.id, p.directory.declaration.contract.children); }
    JoinOfNode(p, restricted);
  }

  lemma JoinOfNode(p: Pending, restricted: (Entry, CommandIdentity) -> bool)
    ensures var (local, reasons) := LocalEntry(p);
            NodeOf(p, restricted).diagnostic == None <==>
            && !p.directory.declaration.Unreadable? && reasons == [] && Admitted(local, p.id, restricted).1 == []
            && (UsedContract(p).Some? ==> Refused(p.id, UsedContract(p).value.children) == [])
  {
    hide JoinDiagnostics, Refused, Admitted, LocalEntry, UsedContract, CatalogAddress, ParentId, CommandIdentity.Valid;
    var contract := UsedContract(p);
    var (local, reasons) := LocalEntry(p);
    var (entry, refusal) := Admitted(local, p.id, restricted);
    var unreadable := match p.directory.declaration case Unreadable(error) => [error] case _ => [];
    var refused := if contract.Some? then Refused(p.id, contract.value.children) else [];
    JoinedExactlyWhen(unreadable + reasons + refused + refusal);
  }

  /** Reasons in a row, with semicolons between them. */
  ghost function Listed(reasons: seq<string>): string {
    if |reasons| <= 1 then (if reasons == [] then "" else reasons[0])
    else Listed(reasons[..|reasons| - 1]) + "; " + reasons[|reasons| - 1]
  }

  lemma {:induction false} ListedCons(first: string, rest: seq<string>)
    requires rest != []
    ensures Listed([first] + rest) == first + "; " + Listed(rest)
    decreases |rest|
  {
    var all := [first] + rest;
    var n := |rest| - 1;
    assert all[..|all| - 1] == [first] + rest[..n] && all[|all| - 1] == rest[n];
    if n == 0 {
      assert rest[..0] == [] && [first] + [] == [first] && rest == [rest[0]];
    } else {
      ListedCons(first, rest[..n]);
    }
  }

  lemma {:induction false} JoinedIsListed(diagnostics: seq<string>)
    ensures JoinDiagnostics(diagnostics) == if diagnostics == [] then None else Some(Listed(diagnostics))
  {
    if diagnostics != [] {
      JoinedIsListed(diagnostics[1..]);
      if |diagnostics| > 1 {
        ListedCons(diagnostics[0], diagnostics[1..]);
        assert [diagnostics[0]] + diagnostics[1..] == diagnostics;
      }
    }
  }

  /** Why an offered entry may not run. */
  ghost function Objection(e: Entry, id: CommandIdentity, restricted: (Entry, CommandIdentity) -> bool): seq<string> {
    if e.adapter in {CommandAdapter.Core, CommandAdapter.Runtime} && restricted(e, id) then ["execution is restricted to its exact owner"]
    else if e.adapter == CommandAdapter.Bun && id.space == System then ["run.ts is restricted to Module commands"]
    else if e.adapter == CommandAdapter.Python then ["run.py is not runnable"]
    else []
  }

  /** One complaint for each declared child whose selector is no segment. */
  ghost function BadSelectors(id: CommandId, children: seq<Child>): seq<string> {
    if children == [] then []
    else
      var n := |children| - 1;
      BadSelectors(id, children[..n]) + Complaint(id, children[n])
  }

  ghost function Complaint(id: CommandId, child: Child): seq<string> {
    if ChildId(id, child.name) == None then ["selector cannot become a Command identity"] else []
  }

  lemma RefusedStep(id: CommandId, children: seq<Child>)
    requires children != []
    ensures Refused(id, children) == Complaint(id, children[0]) + Refused(id, children[1..])
  {
    hide ChildId;
  }

  /** Everything wrong with a directory, in the order in which it is found. */
  ghost function Reasons(p: Pending, restricted: (Entry, CommandIdentity) -> bool): seq<string> {
    match p.directory.declaration
    case Authored(contract) =>
      if !HasRoute(p.id) then ["no Resource route"]
      else contract.diagnostics + BadSelectors(p.id, contract.children) + ObjectionTo(contract.entry, p, restricted)
    case Unreadable(error) => [error] + LocalReasons(p, restricted)
    case Absent => LocalReasons(p, restricted)
  }

  ghost function ObjectionTo(entry: Option<Entry>, p: Pending, restricted: (Entry, CommandIdentity) -> bool): seq<string> {
    if entry == None then [] else Objection(entry.value, p.id, restricted)
  }

  ghost function LocalReasons(p: Pending, restricted: (Entry, CommandIdentity) -> bool): seq<string> {
    match p.directory.local
    case Err(error) => [error]
    case Ok(entry) => ObjectionTo(entry, p, restricted)
  }

  lemma {:induction false} RefusedConcat(id: CommandId, front: seq<Child>, last: Child)
    ensures Refused(id, front + [last]) == Refused(id, front) + Complaint(id, last)
  {
    hide ChildId, Complaint;
    RefusedStep(id, front + [last]);
    if front == [] {
      assert [last][1..] == [] && front + [last] == [last] && Refused(id, []) == [];
    } else {
      assert (front + [last])[1..] == front[1..] + [last];
      RefusedConcat(id, front[1..], last);
      RefusedStep(id, front);
    }
  }

  lemma BadStep(id: CommandId, children: seq<Child>)
    requires children != []
    ensures BadSelectors(id, children)
            == BadSelectors(id, children[..|children| - 1]) + Complaint(id, children[|children| - 1])
  {
    hide Complaint;
  }

  lemma NoSelectors(id: CommandId)
    ensures Refused(id, []) == BadSelectors(id, [])
  {
  }

  lemma {:induction false} RefusedIsBad(id: CommandId, children: seq<Child>)
    ensures Refused(id, children) == BadSelectors(id, children)
  {
    hide *;
    if children == [] {
      NoSelectors(id);
    } else {
      var n := |children| - 1;
      BadStep(id, children);
      RefusedIsBad(id, children[..n]);
      RefusedConcat(id, children[..n], children[n]);
      assert children == children[..n] + [children[n]];
    }
  }

  lemma AdmittedObjection(entry: Option<Entry>, p: Pending, restricted: (Entry, CommandIdentity) -> bool)
    ensures Admitted(entry, p.id, restricted).1 == ObjectionTo(entry, p, restricted)
  {
    hide CommandIdentity.Valid;
  }

  /** The diagnostic of a directory's command is all of them. */
  lemma NodeSays(p: Pending, restricted: (Entry, CommandIdentity) -> bool)
    ensures NodeOf(p, restricted).diagnostic
            == if Reasons(p, restricted) == [] then None else Some(Listed(Reasons(p, restricted)))
  {
    hide JoinDiagnostics, Listed, Refused, BadSelectors, Admitted, ObjectionTo, CommandHops, CatalogAddress, ParentId, CommandIdentity.Valid;
    if p.id.path != [] { HopCount(p.id); }
    var contract := UsedContract(p);
    var (local, reasons) := LocalEntry(p);
    var (entry, refusal) := Admitted(local, p.id, restricted);
    var unreadable := match p.directory.declaration case Unreadable(error) => [error] case _ => [];
    var refused := if contract.Some? then Refused(p.id, contract.value.children) else [];
    AdmittedObjection(local, p, restricted);
    NoEntryNoObjection(p, restricted);
    if contract.Some? { RefusedIsBad(p.id, contract.value.children); }
    assert unreadable + reasons + refused + refusal == Reasons(p, restricted);
    JoinedIsListed(Reasons(p, restricted));
  }

  lemma NoEntryNoObjection(p: Pending, restricted: (Entry, CommandIdentity) -> bool)
    ensures ObjectionTo(None, p, restricted) == []
  {
  }

  /** `c` is what discovery makes of the directory. */
  ghost predicate CommandOf(c: CommandNode, p: Pending, restricted: (Entry, CommandIdentity) -> bool) {
    At(c, p.id) && DeclaresAs(c, p) && RunsAs(c, p, restricted) && (c.diagnostic.Some? <==> Faulty(p, restricted))
  }

  // ---------------------------------------------------------------- which directories are visited

  /** A directory that discovery goes on to from `p`. */
  ghost predicate LeadsTo(p: Pending, q: Pending) {
    exists child ::
      && Enters(p, child) && q.directory == child.directory && ChildId(p.id, child.name) == Some(q.id)
  }

  /** A Resource directory leads to the children it declares, an ordinary one to the declared directories in it. */
  ghost predicate Enters(p: Pending, child: Child) {
    match p.directory.declaration
    case Authored(contract) => HasRoute(p.id) && child in contract.children
    case Unreadable(_) => false
    case Absent => p.directory.listing.Listed? && child in p.directory.listing.children && child.directory.declaration != Absent
  }

  lemma {:induction false} QueuedMembers(id: CommandId, children: seq<Child>, everyChild: bool)
    ensures forall q :: q in Queued(id, children, everyChild) <==>
              exists child :: && child in children && (everyChild || child.directory.declaration != Absent)
                              && q.directory == child.directory && ChildId(id, child.name) == Some(q.id)
  {
    hide ChildId, CommandIdentity.Valid;
    if children != [] {
      var rest := Queued(id, children[1..], everyChild);
      QueuedMembers(id, children[1..], everyChild);
      assert children == [children[0]] + children[1..];
      if ChildId(id, children[0].name).Some? { ChildIdPlaced(id, children[0].name); }
      forall q ensures q in Queued(id, children, everyChild) <==>
                       exists child :: && child in children && (everyChild || child.directory.declaration != Absent)
                                       && q.directory == child.directory && ChildId(id, child.name) == Some(q.id)
      {
        if q in Queued(id, children, everyChild) && q !in rest {
          assert children[0] in children;
        }
        if child :| && child in children && (everyChild || child.directory.declaration != Absent)
                    && q.directory == child.directory && ChildId(id, child.name) == Some(q.id) {
          if child != children[0] { assert child in children[1..]; }
        }
      }
    }
  }

  lemma ChildrenAreLedTo(p: Pending)
    requires ChildrenOf(p).Some?
    ensures forall q :: q in ChildrenOf(p).value <==> LeadsTo(p, q)
  {
    hide Queued, ChildId, CommandHops, CommandIdentity.Valid;
    if p.id.path != [] { HopCount(p.id); }
    match p.directory.declaration
    case Authored(contract) => QueuedMembers(p.id, contract.children, true);
    case Unreadable(_) =>
    case Absent => QueuedMembers(p.id, p.directory.listing.children, false);
  }

  /** The directories in the order of their visits. */
  function Visits(queue: seq<Pending>): seq<Pending>
    decreases QueueWeight(queue)
  {
    if queue == [] then []
    else
      match ChildrenOf(queue[0])
      case None => [queue[0]]
      case Some(children) =>
        ChildrenWeight(queue[0]);
        QueueWeightConcat(queue[1..], children);
        [queue[0]] + Visits(queue[1..] + children)
  }

  /** `n` steps lead from one of the queued directories to `q`. */
  ghost predicate Reached(queue: seq<Pending>, q: Pending, n: nat)
    decreases n
  {
    if n == 0 then q in queue else exists p :: Reached(queue, p, n - 1) && LeadsTo(p, q)
  }

  ghost predicate Reachable(root: Pending, q: Pending) {
    exists n: nat :: Reached([root], q, n)
  }

  lemma {:induction false} VisitsCommands(queue: seq<Pending>, restricted: (Entry, CommandIdentity) -> bool)
    requires Scanned(queue, restricted).Some?
    ensures |Visits(queue)| == |Scanned(queue, restricted).value|
    ensures forall i :: 0 <= i < |Visits(queue)| ==> CommandOf(Scanned(queue, restricted).value[i], Visits(queue)[i], restricted)
    decreases QueueWeight(queue)
  {
    hide NodeOf, ChildrenOf, Weight, At, DeclaresAs, RunsAs, Faulty;
    if queue != [] {
      var children := ChildrenOf(queue[0]).value;
      ChildrenWeight(queue[0]);
      QueueWeightConcat(queue[1..], children);
      VisitsCommands(queue[1..] + children, restricted);
      NodeDeclares(queue[0], restricted);
      NodeRuns(queue[0], restricted);
      NodeReports(queue[0], restricted);
    }
  }

  /** Whatever is visited was queued or is led to by a visited directory, and everything led to is visited. */
  lemma {:induction false} VisitsAreClosed(queue: seq<Pending>, restricted: (Entry, CommandIdentity) -> bool)
    requires Scanned(queue, restricted).Some?
    ensures forall q :: q in queue ==> q in Visits(queue)
    ensures forall p, q :: p in Visits(queue) && LeadsTo(p, q) ==> q in Visits(queue)
    decreases QueueWeight(queue)
  {
    hide NodeOf, ChildrenOf, Weight, LeadsTo;
    if queue != [] {
      var children := ChildrenOf(queue[0]).value;
      ChildrenWeight(queue[0]);
      QueueWeightConcat(queue[1..], children);
      VisitsAreClosed(queue[1..] + children, restricted);
      ChildrenAreLedTo(queue[0]);
      assert queue == [queue[0]] + queue[1..];
    }
  }

  lemma {:induction false} VisitsAreReached(queue: seq<Pending>, restricted: (Entry, CommandIdentity) -> bool, q: Pending)
    returns (n: nat)
    requires Scanned(queue, restricted).Some? && q in Visits(queue)
    ensures Reached(queue, q, n)
    decreases QueueWeight(queue)
  {
    hide NodeOf, ChildrenOf, Weight, LeadsTo;
    var first, rest := queue[0], queue[1..];
    if q == first {
      n := 0;
    } else {
      var children := ChildrenOf(first).value;
      ChildrenWeight(first);
      QueueWeightConcat(rest, children);
      var k := VisitsAreReached(rest + children, restricted, q);
      ChildrenAreLedTo(first);
      n := ReachedFrom(queue, rest + children, q, k);
    }
  }

  /** Directories that are queued or led to by the first lead no further than those of the queue. */
  lemma {:induction false} ReachedFrom(queue: seq<Pending>, later: seq<Pending>, q: Pending, k: nat) returns (n: nat)
    requires queue != [] && Reached(later, q, k)
    requires forall p :: p in later ==> p in queue || LeadsTo(queue[0], p)
    ensures Reached(queue, q, n)
    decreases k
  {
    hide LeadsTo;
    if k == 0 {
      if q in queue {
        n := 0;
      } else {
        assert Reached(queue, queue[0], 0);
        n := 1;
      }
    } else {
      var p :| Reached(later, p, k - 1) && LeadsTo(p, q);
      var m := ReachedFrom(queue, later, p, k - 1);
      n := m + 1;
    }
  }

  lemma {:induction false} ReachedIsVisited(queue: seq<Pending>, restricted: (Entry, CommandIdentity) -> bool, q: Pending, n: nat)
    requires Scanned(queue, restricted).Some? && Reached(queue, q, n)
    ensures q in Visits(queue)
    decreases n
  {
    hide LeadsTo, Visits, Scanned;
    VisitsAreClosed(queue, restricted);
    if n > 0 {
      var p :| Reached(queue, p, n - 1) && LeadsTo(p, q);
      ReachedIsVisited(queue, restricted, p, n - 1);
    }
  }

  /**
   A scan that succeeds yields, in order, one command for each visited directory, made of what that
   directory declares; and it visits exactly the directories that can be reached from its root.
   */
  lemma ScanReadsWhatIsReached(root: Pending, restricted: (Entry, CommandIdentity) -> bool)
    requires Scanned([root], restricted).Some?
    ensures var (visits, commands) := (Visits([root]), Scanned([root], restricted).value);
            && |visits| == |commands|
            && (forall i :: 0 <= i < |visits| ==> CommandOf(commands[i], visits[i], restricted))
    ensures forall q :: q in Visits([root]) <==> Reachable(root, q)
  {
    hide Scanned, CommandOf, LeadsTo, ChildrenOf, Reachable;
    VisitsCommands([root], restricted);
    forall q ensures q in Visits([root]) <==> Reachable(root, q) {
      VisitedIsReachable(root, restricted, q);
    }
  }

  lemma VisitedIsReachable(root: Pending, restricted: (Entry, CommandIdentity) -> bool, q: Pending)
    requires Scanned([root], restricted).Some?
    ensures q in Visits([root]) <==> Reachable(root, q)
  {
    hide Scanned, Visits;
    if q in Visits([root]) { var n := VisitsAreReached([root], restricted, q); }
    if n: nat :| Reached([root], q, n) { ReachedIsVisited([root], restricted, q, n); }
  }

  // ---------------------------------------------------------------- the whole Catalog

  /** The commands of a module that is present and can be scanned. */
  ghost predicate OfModule(m: ModuleRoot, restricted: (Entry, CommandIdentity) -> bool, c: CommandNode)
    requires ValidModuleNamespace(m.namespace)
  {
    && m.found.Present?
    && var root := Pending(m.found.directory, CommandIdentity(Module, Some(m.namespace), []));
       Scanned([root], restricted).Some? && c in Scanned([root], restricted).value
  }

  /** A module on disk that cannot be read as one. */
  ghost predicate Broken(m: ModuleRoot, restricted: (Entry, CommandIdentity) -> bool)
    requires ValidModuleNamespace(m.namespace)
  {
    || m.found.Unsafe?
    || (m.found.Present?
        && Scanned([Pending(m.found.directory, CommandIdentity(Module, Some(m.namespace), []))], restricted) == None)
  }

  lemma ScannedModuleIs(m: ModuleRoot, restricted: (Entry, CommandIdentity) -> bool)
    requires ValidModuleNamespace(m.namespace)
    ensures ScannedModule(m, restricted) == None <==> Broken(m, restricted)
    ensures forall c :: ScannedModule(m, restricted).Some? ==>
              (c in ScannedModule(m, restricted).value <==> OfModule(m, restricted, c))
    ensures Broken(m, restricted) ==> forall c :: !OfModule(m, restricted, c)
  {
    hide Scanned, ValidModuleNamespace;
  }

  lemma {:induction false} ModulesCollected(modules: seq<ModuleRoot>, restricted: (Entry, CommandIdentity) -> bool)
    requires forall m :: m in modules ==> ValidModuleNamespace(m.namespace)
    ensures ScannedModules(modules, restricted) == None <==>
            exists m :: m in modules && m.namespace != "project" && Broken(m, restricted)
    ensures ScannedModules(modules, restricted).Some? ==>
              forall c :: c in ScannedModules(modules, restricted).value <==> exists m :: m in modules && OfModule(m, restricted, c)
  {
    hide ScannedModule, ValidModuleNamespace, OfModule, Broken;
    if modules != [] {
      var front, last := modules[..|modules| - 1], modules[|modules| - 1];
      assert modules == front + [last];
      ModulesCollected(front, restricted);
      ScannedModuleIs(last, restricted);
      assert forall m :: m in modules <==> m in front || m == last;
    }
  }

  /** System commands come before module commands, and each by address. */
  ghost predicate Before(c: CommandNode, d: CommandNode) {
    if c.space == d.space then StringLe(c.address, d.address) else c.space == System
  }

  lemma OneText(a: string, b: string)
    ensures KeyLe([a], [b]) <==> StringLe(a, b)
  {
    assert [a][1..] == [] && [b][1..] == [] && KeyLe([], []);
    StringReflexive(a);
  }

  lemma KeyIsBefore(c: CommandNode, d: CommandNode)
    ensures KeyLe(CatalogKey(c), CatalogKey(d)) <==> Before(c, d)
  {
    var a, b := CatalogKey(c), CatalogKey(d);
    assert a[1..] == [c.address] && b[1..] == [d.address];
    OneText(c.address, d.address);
    assert "0"[0] == '0' && "1"[0] == '1' && StringLe("0", "1") && !StringLe("1", "0");
  }

  /** Sorting leaves every command before all that follow it. */
  lemma SortedCatalog(commands: seq<CommandNode>)
    ensures var sorted := Sort(CatalogKey, commands);
            forall i, j :: 0 <= i < j < |sorted| ==> Before(sorted[i], sorted[j])
  {
    hide Sort, Before;
    SortProperties(CatalogKey, commands);
    var sorted := Sort(CatalogKey, commands);
    forall i, j | 0 <= i < j < |sorted| ensures Before(sorted[i], sorted[j]) {
      assert sorted[i..][0] == sorted[i] && sorted[i..][j - i] == sorted[j];
      AscendingFrom(sorted, i);
      AscendingFirst(CatalogKey, sorted[i..], j - i);
      KeyIsBefore(sorted[i], sorted[j]);
    }
  }

  lemma AscendingFrom(commands: seq<CommandNode>, i: nat)
    requires i <= |commands| && Ascending(CatalogKey, commands)
    ensures Ascending(CatalogKey, commands[i..])
  {
    forall k | 0 < k < |commands[i..]| ensures KeyLe(CatalogKey(commands[i..][k - 1]), CatalogKey(commands[i..][k])) {
      assert commands[i..][k - 1] == commands[i + k - 1] && commands[i..][k] == commands[i + k];
    }
  }

  /**
   Discovery fails exactly when the system root cannot be scanned or a module other than the project is
   broken.  Otherwise the Catalog holds the commands of the system root and of every module that can be
   scanned, and no others, in order of space and address.
   */
  lemma DiscoveryCollects(system: Directory, modules: seq<ModuleRoot>, restricted: (Entry, CommandIdentity) -> bool)
    requires forall m :: m in modules ==> ValidModuleNamespace(m.namespace)
    ensures var (own, catalog) := (Scanned([Pending(system, SYSTEM_ROOT)], restricted), Discovery(system, modules, restricted));
            && (catalog == None <==>
                  own == None || exists m :: m in modules && m.namespace != "project" && Broken(m, restricted))
            && (catalog.Some? ==>
                  && (forall c :: c in catalog.value <==>
                        c in own.value || exists m :: m in modules && OfModule(m, restricted, c))
                  && (forall i, j :: 0 <= i < j < |catalog.value| ==> Before(catalog.value[i], catalog.value[j])))
  {
    hide Scanned, ScannedModules, ValidModuleNamespace, OfModule, Broken, Sort, Before;
    var own, scanned := Scanned([Pending(system, SYSTEM_ROOT)], restricted), ScannedModules(modules, restricted);
    ModulesCollected(modules, restricted);
    if own.Some? && scanned.Some? {
      var all := own.value + scanned.value;
      SortProperties(CatalogKey, all);
      SameElements(Sort(CatalogKey, all), all);
      SortedCatalog(all);
    }
  }
}
