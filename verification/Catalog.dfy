/** Breadth-first discovery of the Catalog below the command roots. */
module Catalog {
  import opened ByteStrings
  import opened CommandIdentity
  import opened CommandModel
  import opened NativeOwner
  import opened Ordering
  import opened ResourceRoute
  import opened TextSplit
  import opened Wrappers

  // ---------------------------------------------------------------- directories

  datatype Entry = Entry(name: string, adapter: CommandAdapter, handler: Option<string>, product: Option<string>)

  /** The child directories by name, unless the directory cannot be listed. */
  datatype Listing = Unlisted | Listed(children: seq<Child>)

  /** What a Resource directory declares about its command, and the children it lists itself. */
  datatype Contract = Contract(
    entry: Option<Entry>, children: seq<Child>, requirements: seq<CommandRequirement>, provisions: seq<CommandProvision>,
    delegateOwner: Option<string>, declaresNative: bool, diagnostics: seq<string>)

  datatype Declaration =
    | Absent
    | Authored(contract: Contract)
    | Unreadable(error: string)

  /** `local` is the resolved `run.*` file, if there is one. */
  datatype Directory = Directory(declaration: Declaration, local: Result<Option<Entry>, string>, listing: Listing)

  datatype Child = Child(name: string, directory: Directory)

  predicate LocalAdapter(adapter: CommandAdapter) {
    adapter.Exe? || adapter.Bun? || adapter.Python? || adapter.Pwsh? || adapter.Cmd?
  }

  predicate DistinctNames(children: seq<Child>) {
    forall i, j :: 0 <= i < j < |children| ==> children[i].name != children[j].name
  }

  /** Sibling names are distinct throughout, and a `run.*` file never names a native or delegate adapter. */
  predicate WellFormed(d: Directory)
    decreases d
  {
    && (d.local.Ok? && d.local.value.Some? ==> LocalAdapter(d.local.value.value.adapter))
    && (match d.declaration
        case Authored(contract) => DistinctNames(contract.children) && WellFormedAll(contract.children)
        case _ => true)
    && (d.listing.Listed? ==> DistinctNames(d.listing.children) && WellFormedAll(d.listing.children))
  }

  predicate WellFormedAll(children: seq<Child>)
    decreases children
  {
    children == [] || (WellFormed(children[0].directory) && WellFormedAll(children[1..]))
  }

  // ---------------------------------------------------------------- identities in the Catalog

  /** A command root has the empty path; anything else is a command identity. */
  predicate Placed(id: CommandIdentity) {
    && (if id.space.System? then id.namespace == None else id.namespace.Some? && ValidModuleNamespace(id.namespace.value))
    && (id.path == [] || id.Valid())
  }

  function ChildId(id: CommandIdentity, segment: string): Option<CommandIdentity> {
    if !ValidCommandSegment(segment) then None
    else
      match NewIdentity(id.space, id.namespace, id.path + [segment])
      case Err(_) => None
      case Ok(child) => Some(child)
  }

  function ParentId(id: CommandIdentity): Option<CommandIdentity> {
    if id.path == [] then None else Some(id.(path := id.path[..|id.path| - 1]))
  }

  function CatalogAddress(id: CommandIdentity): string
    requires Placed(id)
  {
    if id.path == [] then (if id.namespace.Some? then id.namespace.value else "")
    else id.Address()
  }

  // ---------------------------------------------------------------- scanning one directory

  datatype Pending = Pending(directory: Directory, id: CommandId)

  type CommandId = id: CommandIdentity | Placed(id) witness CommandIdentity(System, None, [])

  function JoinDiagnostics(diagnostics: seq<string>): Option<string> {
    if diagnostics == [] then None
    else
      match JoinDiagnostics(diagnostics[1..])
      case None => Some(diagnostics[0])
      case Some(rest) => Some(diagnostics[0] + "; " + rest)
  }

  /** The contract that is used: a Resource directory whose command has a route. */
  function UsedContract(p: Pending): Option<Contract> {
    match p.directory.declaration
    case Authored(contract) =>
      if p.id.path != [] && |CommandHops(p.id)| <= MAX_RESOURCE_ROUTE_HOPS then Some(contract) else None
    case _ => None
  }

  /** An entry its directory may not have is dropped, with a reason. */
  function Admitted(entry: Option<Entry>, id: CommandId, restricted: (Entry, CommandIdentity) -> bool): (Option<Entry>, seq<string>) {
    match entry
    case None => (None, [])
    case Some(e) =>
      if (e.adapter.Core? || e.adapter.Runtime?) && restricted(e, id) then (None, ["execution is restricted to its exact owner"])
      else if e.adapter.Bun? && !id.space.Module? then (None, ["run.ts is restricted to Module commands"])
      else if e.adapter.Python? then (None, ["run.py is not runnable"])
      else (Some(e), [])
  }

  function LocalEntry(p: Pending): (Option<Entry>, seq<string>) {
    match p.directory.declaration
    case Authored(_) => (match UsedContract(p) case Some(c) => (c.entry, c.diagnostics) case None => (None, ["no Resource route"]))
    case _ => (match p.directory.local case Ok(entry) => (entry, []) case Err(error) => (None, [error]))
  }

  /** The directories the Catalog visits below this one. */
  function Queued(id: CommandId, children: seq<Child>, everyChild: bool): seq<Pending> {
    if children == [] then []
    else
      var rest := Queued(id, children[1..], everyChild);
      match ChildId(id, children[0].name)
      case None => rest
      case Some(child) =>
        ChildIdPlaced(id, children[0].name);
        if everyChild || !children[0].directory.declaration.Absent? then [Pending(children[0].directory, child)] + rest else rest
  }

  lemma ChildIdPlaced(id: CommandIdentity, segment: string)
    requires Placed(id) && ChildId(id, segment).Some?
    ensures var child := ChildId(id, segment).value;
            && Placed(child) && child == id.(path := id.path + [segment]) && child.HasNamespace() && child.Valid()
  {
    hide ValidCommandSegment, CommandIdentity.Address;
  }

  /** A Resource directory, readable or not, owns its traversal; any other lists its child directories. */
  function ChildrenOf(p: Pending): Option<seq<Pending>> {
    match p.directory.declaration
    case Authored(_) => Some(match UsedContract(p) case Some(c) => Queued(p.id, c.children, true) case None => [])
    case Unreadable(_) => Some([])
    case Absent => if p.directory.listing.Listed? then Some(Queued(p.id, p.directory.listing.children, false)) else None
  }

  function Refused(id: CommandId, children: seq<Child>): seq<string> {
    if children == [] then []
    else (if ChildId(id, children[0].name) == None then ["selector cannot become a Command identity"] else []) + Refused(id, children[1..])
  }

  function NodeOf(p: Pending, restricted: (Entry, CommandIdentity) -> bool): CommandNode {
    var contract := UsedContract(p);
    var (local, reasons) := LocalEntry(p);
    var (entry, refusal) := Admitted(local, p.id, restricted);
    var unreadable := match p.directory.declaration case Unreadable(error) => [error] case _ => [];
    var refused := if contract.Some? then Refused(p.id, contract.value.children) else [];
    CommandNode(
      CatalogAddress(p.id), p.id.space, p.id.namespace, p.id.path,
      (match ParentId(p.id) case None => None case Some(parent) => ParentPlaced(p.id); Some(CatalogAddress(parent))),
      None, entry.Some?,
      (if entry.Some? then Some(entry.value.name) else None),
      (if entry.Some? then Some(entry.value.adapter) else None),
      (if entry.Some? then entry.value.handler else None),
      (if entry.Some? then entry.value.product else None),
      (if contract.Some? then contract.value.requirements else []),
      (if contract.Some? then contract.value.provisions else []),
      (if contract.Some? then contract.value.delegateOwner else None),
      contract.Some? && contract.value.declaresNative,
      JoinDiagnostics(unreadable + reasons + refused + refusal),
      None)
  }

  lemma ParentPlaced(id: CommandIdentity)
    requires Placed(id) && id.path != []
    ensures Placed(ParentId(id).value)
  {
    hide ValidCommandSegment, IsDeviceName;
    if |id.path| > 1 {
      var front := id.path[..|id.path| - 1];
      JoinSnoc(front, id.path[|id.path| - 1]);
      assert id.path == front + [id.path[|id.path| - 1]];
    }
  }

  // ---------------------------------------------------------------- the worklist

  /** How many directories there are at and below `d`. */
  function Weight(d: Directory): nat
    decreases d
  {
    1 + (match d.declaration case Authored(contract) => WeightAll(contract.children) case _ => 0)
    + (match d.listing case Listed(children) => WeightAll(children) case Unlisted => 0)
  }

  function WeightAll(children: seq<Child>): nat
    decreases children
  {
    if children == [] then 0 else Weight(children[0].directory) + WeightAll(children[1..])
  }

  function QueueWeight(queue: seq<Pending>): nat {
    if queue == [] then 0 else Weight(queue[0].directory) + QueueWeight(queue[1..])
  }

  lemma {:induction false} QueueWeightConcat(a: seq<Pending>, b: seq<Pending>)
    ensures QueueWeight(a + b) == QueueWeight(a) + QueueWeight(b)
  {
    hide Weight;
    if a == [] {
      assert a + b == b;
    } else {
      assert (a + b)[1..] == a[1..] + b;
      QueueWeightConcat(a[1..], b);
    }
  }

  lemma {:induction false} QueuedWeight(id: CommandId, children: seq<Child>, everyChild: bool)
    ensures QueueWeight(Queued(id, children, everyChild)) <= WeightAll(children)
  {
    hide Weight, ChildId;
    if children != [] {
      QueuedWeight(id, children[1..], everyChild);
      var rest := Queued(id, children[1..], everyChild);
      if ChildId(id, children[0].name).Some? {
        ChildIdPlaced(id, children[0].name);
        var first := Pending(children[0].directory, ChildId(id, children[0].name).value);
        assert ([first] + rest)[1..] == rest;
      }
    }
  }

  lemma ChildrenWeight(p: Pending)
    requires ChildrenOf(p).Some?
    ensures QueueWeight(ChildrenOf(p).value) < Weight(p.directory)
  {
    hide Queued;
    match p.directory.declaration
    case Authored(contract) => QueuedWeight(p.id, contract.children, true);
    case Unreadable(_) =>
    case Absent => QueuedWeight(p.id, p.directory.listing.children, false);
  }

  /** What the worklist produces, or `None` when a directory cannot be listed. */
  function Scanned(queue: seq<Pending>, restricted: (Entry, CommandIdentity) -> bool): Option<seq<CommandNode>>
    decreases QueueWeight(queue)
  {
    if queue == [] then Some([])
    else
      match ChildrenOf(queue[0])
      case None => None
      case Some(children) =>
        ChildrenWeight(queue[0]);
        QueueWeightConcat(queue[1..], children);
        match Scanned(queue[1..] + children, restricted)
        case None => None
        case Some(commands) => Some([NodeOf(queue[0], restricted)] + commands)
  }

  method ScanRoot(root: Pending, restricted: (Entry, CommandIdentity) -> bool) returns (scanned: Option<seq<CommandNode>>)
    ensures scanned == Scanned([root], restricted)
  {
    hide NodeOf, ChildrenOf, Weight;
    var pending := [root];
    var commands := [];
    assert forall later: seq<CommandNode> :: [] + later == later;
    while pending != []
      invariant Scanned([root], restricted)
                == match Scanned(pending, restricted) case None => None case Some(later) => Some(commands + later)
      decreases QueueWeight(pending)
    {
      var current := pending[0];
      pending := pending[1..];
      match ChildrenOf(current) {
        case None => return None;
        case Some(children) =>
          ChildrenWeight(current);
          QueueWeightConcat(pending, children);
          ghost var before := commands;
          commands := commands + [NodeOf(current, restricted)];
          pending := pending + children;
          if Scanned(pending, restricted).Some? {
            Associative(before, [NodeOf(current, restricted)], Scanned(pending, restricted).value);
          }
      }
    }
    assert commands + [] == commands;
    scanned := Some(commands);
  }

  // ---------------------------------------------------------------- the tree it visits

  /** The same commands by recursion over the tree: each directory once, whatever the order of visits. */
  function Tree(p: Pending, restricted: (Entry, CommandIdentity) -> bool): (commands: seq<CommandNode>)
    decreases Weight(p.directory), 1, 0
  {
    match ChildrenOf(p)
    case None => [NodeOf(p, restricted)]
    case Some(children) => ChildrenWeight(p); [NodeOf(p, restricted)] + Forest(children, restricted)
  }

  function Forest(queue: seq<Pending>, restricted: (Entry, CommandIdentity) -> bool): seq<CommandNode>
    decreases QueueWeight(queue), 2, |queue|
  {
    if queue == [] then []
    else Tree(queue[0], restricted) + Forest(queue[1..], restricted)
  }

  lemma {:induction false} ForestConcat(a: seq<Pending>, b: seq<Pending>, restricted: (Entry, CommandIdentity) -> bool)
    ensures Forest(a + b, restricted) == Forest(a, restricted) + Forest(b, restricted)
  {
    hide Tree;
    if a == [] {
      assert a + b == b;
    } else {
      assert (a + b)[1..] == a[1..] + b;
      ForestConcat(a[1..], b, restricted);
      Associative(Tree(a[0], restricted), Forest(a[1..], restricted), Forest(b, restricted));
    }
  }

  /** The worklist visits exactly the directories of the tree, each once. */
  lemma {:induction false} WorklistVisitsTheTree(queue: seq<Pending>, restricted: (Entry, CommandIdentity) -> bool)
    requires Scanned(queue, restricted).Some?
    ensures multiset(Scanned(queue, restricted).value) == multiset(Forest(queue, restricted))
    decreases QueueWeight(queue)
  {
    hide NodeOf, ChildrenOf, Weight;
    if queue != [] {
      var current, rest := queue[0], queue[1..];
      var children := ChildrenOf(current).value;
      ChildrenWeight(current);
      QueueWeightConcat(rest, children);
      WorklistVisitsTheTree(rest + children, restricted);
      ForestConcat(rest, children, restricted);
      var later := Scanned(rest + children, restricted).value;
      var node := [NodeOf(current, restricted)];
      assert Tree(current, restricted) == node + Forest(children, restricted);
      MovedToTheEnd(node, Forest(children, restricted), Forest(rest, restricted), later);
    }
  }

  lemma MovedToTheEnd<T>(node: seq<T>, children: seq<T>, rest: seq<T>, later: seq<T>)
    requires multiset(later) == multiset(rest + children)
    ensures multiset(node + later) == multiset((node + children) + rest)
  {
  }

  // ---------------------------------------------------------------- what every directory contributes

  predicate Below(id: CommandIdentity, c: CommandNode) {
    c.space == id.space && c.namespace == id.namespace && id.path <= c.path
  }

  /** Canonical address and parent for its space, namespace and path, in the state that owner resolution expects. */
  predicate Canonical(c: CommandNode) {
    var id := IdentityOf(c);
    && Placed(id) && c.address == CatalogAddress(id)
    && (c.path == [] ==> c.parent == None && c.adapter != Some(CommandAdapter.Native) && c.adapter != Some(CommandAdapter.Delegate))
    && (c.path != [] ==> Placed(ParentId(id).value) && c.parent == Some(CatalogAddress(ParentId(id).value)))
    && c.aliasOf == None && c.nativeOwner == None && (c.runnable <==> c.adapter.Some?)
  }

  lemma NodeIsCanonical(p: Pending, restricted: (Entry, CommandIdentity) -> bool)
    requires WellFormed(p.directory)
    ensures var c := NodeOf(p, restricted);
            Canonical(c) && IdentityOf(c) == p.id
  {
    hide JoinDiagnostics, Refused, ValidModuleNamespace, CommandIdentity.Valid, CatalogAddress, CommandHops, WellFormedAll;
    if p.id.path != [] { ParentPlaced(p.id); }
  }

  function PathKey(c: CommandNode): Key {
    c.path
  }

  predicate ParentIn(c: CommandNode, commands: seq<CommandNode>) {
    c.path != [] && exists d :: d in commands && d.path == c.path[..|c.path| - 1]
  }

  /** The directories of siblings: one more segment than `base`, all different. */
  predicate Siblings(base: CommandIdentity, queue: seq<Pending>) {
    && (forall p :: p in queue ==>
          && p.id.space == base.space && p.id.namespace == base.namespace && |p.id.path| == |base.path| + 1
          && base.path <= p.id.path && WellFormed(p.directory))
    && (forall i, j :: 0 <= i < j < |queue| ==> queue[i].id.path[|base.path|] != queue[j].id.path[|base.path|])
  }

  predicate NamedAmong(names: seq<Child>, name: string) {
    exists c :: c in names && c.name == name
  }

  /** The name of the first child is none of the others'. */
  lemma FirstNameApart(children: seq<Child>, name: string)
    requires children != [] && DistinctNames(children) && NamedAmong(children[1..], name)
    ensures name != children[0].name && NamedAmong(children, name)
  {
    var tail := children[1..];
    var c :| c in tail && c.name == name;
    var i :| 0 <= i < |tail| && tail[i] == c;
    assert children[i + 1] == c;
    assert c in children;
  }

  lemma SiblingFirst(id: CommandId, first: Pending, rest: seq<Pending>)
    requires Siblings(id, rest) && Siblings(id, [first])
    requires forall p :: p in rest ==> p.id.path[|id.path|] != first.id.path[|id.path|]
    ensures Siblings(id, [first] + rest)
  {
    hide WellFormed;
    var queue := [first] + rest;
    assert forall i :: 0 < i < |queue| ==> queue[i] == rest[i - 1] && queue[i] in rest;
  }

  lemma {:induction false} QueuedAreSiblings(id: CommandId, children: seq<Child>, everyChild: bool)
    requires DistinctNames(children) && WellFormedAll(children)
    ensures Siblings(id, Queued(id, children, everyChild))
    ensures forall p :: p in Queued(id, children, everyChild) ==> NamedAmong(children, p.id.path[|id.path|])
  {
    hide WellFormed, ChildId, Siblings, NamedAmong;
    if children == [] {
      NoSiblings(id);
    } else {
      var tail := children[1..];
      DistinctTail(children);
      QueuedAreSiblings(id, tail, everyChild);
      var rest := Queued(id, tail, everyChild);
      var queue := Queued(id, children, everyChild);
      SiblingsPlaced(id, rest);
      forall p | p in rest ensures p.id.path[|id.path|] != children[0].name && NamedAmong(children, p.id.path[|id.path|]) {
        FirstNameApart(children, p.id.path[|id.path|]);
      }
      if queue != rest {
        ChildIdPlaced(id, children[0].name);
        var first := Pending(children[0].directory, ChildId(id, children[0].name).value);
        assert queue == [first] + rest;
        FirstIsSibling(id, children, first);
        SiblingFirst(id, first, rest);
      }
    }
  }

  lemma DistinctTail(children: seq<Child>)
    requires children != [] && DistinctNames(children) && WellFormedAll(children)
    ensures DistinctNames(children[1..]) && WellFormedAll(children[1..])
  {
    hide WellFormed;
    assert children == [children[0]] + children[1..];
  }

  lemma SiblingsPlaced(id: CommandId, queue: seq<Pending>)
    requires Siblings(id, queue)
    ensures forall p :: p in queue ==> |p.id.path| == |id.path| + 1
  {
  }

  lemma FirstIsSibling(id: CommandId, children: seq<Child>, first: Pending)
    requires children != [] && WellFormedAll(children) && first.directory == children[0].directory
    requires first.id.space == id.space && first.id.namespace == id.namespace && first.id.path == id.path + [children[0].name]
    ensures Siblings(id, [first]) && first.id.path[|id.path|] == children[0].name && NamedAmong(children, children[0].name)
  {
    hide WellFormed;
    assert children[0] in children;
  }

  lemma ChildrenAreSiblings(p: Pending)
    requires WellFormed(p.directory) && ChildrenOf(p).Some?
    ensures Siblings(p.id, ChildrenOf(p).value)
  {
    hide Queued, Siblings, WellFormedAll, CommandHops;
    match p.directory.declaration
    case Authored(contract) =>
      QueuedAreSiblings(p.id, contract.children, true);
      NoSiblings(p.id);
    case Unreadable(_) => NoSiblings(p.id);
    case Absent => QueuedAreSiblings(p.id, p.directory.listing.children, false);
  }

  lemma NoSiblings(id: CommandIdentity)
    ensures Siblings(id, [])
  {
  }

  // ---------------------------------------------------------------- the tree is well formed

  predicate GoodTree(id: CommandIdentity, commands: seq<CommandNode>) {
    && (forall c :: c in commands ==> Below(id, c) && Canonical(c))
    && DistinctKeys(PathKey, commands)
    && (forall c :: c in commands ==> c.path == id.path || ParentIn(c, commands))
  }

  predicate GoodForest(base: CommandIdentity, queue: seq<Pending>, commands: seq<CommandNode>) {
    && (forall c :: c in commands ==>
          && Below(base, c) && Canonical(c) && |c.path| > |base.path|
          && exists p :: p in queue && |p.id.path| > |base.path| && p.id.path[|base.path|] == c.path[|base.path|])
    && DistinctKeys(PathKey, commands)
    && (forall c :: c in commands ==> c.path[..|c.path| - 1] == base.path || ParentIn(c, commands))
  }

  lemma {:induction false} TreeIsGood(p: Pending, restricted: (Entry, CommandIdentity) -> bool)
    requires WellFormed(p.directory)
    ensures GoodTree(p.id, Tree(p, restricted))
    decreases Weight(p.directory), 1, 0
  {
    hide WellFormed, NodeOf, ChildrenOf, GoodForest, Canonical, Siblings, DistinctKeys, Weight;
    var root := NodeOf(p, restricted);
    NodeIsCanonical(p, restricted);
    match ChildrenOf(p)
    case None =>
      DistinctOne(root);
    case Some(children) =>
      ChildrenWeight(p);
      ChildrenAreSiblings(p);
      ForestIsGood(p.id, children, restricted);
      RootedForest(p.id, children, root, Forest(children, restricted));
  }

  lemma DistinctOne(c: CommandNode)
    ensures DistinctKeys(PathKey, [c])
  {
  }

  /** A root above a good forest makes a good tree. */
  lemma RootedForest(id: CommandIdentity, queue: seq<Pending>, root: CommandNode, commands: seq<CommandNode>)
    requires IdentityOf(root) == id && Canonical(root) && GoodForest(id, queue, commands)
    ensures GoodTree(id, [root] + commands)
  {
    hide Canonical;
    var all := [root] + commands;
    DistinctCons(PathKey, root, commands);
    forall c | c in all ensures c.path == id.path || ParentIn(c, all) {
      if c in commands {
        if c.path[..|c.path| - 1] == id.path {
          assert root in all && root.path == id.path;
        } else {
          var d :| d in commands && d.path == c.path[..|c.path| - 1];
          assert d in all;
        }
      }
    }
  }

  lemma {:induction false} ForestIsGood(base: CommandIdentity, queue: seq<Pending>, restricted: (Entry, CommandIdentity) -> bool)
    requires Siblings(base, queue)
    ensures GoodForest(base, queue, Forest(queue, restricted))
    decreases QueueWeight(queue), 2, |queue|
  {
    hide WellFormed, Tree, Canonical, GoodTree, Weight;
    if queue != [] {
      assert queue[0] in queue;
      SiblingsTail(base, queue);
      TreeIsGood(queue[0], restricted);
      ForestIsGood(base, queue[1..], restricted);
      JoinedForest(base, queue, Tree(queue[0], restricted), Forest(queue[1..], restricted));
    }
  }

  lemma SiblingsTail(base: CommandIdentity, queue: seq<Pending>)
    requires Siblings(base, queue) && queue != []
    ensures Siblings(base, queue[1..])
    ensures forall p :: p in queue[1..] ==> p.id.path[|base.path|] != queue[0].id.path[|base.path|]
  {
    hide WellFormed;
  }

  /** The tree of the first sibling and the forest of the others share no path. */
  lemma JoinedForest(base: CommandIdentity, queue: seq<Pending>, tree: seq<CommandNode>, forest: seq<CommandNode>)
    requires queue != [] && Siblings(base, queue) && GoodTree(queue[0].id, tree) && GoodForest(base, queue[1..], forest)
    ensures GoodForest(base, queue, tree + forest)
  {
    hide WellFormed, Canonical, DistinctKeys;
    var n := |base.path|;
    var first := queue[0].id;
    assert queue[0] in queue;
    SiblingsTail(base, queue);
    forall c | c in tree
      ensures Below(base, c) && |c.path| > n && c.path[n] == first.path[n]
    {
      assert Below(first, c);
      PrefixAt(base.path, first.path, c.path);
    }
    forall c, d | c in tree && d in forest ensures PathKey(c) != PathKey(d) {
      var p :| p in queue[1..] && |p.id.path| > n && p.id.path[n] == d.path[n];
    }
    DistinctJoined(tree, forest);
    var all := tree + forest;
    forall c | c in all
      ensures exists p :: p in queue && |p.id.path| > n && p.id.path[n] == c.path[n]
      ensures c.path[..|c.path| - 1] == base.path || ParentIn(c, all)
    {
      if c in tree {
        assert first.path[..n] == base.path;
        if c.path == first.path {
          assert c.path[..|c.path| - 1] == base.path;
        } else {
          var d :| d in tree && d.path == c.path[..|c.path| - 1];
          assert d in all;
        }
      } else {
        var p :| p in queue[1..] && |p.id.path| > n && p.id.path[n] == c.path[n];
        assert p in queue;
        if c.path[..|c.path| - 1] != base.path {
          var d :| d in forest && d.path == c.path[..|c.path| - 1];
          assert d in all;
        }
      }
    }
  }

  lemma PrefixAt(base: seq<string>, first: seq<string>, whole: seq<string>)
    requires base <= first <= whole && |first| == |base| + 1
    ensures base <= whole && |whole| > |base| && whole[|base|] == first[|base|]
  {
  }

  lemma DistinctJoined(a: seq<CommandNode>, b: seq<CommandNode>)
    requires DistinctKeys(PathKey, a) && DistinctKeys(PathKey, b)
    requires forall c, d :: c in a && d in b ==> PathKey(c) != PathKey(d)
    ensures DistinctKeys(PathKey, a + b)
  {
    forall i, j | 0 <= i < j < |a + b| ensures PathKey((a + b)[i]) != PathKey((a + b)[j]) {
      if i < |a| <= j { assert (a + b)[i] in a && (a + b)[j] in b; }
    }
  }

  // ---------------------------------------------------------------- the whole Catalog

  /** A module root on disk: absent, not a safe directory, or scanned. */
  datatype Found = Missing | Unsafe | Present(directory: Directory)

  datatype ModuleRoot = ModuleRoot(namespace: string, found: Found)

  const SYSTEM_ROOT: CommandId := CommandIdentity(System, None, [])

  function ModuleRootId(namespace: string): CommandId
    requires ValidModuleNamespace(namespace)
  {
    CommandIdentity(Module, Some(namespace), [])
  }

  predicate ModulesDeclared(modules: seq<ModuleRoot>) {
    && (forall m :: m in modules ==>
          ValidModuleNamespace(m.namespace) && (m.found.Present? ==> WellFormed(m.found.directory)))
    && (forall i, j :: 0 <= i < j < |modules| ==> modules[i].namespace != modules[j].namespace)
  }

  function ScannedModule(m: ModuleRoot, restricted: (Entry, CommandIdentity) -> bool): Option<seq<CommandNode>>
    requires ValidModuleNamespace(m.namespace)
  {
    match m.found
    case Missing => Some([])
    case Unsafe => None
    case Present(directory) => Scanned([Pending(directory, ModuleRootId(m.namespace))], restricted)
  }

  /** A module that cannot be scanned fails discovery, except the project, which is skipped. */
  function ScannedModules(modules: seq<ModuleRoot>, restricted: (Entry, CommandIdentity) -> bool): Option<seq<CommandNode>>
    requires forall m :: m in modules ==> ValidModuleNamespace(m.namespace)
  {
    if modules == [] then Some([])
    else
      var n := |modules| - 1;
      match ScannedModules(modules[..n], restricted)
      case None => None
      case Some(commands) =>
        match ScannedModule(modules[n], restricted)
        case Some(scanned) => Some(commands + scanned)
        case None => if modules[n].namespace == "project" then Some(commands) else None
  }

  function CatalogKey(c: CommandNode): Key {
    [if c.space.System? then "0" else "1", c.address]
  }

  function Discovery(system: Directory, modules: seq<ModuleRoot>, restricted: (Entry, CommandIdentity) -> bool): Option<seq<CommandNode>>
    requires forall m :: m in modules ==> ValidModuleNamespace(m.namespace)
  {
    match Scanned([Pending(system, SYSTEM_ROOT)], restricted)
    case None => None
    case Some(commands) =>
      match ScannedModules(modules, restricted)
      case None => None
      case Some(scanned) => Some(Sort(CatalogKey, commands + scanned))
  }

  method DiscoverRoots(system: Directory, modules: seq<ModuleRoot>, restricted: (Entry, CommandIdentity) -> bool)
    returns (catalog: Option<seq<CommandNode>>)
    requires forall m :: m in modules ==> ValidModuleNamespace(m.namespace)
    ensures catalog == Discovery(system, modules, restricted)
  {
    hide Scanned, ValidModuleNamespace, Sort;
    var scannedSystem := ScanRoot(Pending(system, SYSTEM_ROOT), restricted);
    if scannedSystem == None { return None; }
    var commands := scannedSystem.value;
    var i := 0;
    while i < |modules|
      invariant i <= |modules|
      invariant ScannedModules(modules[..i], restricted).Some?
      invariant commands == scannedSystem.value + ScannedModules(modules[..i], restricted).value
    {
      var m := modules[i];
      assert modules[..i + 1][..i] == modules[..i] && m in modules;
      ghost var before := ScannedModules(modules[..i], restricted).value;
      var scanned: Option<seq<CommandNode>>;
      match m.found {
        case Missing => scanned := Some([]);
        case Unsafe => scanned := None;
        case Present(directory) => scanned := ScanRoot(Pending(directory, ModuleRootId(m.namespace)), restricted);
      }
      match scanned {
        case Some(more) =>
          Associative(scannedSystem.value, before, more);
          commands := commands + more;
        case None =>
          if m.namespace != "project" {
            EarlierModules(modules, i + 1, restricted);
            return None;
          }
      }
      i := i + 1;
    }
    assert modules[..|modules|] == modules;
    catalog := Some(Sort(CatalogKey, commands));
  }

  lemma {:induction false} EarlierModules(modules: seq<ModuleRoot>, k: nat, restricted: (Entry, CommandIdentity) -> bool)
    requires (forall m :: m in modules ==> ValidModuleNamespace(m.namespace)) && k <= |modules|
    requires ScannedModules(modules[..k], restricted) == None
    ensures ScannedModules(modules, restricted) == None
  {
    hide ScannedModule, ValidModuleNamespace;
    if k < |modules| {
      var front := modules[..|modules| - 1];
      assert front[..k] == modules[..k];
      EarlierModules(front, k, restricted);
    } else {
      assert modules[..k] == modules;
    }
  }

  // ---------------------------------------------------------------- discovery keeps the Catalog well formed

  predicate DistinctIdentities(commands: seq<CommandNode>) {
    forall i, j :: 0 <= i < j < |commands| ==> IdentityOf(commands[i]) != IdentityOf(commands[j])
  }

  predicate HasParent(c: CommandNode, commands: seq<CommandNode>) {
    c.path != [] ==> exists d :: d in commands && Some(IdentityOf(d)) == ParentId(IdentityOf(c))
  }

  predicate Whole(commands: seq<CommandNode>) {
    && (forall c :: c in commands ==> Canonical(c) && HasParent(c, commands))
    && DistinctIdentities(commands)
  }

  lemma ScannedIsGood(root: Pending, restricted: (Entry, CommandIdentity) -> bool)
    requires WellFormed(root.directory) && Scanned([root], restricted).Some?
    ensures GoodTree(root.id, Scanned([root], restricted).value)
  {
    hide WellFormed, Tree, Scanned, Canonical, Weight;
    WorklistVisitsTheTree([root], restricted);
    TreeIsGood(root, restricted);
    var tree, commands := Tree(root, restricted), Scanned([root], restricted).value;
    assert Forest([root], restricted) == tree + Forest([], restricted) && tree + [] == tree;
    GoodInAnyOrder(root.id, tree, commands);
  }

  lemma GoodInAnyOrder(id: CommandIdentity, a: seq<CommandNode>, b: seq<CommandNode>)
    requires GoodTree(id, a) && multiset(a) == multiset(b)
    ensures GoodTree(id, b)
  {
    hide Canonical, DistinctKeys;
    SameElements(a, b);
    DistinctIsDistinctBag(PathKey, a);
    DistinctIsDistinctBag(PathKey, b);
    forall c | c in b ensures c.path == id.path || ParentIn(c, b) {
      assert c in a;
      if c.path != id.path {
        var d :| d in a && d.path == c.path[..|c.path| - 1];
        assert d in b;
      }
    }
  }

  /** One root's commands are whole. */
  lemma GoodIsWhole(id: CommandIdentity, commands: seq<CommandNode>)
    requires GoodTree(id, commands) && id.path == []
    ensures Whole(commands) && forall c :: c in commands ==> Below(id, c)
  {
    hide Canonical;
    forall i, j | 0 <= i < j < |commands| ensures IdentityOf(commands[i]) != IdentityOf(commands[j]) {
      assert PathKey(commands[i]) != PathKey(commands[j]);
    }
    forall c | c in commands ensures HasParent(c, commands) {
      if c.path != [] {
        var d :| d in commands && d.path == c.path[..|c.path| - 1];
        assert Below(id, d) && Below(id, c);
      }
    }
  }

  predicate SeparateRoots(a: seq<CommandNode>, b: seq<CommandNode>) {
    forall c, d :: c in a && d in b ==> c.space != d.space || c.namespace != d.namespace
  }

  lemma WholeJoined(a: seq<CommandNode>, b: seq<CommandNode>)
    requires Whole(a) && Whole(b) && SeparateRoots(a, b)
    ensures Whole(a + b)
  {
    hide Canonical;
    var all := a + b;
    forall i, j | 0 <= i < j < |all| ensures IdentityOf(all[i]) != IdentityOf(all[j]) {
      if i < |a| <= j { assert all[i] in a && all[j] in b; }
    }
    forall c | c in all ensures HasParent(c, all) {
      if c.path != [] {
        if c in a {
          var d :| d in a && Some(IdentityOf(d)) == ParentId(IdentityOf(c));
          assert d in all;
        } else {
          var d :| d in b && Some(IdentityOf(d)) == ParentId(IdentityOf(c));
          assert d in all;
        }
      }
    }
  }

  predicate AmongModules(modules: seq<ModuleRoot>, c: CommandNode) {
    c.space == Module && exists m :: m in modules && c.namespace == Some(m.namespace)
  }

  lemma {:induction false} ModulesAreWhole(modules: seq<ModuleRoot>, restricted: (Entry, CommandIdentity) -> bool)
    requires ModulesDeclared(modules) && ScannedModules(modules, restricted).Some?
    ensures var commands := ScannedModules(modules, restricted).value;
            Whole(commands) && forall c :: c in commands ==> AmongModules(modules, c)
  {
    hide Scanned, WellFormed, ValidModuleNamespace, Canonical, GoodTree, Whole;
    if modules == [] {
      EmptyIsWhole();
    } else {
      var n := |modules| - 1;
      var front, last := modules[..n], modules[n];
      assert modules == front + [last] && last in modules;
      ModulesAreWhole(front, restricted);
      var commands := ScannedModules(front, restricted).value;
      forall c | c in commands ensures AmongModules(modules, c) && c.namespace != Some(last.namespace) {
        var m :| m in front && c.namespace == Some(m.namespace);
        var i :| 0 <= i < n && modules[i] == m;
        assert m in modules && modules[i].namespace != modules[n].namespace;
      }
      if ScannedModule(last, restricted).Some? {
        var scanned := ScannedModule(last, restricted).value;
        if last.found.Present? {
          var root := ModuleRootId(last.namespace);
          ScannedIsGood(Pending(last.found.directory, root), restricted);
          GoodIsWhole(root, scanned);
        } else {
          EmptyIsWhole();
        }
        WholeJoined(commands, scanned);
      }
    }
  }

  lemma EmptyIsWhole()
    ensures Whole([])
  {
  }

  lemma WholeInAnyOrder(a: seq<CommandNode>, b: seq<CommandNode>)
    requires Whole(a) && multiset(a) == multiset(b)
    ensures Whole(b)
  {
    hide Canonical;
    SameElements(a, b);
    DistinctInAnyOrder(a, b);
    forall c | c in b ensures HasParent(c, b) {
      assert c in a;
      if c.path != [] {
        var d :| d in a && Some(IdentityOf(d)) == ParentId(IdentityOf(c));
        assert d in b;
      }
    }
  }

  function IdentityKey(c: CommandNode): Key {
    [if c.space.System? then "0" else "1", if c.namespace.Some? then c.namespace.value else ""] + c.path
  }

  lemma DistinctInAnyOrder(a: seq<CommandNode>, b: seq<CommandNode>)
    requires multiset(a) == multiset(b) && DistinctIdentities(a) && forall c :: c in a ==> Canonical(c)
    ensures DistinctIdentities(b)
  {
    hide CatalogAddress, ValidModuleNamespace, CommandIdentity.Valid;
    SameElements(a, b);
    forall c, d | c in a && d in a && IdentityKey(c) == IdentityKey(d) ensures IdentityOf(c) == IdentityOf(d) {
      IdentityKeyIsInjective(c, d);
    }
    assert DistinctKeys(IdentityKey, a) by {
      forall i, j | 0 <= i < j < |a| ensures IdentityKey(a[i]) != IdentityKey(a[j]) {
        assert a[i] in a && a[j] in a;
      }
    }
    DistinctIsDistinctBag(IdentityKey, a);
    DistinctIsDistinctBag(IdentityKey, b);
    forall i, j | 0 <= i < j < |b| ensures IdentityOf(b[i]) != IdentityOf(b[j]) {
      assert IdentityKey(b[i]) != IdentityKey(b[j]);
    }
  }

  lemma IdentityKeyIsInjective(c: CommandNode, d: CommandNode)
    requires Placed(IdentityOf(c)) && Placed(IdentityOf(d)) && IdentityKey(c) == IdentityKey(d)
    ensures IdentityOf(c) == IdentityOf(d)
  {
    hide ValidModuleNamespace, CommandIdentity.Valid;
    assert IdentityKey(c)[0] == IdentityKey(d)[0] && IdentityKey(c)[1] == IdentityKey(d)[1];
    assert IdentityKey(c)[2..] == c.path && IdentityKey(d)[2..] == d.path;
    assert "0"[0] != "1"[0];
  }

  /** Distinct identities have distinct Catalog addresses, the roots' own included. */
  lemma CatalogAddressIsInjective(a: CommandIdentity, b: CommandIdentity)
    requires Placed(a) && Placed(b) && CatalogAddress(a) == CatalogAddress(b)
    ensures a == b
  {
    hide ValidModuleNamespace, CommandIdentity.Valid, CommandIdentity.Address, JoinOn;
    if a.path != [] && b.path != [] {
      AddressIsInjective(a, b);
    } else if a.path == [] && b.path == [] {
      RootAddress(a);
      RootAddress(b);
    } else if a.path == [] {
      RootAddress(a);
      CommandAddress(b);
    } else {
      RootAddress(b);
      CommandAddress(a);
    }
  }

  lemma RootAddress(id: CommandIdentity)
    requires Placed(id) && id.path == []
    ensures var address := CatalogAddress(id);
            Lacks(address, '/') && (address == "" <==> id.space.System?) && (address != "" ==> address[0] != '.')
  {
    if id.space.Module? { SegmentHasNoSlash(id.namespace.value); }
  }

  lemma CommandAddress(id: CommandIdentity)
    requires Placed(id) && id.path != []
    ensures var address := CatalogAddress(id);
            address != "" && (address[0] == '.' || !Lacks(address, '/'))
  {
    hide JoinOn;
    if id.space.Module? { assert id.Address()[|id.namespace.value|] == '/'; }
  }

  lemma WholeIsDiscovered(commands: seq<CommandNode>)
    requires Whole(commands)
    ensures Discovered(commands)
    ensures forall c :: c in commands && c.path != [] ==> exists d :: d in commands && c.parent == Some(d.address)
  {
    hide CatalogAddress, ValidModuleNamespace, CommandIdentity.Valid, WellPlaced;
    forall i, j | 0 <= i < j < |commands| ensures commands[i].address != commands[j].address {
      assert commands[i] in commands && commands[j] in commands;
      if commands[i].address == commands[j].address {
        CatalogAddressIsInjective(IdentityOf(commands[i]), IdentityOf(commands[j]));
      }
    }
    forall c | c in commands ensures WellPlaced(c) {
      CanonicalIsPlaced(c);
    }
    forall c | c in commands && c.path != [] ensures exists d :: d in commands && c.parent == Some(d.address) {
      var d :| d in commands && Some(IdentityOf(d)) == ParentId(IdentityOf(c));
    }
  }

  lemma CanonicalIsPlaced(c: CommandNode)
    requires Canonical(c)
    ensures WellPlaced(c)
  {
    hide ValidModuleNamespace, CommandIdentity.Address;
  }

  /**
   Whatever the directory trees, discovery terminates, and the Catalog it yields has pairwise distinct
   canonical addresses across the system and all modules, every command's parent, and the form that
   native ownership is resolved from.
   */
  lemma DiscoveryIsWellFormed(system: Directory, modules: seq<ModuleRoot>, restricted: (Entry, CommandIdentity) -> bool)
    requires WellFormed(system) && ModulesDeclared(modules) && Discovery(system, modules, restricted).Some?
    ensures var commands := Discovery(system, modules, restricted).value;
            && Discovered(commands)
            && (forall c :: c in commands ==> Canonical(c))
            && (forall c :: c in commands && c.path != [] ==> exists d :: d in commands && c.parent == Some(d.address))
  {
    hide Scanned, ScannedModules, WellFormed, Canonical, GoodTree, Whole, Sort, Discovered;
    ModulesNamed(modules);
    var own := Scanned([Pending(system, SYSTEM_ROOT)], restricted).value;
    var scanned := ScannedModules(modules, restricted).value;
    ScannedIsGood(Pending(system, SYSTEM_ROOT), restricted);
    GoodIsWhole(SYSTEM_ROOT, own);
    ModulesAreWhole(modules, restricted);
    WholeJoined(own, scanned);
    SortProperties(CatalogKey, own + scanned);
    var commands := Sort(CatalogKey, own + scanned);
    WholeInAnyOrder(own + scanned, commands);
    WholeIsDiscovered(commands);
    WholeIsCanonical(commands);
  }

  lemma ModulesNamed(modules: seq<ModuleRoot>)
    requires ModulesDeclared(modules)
    ensures forall m :: m in modules ==> ValidModuleNamespace(m.namespace)
  {
    hide ValidModuleNamespace;
  }

  lemma WholeIsCanonical(commands: seq<CommandNode>)
    requires Whole(commands)
    ensures forall c :: c in commands ==> Canonical(c)
  {
    hide Canonical;
  }
}
