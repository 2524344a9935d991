/** Which native command executes each delegate, decided over the whole discovered Catalog. */
module NativeOwner {
  import opened CommandIdentity
  import opened CommandModel
  import opened Ordering
  import opened Wrappers

  datatype NativeEntry = NativeEntry(
    space: CommandSpace, namespace: Option<string>, path: seq<string>,
    adapter: Option<CommandAdapter>, declaresNative: bool)

  /** Why a delegate is refused, with the addresses that the diagnostic names. */
  datatype OwnerError =
    | NoOwnerDeclared(command: string)
    | OwnerMissing(owner: string)
    | OwnerElsewhere(owner: string)
    | OwnerIdentityInvalid(error: IdentityError)
    | CommandIdentityInvalid(error: IdentityError)
    | OwnerNotAncestor(owner: string, command: string)
    | CrossesNestedOwner(command: string, nested: string, owner: string)
    | OwnerNotNative(owner: string)

  function EntryOf(c: CommandNode): NativeEntry {
    NativeEntry(c.space, c.namespace, c.path, c.adapter, c.declaresNative)
  }

  /** The Catalog by address; a later command replaces an earlier one. */
  function Entries(commands: seq<CommandNode>): map<string, NativeEntry> {
    if commands == [] then map[]
    else
      var last := commands[|commands| - 1];
      Entries(commands[..|commands| - 1])[last.address := EntryOf(last)]
  }

  function IdentityOfEntry(e: NativeEntry): Result<CommandIdentity, IdentityError> {
    NewIdentity(e.space, e.namespace, e.path)
  }

  /** A command that declares native execution strictly between the owner and its delegate. */
  predicate NestedOwner(entries: map<string, NativeEntry>, address: string, owner: CommandIdentity, command: CommandIdentity) {
    && address in entries && entries[address].declaresNative
    && var nested := IdentityOfEntry(entries[address]);
    && nested.Ok? && owner.IsTrueAncestorOf(nested.value) && nested.value.IsTrueAncestorOf(command)
  }

  lemma {:induction false} LeastExists(s: set<string>) returns (least: string)
    requires s != {}
    ensures least in s && forall a :: a in s ==> StringLe(least, a)
    decreases |s|
  {
    hide StringLe;
    var a :| a in s;
    StringReflexive(a);
    if s == {a} {
      least := a;
    } else {
      var rest := s - {a};
      assert s == rest + {a};
      least := LeastExists(rest);
      StringTotal(least, a);
      if !StringLe(least, a) {
        forall b | b in rest ensures StringLe(a, b) { StringTransitive(a, least, b); }
        least := a;
      }
    }
  }

  lemma OneLeast(s: set<string>)
    ensures s != {} ==> exists least :: least in s && forall a :: a in s ==> StringLe(least, a)
    ensures forall a, b :: a in s && b in s && StringLe(a, b) && StringLe(b, a) ==> a == b
  {
    hide StringLe;
    if s != {} { var least := LeastExists(s); }
    forall a, b | a in s && b in s && StringLe(a, b) && StringLe(b, a) ensures a == b { StringTotal(a, b); }
  }

  /** The first address, in the order of the map. */
  function Least(s: set<string>): (least: string)
    requires s != {}
    ensures least in s && forall a :: a in s ==> StringLe(least, a)
  {
    OneLeast(s);
    var least :| least in s && forall a :: a in s ==> StringLe(least, a);
    least
  }

  function NestedOwners(entries: map<string, NativeEntry>, owner: CommandIdentity, command: CommandIdentity): set<string> {
    set nested | nested in entries && NestedOwner(entries, nested, owner, command)
  }

  function DelegatedNativeOwner(entries: map<string, NativeEntry>, command: CommandNode): Result<string, OwnerError> {
    if command.delegateOwner == None then Err(NoOwnerDeclared(command.address))
    else
      var address := command.delegateOwner.value;
      if address !in entries then Err(OwnerMissing(address))
      else
        var entry := entries[address];
        if entry.space != command.space || entry.namespace != command.namespace then Err(OwnerElsewhere(address))
        else
          var owner, own := IdentityOfEntry(entry), IdentityOfEntry(EntryOf(command));
          if owner.Err? then Err(OwnerIdentityInvalid(owner.error))
          else if own.Err? then Err(CommandIdentityInvalid(own.error))
          else if !owner.value.IsTrueAncestorOf(own.value) then Err(OwnerNotAncestor(address, command.address))
          else if NestedOwners(entries, owner.value, own.value) != {} then
            Err(CrossesNestedOwner(command.address, Least(NestedOwners(entries, owner.value, own.value)), address))
          else if entry.adapter != Some(CommandAdapter.Native) then Err(OwnerNotNative(address))
          else Ok(address)
  }

  /** The text of an identity error; `NewIdentity` never reports the last. */
  function IdentityMessage(error: IdentityError): string {
    match error
    case InvalidPath => "invalid canonical command identity path"
    case IncompatibleNamespace => "command identity space and namespace are incompatible"
    case AddressTooLong => "canonical command identity exceeds its address limit"
    case InvalidAddress => "invalid canonical command address"
  }

  function Describe(error: OwnerError): string {
    match error
    case NoOwnerDeclared(command) => "delegated command '" + command + "' has no execution owner declaration"
    case OwnerMissing(owner) => "delegated execution owner '" + owner + "' is missing from the Catalog"
    case OwnerElsewhere(owner) => "delegated execution owner '" + owner + "' has an incompatible space and namespace"
    case OwnerIdentityInvalid(error) => "invalid delegated execution owner identity: " + IdentityMessage(error)
    case CommandIdentityInvalid(error) => "invalid delegated command identity: " + IdentityMessage(error)
    case OwnerNotAncestor(owner, command) => "delegated execution owner '" + owner + "' must be an ancestor of '" + command + "'"
    case CrossesNestedOwner(command, nested, owner) =>
      "delegated command '" + command + "' cannot cross nested native owner '" + nested + "' to reach '" + owner + "'"
    case OwnerNotNative(owner) => "delegated execution owner '" + owner + "' must declare native execution"
  }

  function Invalidated(c: CommandNode, diagnostic: string): CommandNode {
    c.(runnable := false, entry := None, adapter := None, handler := None, product := None,
       diagnostic := Some(if c.diagnostic.Some? then c.diagnostic.value + "; " + diagnostic else diagnostic))
  }

  function ResolveOne(entries: map<string, NativeEntry>, c: CommandNode): CommandNode {
    if !c.runnable then c
    else if c.adapter == Some(CommandAdapter.Native) then c.(nativeOwner := Some(c.address))
    else if c.adapter == Some(CommandAdapter.Delegate) then
      match DelegatedNativeOwner(entries, c)
      case Ok(owner) => c.(nativeOwner := Some(owner))
      case Err(error) => Invalidated(c, Describe(error))
    else c
  }

  function Resolved(commands: seq<CommandNode>): (resolved: seq<CommandNode>)
    ensures |resolved| == |commands|
  {
    seq(|commands|, i requires 0 <= i < |commands| => ResolveOne(Entries(commands), commands[i]))
  }

  method ResolveNativeOwners(commands: array<CommandNode>)
    modifies commands
    ensures commands[..] == Resolved(old(commands[..]))
  {
    hide DelegatedNativeOwner, Describe;
    var entries := Entries(commands[..]);
    var i := 0;
    while i < commands.Length
      invariant 0 <= i <= commands.Length
      invariant forall j :: 0 <= j < i ==> commands[j] == ResolveOne(entries, old(commands[j]))
      invariant forall j :: i <= j < commands.Length ==> commands[j] == old(commands[j])
    {
      var command := commands[i];
      if command.adapter == Some(CommandAdapter.Native) && command.runnable {
        commands[i] := command.(nativeOwner := Some(command.address));
      } else if command.adapter == Some(CommandAdapter.Delegate) && command.runnable {
        match DelegatedNativeOwner(entries, command) {
          case Ok(owner) => commands[i] := command.(nativeOwner := Some(owner));
          case Err(error) => commands[i] := Invalidated(command, Describe(error));
        }
      }
      i := i + 1;
    }
  }

  // ---------------------------------------------------------------- what discovery hands over

  function IdentityOf(c: CommandNode): CommandIdentity {
    CommandIdentity(c.space, c.namespace, c.path)
  }

  /** A root has no identity and is never native or a delegate; any other command has its canonical address. */
  predicate WellPlaced(c: CommandNode) {
    if c.path == [] then c.adapter != Some(CommandAdapter.Native) && c.adapter != Some(CommandAdapter.Delegate)
    else IdentityOf(c).HasNamespace() && IdentityOf(c).Valid() && c.address == IdentityOf(c).Address()
  }

  predicate DistinctAddresses(commands: seq<CommandNode>) {
    forall i, j :: 0 <= i < j < |commands| ==> commands[i].address != commands[j].address
  }

  /** The Catalog as discovery leaves it before owners are resolved. */
  predicate Discovered(commands: seq<CommandNode>) {
    && DistinctAddresses(commands)
    && forall c :: c in commands ==>
         WellPlaced(c) && c.aliasOf == None && c.nativeOwner == None && (c.runnable <==> c.adapter.Some?)
  }

  lemma {:induction false} EntriesMembers(commands: seq<CommandNode>)
    requires DistinctAddresses(commands)
    ensures forall c :: c in commands ==> c.address in Entries(commands) && Entries(commands)[c.address] == EntryOf(c)
    ensures forall a :: a in Entries(commands) ==> exists c :: c in commands && c.address == a
  {
    if commands != [] {
      var n := |commands| - 1;
      var front, last := commands[..n], commands[n];
      EntriesMembers(front);
      assert commands == front + [last];
      forall c | c in commands
        ensures c.address in Entries(commands) && Entries(commands)[c.address] == EntryOf(c)
      {
        var i :| 0 <= i < |commands| && commands[i] == c;
        if i < n { assert c in front && c.address != last.address; }
      }
    }
  }

  // ---------------------------------------------------------------- ownership is exact

  /** A command that declares native execution strictly between two identities. */
  predicate Between(d: CommandNode, owner: CommandIdentity, command: CommandIdentity) {
    d.declaresNative && d.path != [] && owner.IsTrueAncestorOf(IdentityOf(d)) && IdentityOf(d).IsTrueAncestorOf(command)
  }

  /** `o` may execute the delegate `c`: a native strict ancestor with no native declaration strictly between. */
  predicate MayExecute(commands: seq<CommandNode>, o: CommandNode, c: CommandNode) {
    && o in commands && o.runnable && o.adapter == Some(CommandAdapter.Native)
    && IdentityOf(o).IsTrueAncestorOf(IdentityOf(c))
    && !exists d :: d in commands && Between(d, IdentityOf(o), IdentityOf(c))
  }

  lemma NestedEntryIsBetween(entries: map<string, NativeEntry>, d: CommandNode, owner: CommandIdentity, command: CommandIdentity)
    requires d.address in entries && entries[d.address] == EntryOf(d) && WellPlaced(d)
    ensures NestedOwner(entries, d.address, owner, command) <==> Between(d, owner, command)
  {
    hide ValidCommandSegment, ValidModuleNamespace, CommandIdentity.Address;
  }

  lemma EntryMember(commands: seq<CommandNode>, a: string) returns (d: CommandNode)
    requires Discovered(commands) && a in Entries(commands)
    ensures d in commands && d.address == a && Entries(commands)[a] == EntryOf(d) && WellPlaced(d)
  {
    hide WellPlaced, Entries;
    EntriesMembers(commands);
    d :| d in commands && d.address == a;
  }

  lemma MemberEntry(commands: seq<CommandNode>, d: CommandNode)
    requires Discovered(commands) && d in commands
    ensures d.address in Entries(commands) && Entries(commands)[d.address] == EntryOf(d) && WellPlaced(d)
  {
    hide WellPlaced, Entries;
    EntriesMembers(commands);
  }

  lemma NestedOwnerIsMember(commands: seq<CommandNode>, owner: CommandIdentity, command: CommandIdentity)
    requires Discovered(commands)
    ensures NestedOwners(Entries(commands), owner, command) != {} <==>
            exists d :: d in commands && Between(d, owner, command)
  {
    hide Entries, NestedOwner, Between, WellPlaced;
    var entries := Entries(commands);
    if NestedOwners(entries, owner, command) != {} {
      var a :| a in NestedOwners(entries, owner, command);
      var d := EntryMember(commands, a);
      NestedEntryIsBetween(entries, d, owner, command);
    }
    if d :| d in commands && Between(d, owner, command) {
      MemberEntry(commands, d);
      NestedEntryIsBetween(entries, d, owner, command);
      assert d.address in NestedOwners(entries, owner, command);
    }
  }

  /** A runnable delegate gets the owner it declares exactly when that owner may execute it. */
  lemma DelegateGetsDeclaredOwner(commands: seq<CommandNode>, c: CommandNode)
    requires Discovered(commands) && c in commands && c.runnable && c.adapter == Some(CommandAdapter.Delegate)
    ensures var found := DelegatedNativeOwner(Entries(commands), c);
            && (found.Ok? ==> c.delegateOwner == Some(found.value))
            && (found.Ok? <==>
                exists o :: MayExecute(commands, o, c) && c.delegateOwner == Some(o.address))
  {
    hide Entries, NestedOwners, Between, ValidCommandSegment, ValidModuleNamespace, CommandIdentity.Address, StringLe;
    var entries := Entries(commands);
    MemberEntry(commands, c);
    if c.delegateOwner.Some? && c.delegateOwner.value in entries {
      var o := EntryMember(commands, c.delegateOwner.value);
      NestedOwnerIsMember(commands, IdentityOf(o), IdentityOf(c));
      forall other | MayExecute(commands, other, c) && other.address == o.address ensures other == o {
        SameAddressSameCommand(commands, other, o);
      }
      if DelegatedNativeOwner(entries, c).Ok? {
        assert MayExecute(commands, o, c);
      }
    } else if o :| MayExecute(commands, o, c) && c.delegateOwner == Some(o.address) {
      MemberEntry(commands, o);
    }
  }

  lemma SameAddressSameCommand(commands: seq<CommandNode>, a: CommandNode, b: CommandNode)
    requires DistinctAddresses(commands) && a in commands && b in commands && a.address == b.address
    ensures a == b
  {
    var i :| 0 <= i < |commands| && commands[i] == a;
    var j :| 0 <= j < |commands| && commands[j] == b;
  }

  lemma ResolvedKeeps(commands: seq<CommandNode>)
    ensures |Resolved(commands)| == |commands|
    ensures forall i :: 0 <= i < |commands| ==>
              var c, r := commands[i], Resolved(commands)[i];
              && r.address == c.address && IdentityOf(r) == IdentityOf(c) && r.aliasOf == c.aliasOf
              && r.declaresNative == c.declaresNative && r.requirements == c.requirements && r.provisions == c.provisions
              && (c.adapter == Some(CommandAdapter.Native) && c.runnable ==>
                    r.runnable && r.adapter == c.adapter && r.nativeOwner == Some(c.address))
              && (r.adapter == Some(CommandAdapter.Native) ==> c.adapter == r.adapter && (r.runnable <==> c.runnable))
              && (r.adapter == Some(CommandAdapter.Delegate) ==> c.adapter == r.adapter && (r.runnable <==> c.runnable))
  {
    hide DelegatedNativeOwner, Describe, Entries;
  }

  /** Owners may execute after resolution exactly what they could before: no native command is ever invalidated. */
  lemma MayExecuteIsStable(commands: seq<CommandNode>, i: nat, j: nat)
    requires Discovered(commands) && i < |commands| && j < |commands|
    ensures MayExecute(Resolved(commands), Resolved(commands)[i], Resolved(commands)[j])
            <==> MayExecute(commands, commands[i], commands[j])
  {
    hide Resolved;
    ResolvedKeeps(commands);
    var resolved := Resolved(commands);
    assert resolved[i] in resolved && commands[i] in commands;
    var o, c := IdentityOf(commands[i]), IdentityOf(commands[j]);
    if MayExecute(resolved, resolved[i], resolved[j]) {
      forall d | d in commands ensures !Between(d, o, c)
      {
        var k :| 0 <= k < |commands| && commands[k] == d;
        assert resolved[k] in resolved;
      }
    }
    if MayExecute(commands, commands[i], commands[j]) {
      forall d | d in resolved ensures !Between(d, o, c)
      {
        var k :| 0 <= k < |resolved| && resolved[k] == d;
        assert commands[k] in commands;
      }
    }
  }

  /**
   After resolution a runnable delegate names an owner of the resolved Catalog that may execute it, and
   a delegate stays runnable exactly when the owner it declared is such.
   */
  lemma OwnershipIsExact(commands: seq<CommandNode>, j: nat)
    requires Discovered(commands) && j < |commands|
    requires commands[j].runnable && commands[j].adapter == Some(CommandAdapter.Delegate)
    ensures var resolved := Resolved(commands);
            var c := resolved[j];
            && (c.runnable <==>
                exists i :: 0 <= i < |resolved| && MayExecute(resolved, resolved[i], c)
                            && commands[j].delegateOwner == Some(resolved[i].address))
            && (c.runnable ==> c.adapter == Some(CommandAdapter.Delegate) && c.nativeOwner == commands[j].delegateOwner)
            && (!c.runnable ==> c.adapter == None && c.nativeOwner == None && c.diagnostic.Some?)
  {
    hide DelegatedNativeOwner, Describe, Entries, MayExecute;
    var resolved := Resolved(commands);
    DelegateGetsDeclaredOwner(commands, commands[j]);
    ResolvedKeeps(commands);
    var found := DelegatedNativeOwner(Entries(commands), commands[j]);
    if found.Ok? {
      var o :| MayExecute(commands, o, commands[j]) && commands[j].delegateOwner == Some(o.address);
      ExecutorIsMember(commands, o, commands[j]);
      var i :| 0 <= i < |commands| && commands[i] == o;
      MayExecuteIsStable(commands, i, j);
    }
    if i :| 0 <= i < |resolved| && MayExecute(resolved, resolved[i], resolved[j])
            && commands[j].delegateOwner == Some(resolved[i].address) {
      MayExecuteIsStable(commands, i, j);
    }
  }

  lemma ExecutorIsMember(commands: seq<CommandNode>, o: CommandNode, c: CommandNode)
    requires MayExecute(commands, o, c)
    ensures o in commands
  {
  }

  lemma PrefixesCompare<T>(a: seq<T>, b: seq<T>, whole: seq<T>)
    requires a <= whole && b <= whole
    ensures |a| <= |b| ==> a <= b
  {
  }

  /** When native adapters declare native, the owner is the nearest native command above the delegate. */
  lemma OwnerIsNearestNative(commands: seq<CommandNode>, o: CommandNode, n: CommandNode, c: CommandNode)
    requires MayExecute(commands, o, c)
    requires n in commands && n.path != [] && n.adapter == Some(CommandAdapter.Native) && n.declaresNative
    requires IdentityOf(n).IsTrueAncestorOf(IdentityOf(c))
    ensures IdentityOf(n) == IdentityOf(o) || IdentityOf(n).IsTrueAncestorOf(IdentityOf(o))
  {
    PrefixesCompare(o.path, n.path, c.path);
    PrefixesCompare(n.path, o.path, c.path);
  }
}
