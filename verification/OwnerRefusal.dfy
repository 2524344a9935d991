/** What resolution does to each command of the Catalog, and what it says of a delegate it refuses. */
module OwnerRefusal {
  import opened CommandIdentity
  import opened CommandModel
  import opened NativeOwner
  import opened Ordering
  import opened Wrappers

  /** The diagnostic is added behind the one the command has already. */
  ghost function With(diagnostic: Option<string>, said: string): Option<string> {
    if diagnostic == None then Some(said) else Some(diagnostic.value + "; " + said)
  }

  ghost predicate IsDelegate(c: CommandNode) {
    c.runnable && c.adapter == Some(CommandAdapter.Delegate)
  }

  /** The command no longer runs; everything else about it stays. */
  ghost function Refused(c: CommandNode, said: string): CommandNode {
    c.(runnable := false, entry := None, adapter := None, handler := None, product := None, diagnostic := With(c.diagnostic, said))
  }

  /** Everything but runnable delegates: a runnable native command owns itself, and any other is left as it is. */
  lemma OthersAreKept(commands: seq<CommandNode>, j: nat)
    requires j < |commands| && !IsDelegate(commands[j])
    ensures var c := commands[j];
            Resolved(commands)[j]
            == if c.runnable && c.adapter == Some(CommandAdapter.Native) then c.(nativeOwner := Some(c.address)) else c
  {
    hide Entries;
  }

  /** An accepted delegate is given the owner it declares, and nothing else about it changes. */
  lemma AcceptedDelegate(commands: seq<CommandNode>, j: nat)
    requires Discovered(commands) && j < |commands| && IsDelegate(commands[j])
    requires exists o :: MayExecute(commands, o, commands[j]) && commands[j].delegateOwner == Some(o.address)
    ensures Resolved(commands)[j] == commands[j].(nativeOwner := commands[j].delegateOwner)
  {
    hide Entries, DelegatedNativeOwner, MayExecute, Discovered;
    assert commands[j] in commands;
    DelegateGetsDeclaredOwner(commands, commands[j]);
  }

  lemma NoOwner(commands: seq<CommandNode>, j: nat)
    requires j < |commands| && IsDelegate(commands[j]) && commands[j].delegateOwner == None
    ensures Resolved(commands)[j]
            == Refused(commands[j], "delegated command '" + commands[j].address + "' has no execution owner declaration")
  {
    hide Entries;
  }

  lemma NoSuchOwner(commands: seq<CommandNode>, j: nat, owner: string)
    requires Discovered(commands) && j < |commands| && IsDelegate(commands[j]) && commands[j].delegateOwner == Some(owner)
    requires forall o :: o in commands ==> o.address != owner
    ensures Resolved(commands)[j]
            == Refused(commands[j], "delegated execution owner '" + owner + "' is missing from the Catalog")
  {
    hide Entries, WellPlaced;
    EntriesMembers(commands);
  }

  /** What stands in the way of the owner `o` that `c` declares, in the order of the checks. */
  ghost function Objection(commands: seq<CommandNode>, o: CommandNode, c: CommandNode): Option<string> {
    if o.space != c.space || o.namespace != c.namespace then
      Some("delegated execution owner '" + o.address + "' has an incompatible space and namespace")
    else if o.path == [] then
      Some("invalid delegated execution owner identity: " + "invalid canonical command identity path")
    else if !(|o.path| < |c.path| && o.path == c.path[..|o.path|]) then
      Some("delegated execution owner '" + o.address + "' must be an ancestor of '" + c.address + "'")
    else if exists d :: d in commands && LiesBetween(d, o, c) then
      var d := FirstBetween(commands, o, c);
      Some("delegated command '" + c.address + "' cannot cross nested native owner '" + d.address + "' to reach '" + o.address + "'")
    else if o.adapter != Some(CommandAdapter.Native) then
      Some("delegated execution owner '" + o.address + "' must declare native execution")
    else None
  }

  /** `d` declares native execution below `o` and above `c`. */
  ghost predicate LiesBetween(d: CommandNode, o: CommandNode, c: CommandNode) {
    && d.declaresNative && d.space == o.space == c.space && d.namespace == o.namespace == c.namespace
    && |o.path| < |d.path| < |c.path| && o.path <= d.path <= c.path
  }

  ghost predicate IsFirstBetween(commands: seq<CommandNode>, o: CommandNode, c: CommandNode, d: CommandNode) {
    d in commands && LiesBetween(d, o, c) && forall e :: e in commands && LiesBetween(e, o, c) ==> StringLe(d.address, e.address)
  }

  lemma BetweenIsLies(d: CommandNode, o: CommandNode, c: CommandNode)
    requires o.space == c.space && o.namespace == c.namespace
    ensures Between(d, IdentityOf(o), IdentityOf(c)) <==> LiesBetween(d, o, c)
  {
  }

  lemma FirstExists(commands: seq<CommandNode>, o: CommandNode, c: CommandNode)
    requires exists d :: d in commands && LiesBetween(d, o, c)
    ensures exists d :: IsFirstBetween(commands, o, c, d)
  {
    hide LiesBetween, StringLe;
    var addresses := set d | d in commands && LiesBetween(d, o, c) :: d.address;
    var some :| some in commands && LiesBetween(some, o, c);
    assert some.address in addresses;
    var least := LeastExists(addresses);
    var d :| d in commands && LiesBetween(d, o, c) && d.address == least;
    forall e | e in commands && LiesBetween(e, o, c) ensures StringLe(d.address, e.address) {
      assert e.address in addresses;
    }
    assert IsFirstBetween(commands, o, c, d);
  }

  /** The command between the two whose address comes first. */
  ghost function FirstBetween(commands: seq<CommandNode>, o: CommandNode, c: CommandNode): (d: CommandNode)
    requires exists d :: d in commands && LiesBetween(d, o, c)
    ensures IsFirstBetween(commands, o, c, d)
  {
    FirstExists(commands, o, c);
    var d :| IsFirstBetween(commands, o, c, d);
    d
  }

  /** The least of the nested owners is the first command between. */
  lemma LeastIsFirst(commands: seq<CommandNode>, o: CommandNode, c: CommandNode)
    requires Discovered(commands) && o.space == c.space && o.namespace == c.namespace
    ensures var nested := NestedOwners(Entries(commands), IdentityOf(o), IdentityOf(c));
            && (nested != {} <==> exists d :: d in commands && LiesBetween(d, o, c))
            && (nested != {} ==> Least(nested) == FirstBetween(commands, o, c).address)
  {
    hide Entries, NestedOwner, Between, LiesBetween, WellPlaced, StringLe;
    var entries := Entries(commands);
    var nested := NestedOwners(entries, IdentityOf(o), IdentityOf(c));
    NestedOwnerIsMember(commands, IdentityOf(o), IdentityOf(c));
    forall d ensures Between(d, IdentityOf(o), IdentityOf(c)) <==> LiesBetween(d, o, c) { BetweenIsLies(d, o, c); }
    if nested != {} {
      var least, d := Least(nested), FirstBetween(commands, o, c);
      var e := EntryMember(commands, least);
      NestedEntryIsBetween(entries, e, IdentityOf(o), IdentityOf(c));
      MemberEntry(commands, d);
      NestedEntryIsBetween(entries, d, IdentityOf(o), IdentityOf(c));
      assert d.address in nested;
      OneLeast({least, d.address});
    }
  }

  lemma IdentityMade(c: CommandNode)
    requires WellPlaced(c)
    ensures var made := IdentityOfEntry(EntryOf(c));
            if c.path == [] then made == Err(InvalidPath) else made == Ok(IdentityOf(c))
  {
    hide ValidCommandSegment, ValidModuleNamespace, CommandIdentity.Address;
  }

  lemma AboveIsAncestor(o: CommandNode, c: CommandNode)
    requires o.space == c.space && o.namespace == c.namespace
    ensures IdentityOf(o).IsTrueAncestorOf(IdentityOf(c)) <==> |o.path| < |c.path| && o.path == c.path[..|o.path|]
  {
  }

  lemma ObjectionIsError(commands: seq<CommandNode>, o: CommandNode, c: CommandNode)
    requires Discovered(commands) && c in commands && IsDelegate(c)
    requires o in commands && c.delegateOwner == Some(o.address)
    ensures match DelegatedNativeOwner(Entries(commands), c)
            case Err(error) => Objection(commands, o, c) == Some(Describe(error))
            case Ok(owner) => Objection(commands, o, c) == None && owner == o.address
  {
    hide Discovered, Entries, NestedOwners, LiesBetween, IdentityOfEntry, WellPlaced, Least, FirstBetween, CommandIdentity.IsTrueAncestorOf;
    MemberEntry(commands, o);
    if o.space == c.space && o.namespace == c.namespace { ObjectionInSpace(commands, o, c); }
  }

  /** The owner's and the delegate's identities as resolution makes them, in one space. */
  lemma IdentitiesInSpace(commands: seq<CommandNode>, o: CommandNode, c: CommandNode)
    requires Discovered(commands) && o in commands && c in commands && IsDelegate(c)
    ensures o.address in Entries(commands) && Entries(commands)[o.address] == EntryOf(o)
    ensures IdentityOfEntry(EntryOf(o)) == if o.path == [] then Err(InvalidPath) else Ok(IdentityOf(o))
    ensures IdentityOfEntry(EntryOf(c)) == Ok(IdentityOf(c))
  {
    hide Discovered, Entries, WellPlaced, IdentityOfEntry;
    MemberEntry(commands, o);
    MemberEntry(commands, c);
    DelegateHasPath(c);
    IdentityMade(o);
    IdentityMade(c);
  }

  lemma ObjectionInSpace(commands: seq<CommandNode>, o: CommandNode, c: CommandNode)
    requires Discovered(commands) && c in commands && IsDelegate(c)
    requires o in commands && c.delegateOwner == Some(o.address)
    requires o.space == c.space && o.namespace == c.namespace
    ensures match DelegatedNativeOwner(Entries(commands), c)
            case Err(error) => Objection(commands, o, c) == Some(Describe(error))
            case Ok(owner) => Objection(commands, o, c) == None && owner == o.address
  {
    hide Discovered, Entries, NestedOwners, LiesBetween, IdentityOfEntry, Least, FirstBetween, IdentityOf, CommandIdentity.IsTrueAncestorOf;
    IdentitiesInSpace(commands, o, c);
    AboveIsAncestor(o, c);
    LeastIsFirst(commands, o, c);
  }

  lemma DelegateHasPath(c: CommandNode)
    requires WellPlaced(c) && IsDelegate(c)
    ensures c.path != []
  {
  }

  /**
   A delegate whose declared owner is in the Catalog is accepted exactly when there is no objection, and
   refused with the first one otherwise.
   */
  lemma DeclaredOwnerDecides(commands: seq<CommandNode>, j: nat, o: CommandNode)
    requires Discovered(commands) && j < |commands| && IsDelegate(commands[j])
    requires o in commands && commands[j].delegateOwner == Some(o.address)
    ensures var c := commands[j];
            Resolved(commands)[j]
            == match Objection(commands, o, c)
               case Some(said) => Refused(c, said)
               case None => c.(nativeOwner := Some(o.address))
  {
    hide Entries, DelegatedNativeOwner, Objection, Describe, Discovered;
    assert commands[j] in commands;
    ObjectionIsError(commands, o, commands[j]);
  }
}
