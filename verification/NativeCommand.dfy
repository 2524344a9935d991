/** From a resolved Catalog to the execution contract and release of each native owner. */
module NativeCommand {
  import opened ByteStrings
  import Catalog
  import opened CommandIdentity
  import opened CommandModel
  import opened CommandRelease
  import opened ContractCanonical
  import opened Digest
  import opened ExecutionContract
  import opened NativeOwner
  import opened Ordering
  import opened Wrappers

  datatype NativeError =
    | NotANativeOwner(address: string)
    | IncompatibleMember(address: string)
    | BadContract(error: ContractError)

  predicate IsMember(c: CommandNode, owner: CommandNode) {
    c.aliasOf == None && (c.address == owner.address || c.nativeOwner == Some(owner.address))
  }

  function MemberOf(c: CommandNode, owner: string): Result<ContractCommand, NativeError> {
    if c.adapter == Some(CommandAdapter.Native) && c.address == owner then
      Ok(ContractCommand(c.address, NativeExecution, c.requirements, c.provisions))
    else if c.adapter == Some(CommandAdapter.Delegate) && c.nativeOwner == Some(owner) then
      Ok(ContractCommand(c.address, DelegateExecution(owner), c.requirements, c.provisions))
    else Err(IncompatibleMember(c.address))
  }

  /** The owner's members in Catalog order, or the first that does not fit. */
  function MembersOf(commands: seq<CommandNode>, owner: CommandNode): Result<seq<ContractCommand>, NativeError> {
    if commands == [] then Ok([])
    else if !IsMember(commands[0], owner) then MembersOf(commands[1..], owner)
    else
      match MemberOf(commands[0], owner.address)
      case Err(error) => Err(error)
      case Ok(member) =>
        match MembersOf(commands[1..], owner)
        case Err(error) => Err(error)
        case Ok(members) => Ok([member] + members)
  }

  function ExecutionContractOf(commands: seq<CommandNode>, owner: CommandNode): Result<Contract, NativeError> {
    if owner.adapter != Some(CommandAdapter.Native) || owner.nativeOwner != Some(owner.address) then
      Err(NotANativeOwner(owner.address))
    else
      match MembersOf(commands, owner)
      case Err(error) => Err(error)
      case Ok(members) =>
        match NewContract(owner.address, members)
        case Err(error) => Err(BadContract(error))
        case Ok(contract) => Ok(contract)
  }

  // ---------------------------------------------------------------- members

  predicate Fits(c: CommandNode, owner: CommandNode) {
    IsMember(c, owner) ==> MemberOf(c, owner.address).Ok?
  }

  lemma {:induction false} MembersCollected(commands: seq<CommandNode>, owner: CommandNode)
    requires forall c :: c in commands ==> Fits(c, owner)
    ensures MembersOf(commands, owner).Ok?
    ensures forall m :: m in MembersOf(commands, owner).value <==>
              exists c :: c in commands && IsMember(c, owner) && MemberOf(c, owner.address) == Ok(m)
  {
    hide IsMember, MemberOf;
    if commands != [] {
      var tail := commands[1..];
      assert commands == [commands[0]] + tail;
      MembersCollected(tail, owner);
      assert commands[0] in commands;
      var members := MembersOf(commands, owner).value;
      forall m ensures m in members <==> exists c :: c in commands && IsMember(c, owner) && MemberOf(c, owner.address) == Ok(m) {
        if c :| c in commands && IsMember(c, owner) && MemberOf(c, owner.address) == Ok(m) {
          if c != commands[0] { assert c in tail; }
        }
      }
    }
  }

  lemma MemberKeepsAddress(c: CommandNode, owner: string, m: ContractCommand)
    requires MemberOf(c, owner) == Ok(m)
    ensures m.address == c.address
  {
  }

  lemma {:induction false} MembersDistinct(commands: seq<CommandNode>, owner: CommandNode)
    requires DistinctAddresses(commands) && forall c :: c in commands ==> Fits(c, owner)
    ensures MembersOf(commands, owner).Ok? && DistinctKeys(AddressKey, MembersOf(commands, owner).value)
  {
    hide IsMember, MemberOf;
    if commands != [] {
      var tail := commands[1..];
      assert commands == [commands[0]] + tail;
      assert DistinctAddresses(tail) by {
        forall i, j | 0 <= i < j < |tail| ensures tail[i].address != tail[j].address {
          assert tail[i] == commands[i + 1] && tail[j] == commands[j + 1];
        }
      }
      forall c | c in tail ensures Fits(c, owner) {
        assert c in commands;
      }
      MembersDistinct(tail, owner);
      MembersCollected(tail, owner);
      assert commands[0] in commands && Fits(commands[0], owner);
      if IsMember(commands[0], owner) {
        var m := MemberOf(commands[0], owner.address).value;
        var members := MembersOf(tail, owner).value;
        forall other | other in members ensures AddressKey(other) != AddressKey(m) {
          var c :| c in tail && IsMember(c, owner) && MemberOf(c, owner.address) == Ok(other);
          var i :| 0 <= i < |tail| && tail[i] == c;
          assert commands[0].address != commands[i + 1].address;
          MemberKeepsAddress(c, owner.address, other);
          MemberKeepsAddress(commands[0], owner.address, m);
          assert AddressKey(other)[0] == other.address && AddressKey(m)[0] == m.address;
        }
        DistinctCons(AddressKey, m, members);
      }
    }
  }

  // ---------------------------------------------------------------- every native owner has a contract

  /** The capability lists of every member are valid, as loading a command requires. */
  predicate ListsAcceptable(commands: seq<CommandNode>, owner: CommandNode) {
    forall c :: c in commands && IsMember(c, owner) ==>
      AcceptableRequirements(c.requirements) && AcceptableProvisions(c.provisions)
  }

  /** What resolution makes true of every command that has a native owner. */
  lemma OwnedCommand(commands: seq<CommandNode>, j: nat)
    requires Discovered(commands) && j < |commands|
    ensures var c := Resolved(commands)[j];
            && WellPlaced(c)
            && (c.nativeOwner.Some? ==>
                  || (c.adapter == Some(CommandAdapter.Native) && c.nativeOwner == Some(c.address))
                  || (&& c.adapter == Some(CommandAdapter.Delegate)
                      && exists o :: MayExecute(commands, o, commands[j]) && c.nativeOwner == Some(o.address)))
  {
    hide Entries, DelegatedNativeOwner, MayExecute, Describe;
    assert commands[j] in commands;
    if commands[j].runnable && commands[j].adapter == Some(CommandAdapter.Delegate) {
      DelegateGetsDeclaredOwner(commands, commands[j]);
    }
  }

  lemma ResolvedIsDistinct(commands: seq<CommandNode>)
    requires DistinctAddresses(commands)
    ensures DistinctAddresses(Resolved(commands))
  {
    hide Resolved;
    ResolvedKeeps(commands);
  }

  /** A resolved command belongs to its owner's contract in exactly one role. */
  lemma ResolvedMemberFits(commands: seq<CommandNode>, i: nat, j: nat)
    requires Discovered(commands) && i < |commands| && j < |commands|
    requires var owner := Resolved(commands)[i];
             owner.adapter == Some(CommandAdapter.Native) && owner.nativeOwner == Some(owner.address)
    ensures var owner, c := Resolved(commands)[i], Resolved(commands)[j];
            && Fits(c, owner)
            && (IsMember(c, owner) && c.adapter == Some(CommandAdapter.Native) ==> c == owner)
            && (IsMember(c, owner) && c.adapter == Some(CommandAdapter.Delegate) ==>
                  MayExecute(commands, commands[i], commands[j]))
  {
    hide Resolved, MayExecute, WellPlaced;
    ResolvedKeeps(commands);
    ResolvedIsDistinct(commands);
    OwnedCommand(commands, j);
    var resolved := Resolved(commands);
    var owner, c := resolved[i], resolved[j];
    if IsMember(c, owner) {
      if c.address == owner.address {
        assert i == j;
      } else if c.adapter == Some(CommandAdapter.Delegate) {
        var o :| MayExecute(commands, o, commands[j]) && c.nativeOwner == Some(o.address);
        ExecutorIsMember(commands, o, commands[j]);
        SameAddressSameCommand(commands, o, commands[i]);
      }
    }
  }

  lemma ParseOfPlaced(c: CommandNode)
    requires WellPlaced(c) && c.path != []
    ensures Parse(c.address) == Ok(IdentityOf(c))
  {
    ParseOfAddress(IdentityOf(c));
  }

  lemma MemberIsAcceptable(commands: seq<CommandNode>, i: nat, j: nat, m: ContractCommand)
    requires Discovered(commands) && i < |commands| && j < |commands|
    requires var owner, c := Resolved(commands)[i], Resolved(commands)[j];
             && owner.adapter == Some(CommandAdapter.Native) && owner.nativeOwner == Some(owner.address)
             && IsMember(c, owner) && MemberOf(c, owner.address) == Ok(m)
             && AcceptableRequirements(c.requirements) && AcceptableProvisions(c.provisions)
    ensures Parse(Resolved(commands)[i].address).Ok?
    ensures AcceptableMember(Resolved(commands)[i].address, Parse(Resolved(commands)[i].address).value, m)
  {
    hide Resolved, Parse, AcceptableRequirements, AcceptableProvisions, CommandIdentity.Valid, CommandIdentity.Address;
    ResolvedKeeps(commands);
    OwnedCommand(commands, i);
    OwnedCommand(commands, j);
    ResolvedMemberFits(commands, i, j);
    var owner, c := Resolved(commands)[i], Resolved(commands)[j];
    ParseOfPlaced(owner);
    if c.adapter == Some(CommandAdapter.Delegate) {
      ParseOfPlaced(c);
    }
  }

  /** Every native owner of a resolved Catalog has a contract, given valid capability lists. */
  lemma NativeOwnersHaveContracts(commands: seq<CommandNode>, i: nat)
    requires Discovered(commands) && i < |commands|
    requires var owner := Resolved(commands)[i];
             && owner.adapter == Some(CommandAdapter.Native) && owner.nativeOwner == Some(owner.address)
             && ListsAcceptable(Resolved(commands), owner)
    ensures ExecutionContractOf(Resolved(commands), Resolved(commands)[i]).Ok?
  {
    hide Resolved, NewContract, AcceptableMember, Parse, MemberOf, Discovered, IsMember;
    var resolved := Resolved(commands);
    var owner := resolved[i];
    MembersOfOwner(commands, i);
    var members := MembersOf(resolved, owner).value;
    AcceptedExactlyWhen(owner.address, members);
  }

  /** From the directories to the contracts: discovery, ownership and contract construction fit together. */
  lemma DiscoveredOwnersHaveContracts(
    system: Catalog.Directory, modules: seq<Catalog.ModuleRoot>, restricted: (Catalog.Entry, CommandIdentity) -> bool, i: nat)
    requires Catalog.WellFormed(system) && Catalog.ModulesDeclared(modules)
    requires (forall m :: m in modules ==> ValidModuleNamespace(m.namespace)) && Catalog.Discovery(system, modules, restricted).Some?
    requires var commands := Catalog.Discovery(system, modules, restricted).value;
             && i < |commands|
             && var owner := Resolved(commands)[i];
             && owner.adapter == Some(CommandAdapter.Native) && owner.nativeOwner == Some(owner.address)
             && ListsAcceptable(Resolved(commands), owner)
    ensures var resolved := Resolved(Catalog.Discovery(system, modules, restricted).value);
            ExecutionContractOf(resolved, resolved[i]).Ok?
  {
    hide *;
    Catalog.DiscoveryIsWellFormed(system, modules, restricted);
    NativeOwnersHaveContracts(Catalog.Discovery(system, modules, restricted).value, i);
  }

  lemma EveryCommandFits(commands: seq<CommandNode>, i: nat)
    requires Discovered(commands) && i < |commands|
    requires var owner := Resolved(commands)[i];
             owner.adapter == Some(CommandAdapter.Native) && owner.nativeOwner == Some(owner.address)
    ensures forall c :: c in Resolved(commands) ==> Fits(c, Resolved(commands)[i])
  {
    hide Resolved, MayExecute, Fits, IsMember;
    var resolved := Resolved(commands);
    forall c | c in resolved ensures Fits(c, resolved[i]) {
      var j :| 0 <= j < |resolved| && resolved[j] == c;
      ResolvedMemberFits(commands, i, j);
    }
  }

  lemma MembersAreAcceptable(commands: seq<CommandNode>, i: nat, m: ContractCommand)
    requires Discovered(commands) && i < |commands|
    requires var owner := Resolved(commands)[i];
             && owner.adapter == Some(CommandAdapter.Native) && owner.nativeOwner == Some(owner.address)
             && ListsAcceptable(Resolved(commands), owner)
             && exists c :: c in Resolved(commands) && IsMember(c, owner) && MemberOf(c, owner.address) == Ok(m)
    ensures var owner := Resolved(commands)[i].address;
            Parse(owner).Ok? && AcceptableMember(owner, Parse(owner).value, m)
  {
    hide Resolved, AcceptableMember, Parse, AcceptableRequirements, AcceptableProvisions, IsMember, MemberOf, Discovered;
    var resolved := Resolved(commands);
    var owner := resolved[i];
    var c :| c in resolved && IsMember(c, owner) && MemberOf(c, owner.address) == Ok(m);
    var j :| 0 <= j < |resolved| && resolved[j] == c;
    MemberIsAcceptable(commands, i, j, m);
  }

  lemma NativeMember(commands: seq<CommandNode>, i: nat)
    requires Discovered(commands) && i < |commands|
    requires var owner := Resolved(commands)[i];
             owner.adapter == Some(CommandAdapter.Native) && owner.nativeOwner == Some(owner.address)
    ensures var owner := Resolved(commands)[i];
            && IsMember(owner, owner) && MemberOf(owner, owner.address).Ok?
            && MemberOf(owner, owner.address).value.execution.NativeExecution?
  {
    hide Resolved;
    ResolvedKeeps(commands);
    assert commands[i] in commands;
  }

  lemma MembersOfOwner(commands: seq<CommandNode>, i: nat)
    requires Discovered(commands) && i < |commands|
    requires var owner := Resolved(commands)[i];
             && owner.adapter == Some(CommandAdapter.Native) && owner.nativeOwner == Some(owner.address)
             && ListsAcceptable(Resolved(commands), owner)
    ensures var resolved := Resolved(commands);
            MembersOf(resolved, resolved[i]).Ok? && Acceptable(resolved[i].address, MembersOf(resolved, resolved[i]).value)
  {
    hide Resolved, AcceptableMember, Parse, DistinctKeys, Fits, IsMember, MemberOf, MembersOf;
    var resolved := Resolved(commands);
    var owner := resolved[i];
    EveryCommandFits(commands, i);
    assert DistinctAddresses(resolved) by { ResolvedIsDistinct(commands); }
    MembersCollected(resolved, owner);
    MembersDistinct(resolved, owner);
    var members := MembersOf(resolved, owner).value;
    NativeMember(commands, i);
    var native := MemberOf(owner, owner.address).value;
    assert owner in resolved && native in members;
    forall m | m in members
      ensures Parse(owner.address).Ok? && AcceptableMember(owner.address, Parse(owner.address).value, m)
    {
      MembersAreAcceptable(commands, i, m);
    }
  }

  // ---------------------------------------------------------------- what a contract holds

  /** `c` is a command of `owner`'s: the owner itself, or one whose native owner it is; aliases are not. */
  ghost predicate BelongsTo(c: CommandNode, owner: CommandNode) {
    c.aliasOf == None && (c.address == owner.address || c.nativeOwner == Some(owner.address))
  }

  /** The owner runs natively, and what it owns is delegated to it. */
  ghost predicate HasRole(c: CommandNode, owner: CommandNode, execution: ExecutionSemantics) {
    match execution
    case NativeExecution => c.adapter == Some(CommandAdapter.Native) && c.address == owner.address
    case DelegateExecution(o) =>
      c.adapter == Some(CommandAdapter.Delegate) && c.nativeOwner == Some(owner.address) && o == owner.address
  }

  /** What a contract's entry says of a command of the Catalog. */
  ghost predicate Describes(l: ContractCommand, c: CommandNode, owner: CommandNode) {
    && l.address == c.address && HasRole(c, owner, l.execution)
    && multiset(l.needs) == multiset(c.requirements) && multiset(l.offers) == multiset(c.provisions)
  }

  lemma MemberDescribes(c: CommandNode, owner: CommandNode)
    requires IsMember(c, owner) && MemberOf(c, owner.address).Ok?
    ensures BelongsTo(c, owner)
    ensures forall l :: ListedAs(l, MemberOf(c, owner.address).value) ==> Describes(l, c, owner)
  {
  }

  lemma {:induction false} MembersFit(commands: seq<CommandNode>, owner: CommandNode)
    requires MembersOf(commands, owner).Ok?
    ensures forall c :: c in commands ==> Fits(c, owner)
  {
    hide IsMember, MemberOf;
    if commands != [] {
      MembersFit(commands[1..], owner);
      assert commands == [commands[0]] + commands[1..];
    }
  }

  /** Members of different addresses come from commands of different addresses. */
  lemma {:induction false} MembersApart(commands: seq<CommandNode>, owner: CommandNode)
    requires MembersOf(commands, owner).Ok?
    requires AddressesDiffer(MembersOf(commands, owner).value)
    ensures forall i, j :: 0 <= i < j < |commands| && IsMember(commands[i], owner) && IsMember(commands[j], owner) ==>
              commands[i].address != commands[j].address
  {
    hide IsMember, MemberOf;
    if commands != [] {
      var tail := commands[1..];
      assert forall i :: 0 < i < |commands| ==> commands[i] == tail[i - 1];
      AddressesDifferLater(commands, owner);
      MembersApart(tail, owner);
      if IsMember(commands[0], owner) {
        forall j | 0 < j < |commands| && IsMember(commands[j], owner) ensures commands[0].address != commands[j].address {
          assert commands[j] in tail;
          MemberApart(commands, owner, commands[j]);
        }
      }
    }
  }

  ghost predicate AddressesDiffer(entries: seq<ContractCommand>) {
    forall i, j :: 0 <= i < j < |entries| ==> entries[i].address != entries[j].address
  }

  lemma AddressesDifferLater(commands: seq<CommandNode>, owner: CommandNode)
    requires commands != [] && MembersOf(commands, owner).Ok? && AddressesDiffer(MembersOf(commands, owner).value)
    ensures MembersOf(commands[1..], owner).Ok? && AddressesDiffer(MembersOf(commands[1..], owner).value)
  {
    hide IsMember, MemberOf;
    var rest := MembersOf(commands[1..], owner).value;
    forall i, j | 0 <= i < j < |rest| ensures rest[i].address != rest[j].address {
      if IsMember(commands[0], owner) {
        var members := MembersOf(commands, owner).value;
        assert members[i + 1] == rest[i] && members[j + 1] == rest[j];
      }
    }
  }

  lemma MemberApart(commands: seq<CommandNode>, owner: CommandNode, c: CommandNode)
    requires commands != [] && MembersOf(commands, owner).Ok? && AddressesDiffer(MembersOf(commands, owner).value)
    requires c in commands[1..] && IsMember(commands[0], owner) && IsMember(c, owner)
    ensures commands[0].address != c.address
  {
    hide IsMember, MemberOf;
    var tail := commands[1..];
    MembersFit(commands, owner);
    MembersFit(tail, owner);
    MembersCollected(tail, owner);
    assert c in commands && Fits(c, owner);
    var m := MemberOf(c, owner.address).value;
    var members := MembersOf(commands, owner).value;
    assert m in MembersOf(tail, owner).value;
    var n :| 0 <= n < |MembersOf(tail, owner).value| && MembersOf(tail, owner).value[n] == m;
    assert members[n + 1] == m && members[0].address != members[n + 1].address;
    MemberKeepsAddress(commands[0], owner.address, members[0]);
    MemberKeepsAddress(c, owner.address, m);
  }

  /** The contract has an entry that describes the command. */
  ghost predicate IsListed(contract: Contract, c: CommandNode, owner: CommandNode) {
    exists l :: l in contract.commands && Describes(l, c, owner)
  }

  /** The entry describes a command of the owner's. */
  ghost predicate ComesFrom(commands: seq<CommandNode>, l: ContractCommand, owner: CommandNode) {
    exists c :: c in commands && BelongsTo(c, owner) && Describes(l, c, owner)
  }

  /**
   A contract lists exactly the owner's commands of the Catalog, each of them once: under its address, in
   its role, and with the requirements and provisions the Catalog has for it.
   */
  lemma ContractListsOwnersCommands(commands: seq<CommandNode>, owner: CommandNode, contract: Contract)
    requires ExecutionContractOf(commands, owner) == Ok(contract)
    ensures contract.owner == owner.address
    ensures forall c :: c in commands && BelongsTo(c, owner) ==> IsListed(contract, c, owner)
    ensures forall l :: l in contract.commands ==> ComesFrom(commands, l, owner)
    ensures forall i, j :: 0 <= i < j < |contract.commands| ==> contract.commands[i].address != contract.commands[j].address
    ensures forall i, j :: 0 <= i < j < |commands| && BelongsTo(commands[i], owner) && BelongsTo(commands[j], owner) ==>
              commands[i].address != commands[j].address
  {
    hide ExecutionContractOf, BelongsTo, IsMember, IsListed, ComesFrom;
    ContractEntries(commands, owner, contract);
    forall c ensures IsMember(c, owner) <==> BelongsTo(c, owner) { MembersBelong(c, owner); }
    forall c | c in commands && BelongsTo(c, owner) ensures IsListed(contract, c, owner) {
      CommandIsListed(commands, owner, contract, c);
    }
    forall l | l in contract.commands ensures ComesFrom(commands, l, owner) {
      EntryIsCommand(commands, owner, contract, l);
    }
  }

  lemma ContractEntries(commands: seq<CommandNode>, owner: CommandNode, contract: Contract)
    requires ExecutionContractOf(commands, owner) == Ok(contract)
    ensures contract.owner == owner.address && AddressesDiffer(contract.commands)
    ensures forall i, j :: 0 <= i < j < |commands| && IsMember(commands[i], owner) && IsMember(commands[j], owner) ==>
              commands[i].address != commands[j].address
  {
    hide NewContract, MembersOf, MemberOf, IsMember, ListedAs;
    var members := MembersOf(commands, owner).value;
    ContractHoldsMembers(owner.address, members);
    AcceptedAddresses(owner.address, members);
    MembersApart(commands, owner);
  }

  lemma CommandIsListed(commands: seq<CommandNode>, owner: CommandNode, contract: Contract, c: CommandNode)
    requires ExecutionContractOf(commands, owner) == Ok(contract) && c in commands && IsMember(c, owner)
    ensures IsListed(contract, c, owner)
  {
    hide Canonical, MembersOf, MemberOf, IsMember, ListedAs, Describes, BelongsTo, Fits;
    var members := MembersOf(commands, owner).value;
    MembersFit(commands, owner);
    MembersCollected(commands, owner);
    MemberFits(c, owner);
    var m := MemberOf(c, owner.address).value;
    assert m in members;
    var l := ListedIn(members, m);
    MemberDescribes(c, owner);
  }

  lemma EntryIsCommand(commands: seq<CommandNode>, owner: CommandNode, contract: Contract, l: ContractCommand)
    requires ExecutionContractOf(commands, owner) == Ok(contract) && l in contract.commands
    ensures ComesFrom(commands, l, owner)
  {
    hide Canonical, MembersOf, MemberOf, IsMember, ListedAs, Describes, BelongsTo, Fits;
    var m := ListedFrom(MembersOf(commands, owner).value, l);
    var c := MemberCame(commands, owner, m);
    MemberDescribes(c, owner);
  }

  lemma MemberCame(commands: seq<CommandNode>, owner: CommandNode, m: ContractCommand) returns (c: CommandNode)
    requires MembersOf(commands, owner).Ok? && m in MembersOf(commands, owner).value
    ensures c in commands && IsMember(c, owner) && MemberOf(c, owner.address) == Ok(m)
  {
    hide MembersOf, MemberOf, IsMember, Fits;
    MembersFit(commands, owner);
    MembersCollected(commands, owner);
    c :| c in commands && IsMember(c, owner) && MemberOf(c, owner.address) == Ok(m);
  }

  lemma MemberFits(c: CommandNode, owner: CommandNode)
    requires Fits(c, owner) && IsMember(c, owner)
    ensures MemberOf(c, owner.address).Ok?
  {
  }

  lemma MembersBelong(c: CommandNode, owner: CommandNode)
    ensures IsMember(c, owner) <==> BelongsTo(c, owner)
  {
  }

  lemma AcceptedAddresses(owner: string, members: seq<ContractCommand>)
    requires NewContract(owner, members).Ok?
    ensures var listed := NewContract(owner, members).value.commands;
            forall i, j :: 0 <= i < j < |listed| ==> listed[i].address != listed[j].address
  {
    hide NewContract, AcceptableMember, DistinctKeys;
    AcceptedFormIsFixed(owner, members);
    AcceptedExactlyWhen(owner, NewContract(owner, members).value.commands);
    DistinctAt(NewContract(owner, members).value.commands);
  }

  /** A command that the owner's contract cannot describe. */
  ghost predicate Misfit(c: CommandNode, owner: CommandNode) {
    && BelongsTo(c, owner) && !HasRole(c, owner, NativeExecution)
    && !HasRole(c, owner, DelegateExecution(owner.address))
  }

  lemma {:induction false} FirstMisfit(commands: seq<CommandNode>, owner: CommandNode, k: int)
    requires 0 <= k < |commands| && Misfit(commands[k], owner)
    requires forall i :: 0 <= i < k ==> !Misfit(commands[i], owner)
    ensures MembersOf(commands, owner) == Err(IncompatibleMember(commands[k].address))
  {
    hide Misfit;
    MisfitRefused(commands[0], owner);
    if k > 0 {
      assert commands[1..][k - 1] == commands[k];
      FirstMisfit(commands[1..], owner, k - 1);
    }
  }

  lemma MisfitRefused(c: CommandNode, owner: CommandNode)
    ensures !Fits(c, owner) <==> Misfit(c, owner)
    ensures MemberOf(c, owner.address).Err? ==> MemberOf(c, owner.address) == Err(IncompatibleMember(c.address))
    ensures Misfit(c, owner) ==> IsMember(c, owner)
  {
  }

  /** The first command of the owner's that cannot be described is named, and only such a command is. */
  lemma ContractRefusesMisfits(commands: seq<CommandNode>, owner: CommandNode)
    requires owner.adapter == Some(CommandAdapter.Native) && owner.nativeOwner == Some(owner.address)
    ensures forall k :: 0 <= k < |commands| && Misfit(commands[k], owner)
                        && (forall i :: 0 <= i < k ==> !Misfit(commands[i], owner)) ==>
              ExecutionContractOf(commands, owner) == Err(IncompatibleMember(commands[k].address))
    ensures (forall c :: c in commands ==> !Misfit(c, owner)) ==>
              ExecutionContractOf(commands, owner).Ok? || ExecutionContractOf(commands, owner).error.BadContract?
  {
    hide Misfit, MembersOf, NewContract, Fits;
    forall k | 0 <= k < |commands| && Misfit(commands[k], owner) && forall i :: 0 <= i < k ==> !Misfit(commands[i], owner)
      ensures MembersOf(commands, owner) == Err(IncompatibleMember(commands[k].address))
    {
      FirstMisfit(commands, owner, k);
    }
    if forall c :: c in commands ==> !Misfit(c, owner) {
      forall c | c in commands ensures Fits(c, owner) { MisfitRefused(c, owner); }
      MembersCollected(commands, owner);
    }
  }

  /** Distinct owners never share a member. */
  lemma OwnersShareNoMember(commands: seq<CommandNode>, i: nat, k: nat, j: nat)
    requires Discovered(commands) && i < |commands| && k < |commands| && j < |commands|
    requires forall n :: n == i || n == k ==>
               var owner := Resolved(commands)[n];
               owner.adapter == Some(CommandAdapter.Native) && owner.nativeOwner == Some(owner.address)
    requires IsMember(Resolved(commands)[j], Resolved(commands)[i]) && IsMember(Resolved(commands)[j], Resolved(commands)[k])
    ensures i == k
  {
    hide Resolved, MayExecute;
    ResolvedIsDistinct(commands);
    ResolvedKeeps(commands);
    ResolvedMemberFits(commands, i, j);
    ResolvedMemberFits(commands, k, j);
  }

  // ---------------------------------------------------------------- and a release

  lemma {:induction false} DelegatedMembers(commands: seq<ContractCommand>)
    ensures forall a :: a in DelegatedCommands(commands) <==>
              exists c :: c in commands && c.execution.DelegateExecution? && c.address == a
  {
    if commands != [] {
      DelegatedMembers(commands[1..]);
      assert commands == [commands[0]] + commands[1..];
    }
  }

  lemma {:induction false} DelegatedDistinct(commands: seq<ContractCommand>)
    requires DistinctKeys(AddressKey, commands)
    ensures DistinctKeys(TextKey, DelegatedCommands(commands))
  {
    if commands != [] {
      var first, tail := commands[0], commands[1..];
      assert commands == [first] + tail;
      DistinctCons(AddressKey, first, tail);
      DelegatedDistinct(tail);
      DelegatedMembers(tail);
      forall a | a in DelegatedCommands(tail) ensures TextKey(a) != TextKey(first.address) {
        var c :| c in tail && c.execution.DelegateExecution? && c.address == a;
        assert AddressKey(c) != AddressKey(first);
        assert TextKey(a)[0] == a && TextKey(first.address)[0] == first.address;
      }
      DistinctCons(TextKey, first.address, DelegatedCommands(tail));
    }
  }

  /** The delegated commands of any accepted contract make a release. */
  lemma ContractsHaveReleases(
    sha: Text -> string, owner: string, members: seq<ContractCommand>, build: string, revision: string, executable: Text)
    requires NewContract(owner, members).Ok? && IsSha256(sha(executable))
    requires IsRevision(build) && IsRevision(revision) && executable != []
    ensures NewRelease(sha, owner, build, revision, DelegatedCommands(NewContract(owner, members).value.commands), executable).Ok?
  {
    hide NewContract, AcceptableMember, Parse, IsRevision, IsSha256, NewRelease, DistinctKeys;
    AcceptedFormIsFixed(owner, members);
    var commands := NewContract(owner, members).value.commands;
    AcceptedExactlyWhen(owner, commands);
    DelegatedMembers(commands);
    DelegatedDistinct(commands);
    forall a | a in DelegatedCommands(commands) ensures Delegated(Parse(owner).value, a) {
      var c :| c in commands && c.execution.DelegateExecution? && c.address == a;
      MemberIsDelegated(owner, c);
    }
    ReleaseAcceptedExactlyWhen(sha, owner, build, revision, DelegatedCommands(commands), executable);
  }

  lemma MemberIsDelegated(owner: string, c: ContractCommand)
    requires Parse(owner).Ok? && AcceptableMember(owner, Parse(owner).value, c) && c.execution.DelegateExecution?
    ensures Delegated(Parse(owner).value, c.address)
  {
    hide Parse;
  }
}
