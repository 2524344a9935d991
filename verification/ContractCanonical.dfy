/** What contract construction promises: order does not matter, and what is accepted is exactly known. */
module ContractCanonical {
  import opened CommandIdentity
  import opened CommandModel
  import opened ExecutionContract
  import opened Ordering
  import opened Wrappers

  // ---------------------------------------------------------------- normalizing members

  lemma RequirementKeyDetermines(values: seq<CommandRequirement>)
    ensures KeyDetermines(RequirementKey, values)
  {
    forall x, y | x in values && y in values && RequirementKey(x) == RequirementKey(y) ensures x == y {
      assert RequirementKey(x)[0] == RequirementKey(y)[0] && RequirementKey(x)[1] == RequirementKey(y)[1];
    }
  }

  lemma ProvisionKeyDetermines(values: seq<CommandProvision>)
    ensures KeyDetermines(ProvisionKey, values)
  {
    forall x, y | x in values && y in values && ProvisionKey(x) == ProvisionKey(y) ensures x == y {
      assert ProvisionKey(x)[0] == ProvisionKey(y)[0];
    }
  }

  /** The same command up to the order of its two lists. */
  predicate SameMember(a: ContractCommand, b: ContractCommand) {
    && a.address == b.address && a.execution == b.execution
    && multiset(a.needs) == multiset(b.needs) && multiset(a.offers) == multiset(b.offers)
  }

  lemma SameMemberSameNormalized(a: ContractCommand, b: ContractCommand)
    requires SameMember(a, b)
    ensures Normalized(a) == Normalized(b)
  {
    RequirementKeyDetermines(a.needs);
    ProvisionKeyDetermines(a.offers);
    SortIgnoresOrder(RequirementKey, a.needs, b.needs);
    SortIgnoresOrder(ProvisionKey, a.offers, b.offers);
  }

  lemma NormalizedAllConcat(a: seq<ContractCommand>, b: seq<ContractCommand>)
    ensures NormalizedAll(a + b) == NormalizedAll(a) + NormalizedAll(b)
  {
    hide Normalized;
    forall i | 0 <= i < |a + b| ensures NormalizedAll(a + b)[i] == (NormalizedAll(a) + NormalizedAll(b))[i] {
    }
  }

  lemma BagWithout<T>(before: seq<T>, x: T, after: seq<T>)
    ensures multiset(before + ([x] + after)) == multiset{x} + multiset(before + after)
  {
  }

  lemma NormalizedWithout(before: seq<ContractCommand>, x: ContractCommand, after: seq<ContractCommand>)
    ensures multiset(NormalizedAll(before + ([x] + after)))
            == multiset{Normalized(x)} + multiset(NormalizedAll(before + after))
  {
    hide Normalized;
    NormalizedAllConcat(before, [x] + after);
    NormalizedAllConcat([x], after);
    NormalizedAllConcat(before, after);
    assert NormalizedAll([x]) == [Normalized(x)];
    BagWithout(NormalizedAll(before), Normalized(x), NormalizedAll(after));
  }

  lemma Occurrence<T>(a: seq<T>, b: seq<T>) returns (before: seq<T>, after: seq<T>)
    requires a != [] && multiset(a) == multiset(b)
    ensures b == before + ([a[0]] + after)
  {
    SameElements(a, b);
    assert a[0] in b;
    var i :| 0 <= i < |b| && b[i] == a[0];
    before, after := b[..i], b[i + 1..];
  }

  lemma {:induction false} NormalizedBag(a: seq<ContractCommand>, b: seq<ContractCommand>)
    requires multiset(a) == multiset(b)
    ensures multiset(NormalizedAll(a)) == multiset(NormalizedAll(b))
    decreases |a|
  {
    hide Normalized, NormalizedAll;
    if a == [] {
      assert |multiset(b)| == 0;
      assert b == [];
    } else {
      var before, after := Occurrence(a, b);
      SameRemainder(a, before, after);
      NormalizedBag(a[1..], before + after);
      NormalizedWithout(before, a[0], after);
      NormalizedWithout([], a[0], a[1..]);
      assert [] + ([a[0]] + a[1..]) == a && [] + a[1..] == a[1..];
    }
  }

  lemma SameRemainder<T>(a: seq<T>, before: seq<T>, after: seq<T>)
    requires a != [] && multiset(a) == multiset(before + ([a[0]] + after))
    ensures multiset(a[1..]) == multiset(before + after)
  {
    BagTail(a);
    BagWithout(before, a[0], after);
  }

  // ---------------------------------------------------------------- order does not matter

  lemma CanonicalNotStrict(owner: string, commands: seq<ContractCommand>)
    requires !DistinctKeys(AddressKey, NormalizedAll(commands))
    ensures NewContract(owner, commands)
            == match Parse(owner) case Err(error) => Err(BadIdentity(error)) case Ok(_) => Err(InvalidContractIdentity)
  {
    SortedStrictExactlyWhenDistinct(AddressKey, NormalizedAll(commands));
  }

  lemma MembersInAnyOrder(owner: string, a: seq<ContractCommand>, b: seq<ContractCommand>)
    requires multiset(a) == multiset(b)
    ensures NewContract(owner, a) == NewContract(owner, b)
  {
    hide Validation, Normalized, NormalizedAll;
    NormalizedBag(a, b);
    var na, nb := NormalizedAll(a), NormalizedAll(b);
    DistinctIsDistinctBag(AddressKey, na);
    DistinctIsDistinctBag(AddressKey, nb);
    if DistinctKeys(AddressKey, na) {
      DistinctKeysDetermine(AddressKey, na);
      SortIgnoresOrder(AddressKey, na, nb);
    } else {
      CanonicalNotStrict(owner, a);
      CanonicalNotStrict(owner, b);
    }
  }

  lemma ListsInAnyOrder(owner: string, a: seq<ContractCommand>, b: seq<ContractCommand>)
    requires |a| == |b| && forall i :: 0 <= i < |a| ==> SameMember(a[i], b[i])
    ensures NewContract(owner, a) == NewContract(owner, b)
  {
    hide Normalized, SameMember, NewContract;
    forall i | 0 <= i < |a| ensures Normalized(a[i]) == Normalized(b[i]) {
      SameMemberSameNormalized(a[i], b[i]);
    }
    assert NormalizedAll(a) == NormalizedAll(b);
    NewFromNormalized(owner, a, b);
  }

  lemma NewFromNormalized(owner: string, a: seq<ContractCommand>, b: seq<ContractCommand>)
    requires NormalizedAll(a) == NormalizedAll(b)
    ensures NewContract(owner, a) == NewContract(owner, b)
  {
  }

  /** `b` lists the same members as `a`, in any order and with their lists in any order. */
  ghost predicate Rearranged(a: seq<ContractCommand>, b: seq<ContractCommand>) {
    exists mid: seq<ContractCommand> ::
      && multiset(a) == multiset(mid) && |mid| == |b|
      && forall i :: 0 <= i < |b| ==> SameMember(mid[i], b[i])
  }

  /** Rearranging the input never changes the contract, nor the reason for refusing one. */
  lemma ConstructionIgnoresOrder(owner: string, a: seq<ContractCommand>, b: seq<ContractCommand>)
    requires Rearranged(a, b)
    ensures NewContract(owner, a) == NewContract(owner, b)
  {
    hide NewContract, SameMember;
    var mid: seq<ContractCommand> :|
      && multiset(a) == multiset(mid) && |mid| == |b|
      && forall i :: 0 <= i < |b| ==> SameMember(mid[i], b[i]);
    MembersInAnyOrder(owner, a, mid);
    ListsInAnyOrder(owner, mid, b);
  }

  // ---------------------------------------------------------------- what is accepted

  predicate AcceptableMember(owner: string, identity: CommandIdentity, c: ContractCommand) {
    && AcceptableRequirements(c.needs) && AcceptableProvisions(c.offers)
    && Parse(c.address).Ok? && Belongs(owner, identity, c.execution, Parse(c.address).value)
  }

  /** An owner and a set of members, with no mention of order. */
  predicate Acceptable(owner: string, commands: seq<ContractCommand>) {
    && Parse(owner).Ok?
    && DistinctKeys(AddressKey, commands)
    && (forall c :: c in commands ==> AcceptableMember(owner, Parse(owner).value, c))
    && (exists c :: c in commands && c.execution.NativeExecution?)
  }

  lemma {:induction false} NoMemberError(owner: string, identity: CommandIdentity, commands: seq<ContractCommand>)
    ensures FirstMemberError(owner, identity, commands) == None <==>
            forall c :: c in commands ==> MemberError(owner, identity, c) == None
  {
    hide MemberError;
    if commands != [] {
      NoMemberError(owner, identity, commands[1..]);
      assert commands == [commands[0]] + commands[1..];
    }
  }

  lemma DistinctRequirements(values: seq<CommandRequirement>)
    ensures Distinct(values) <==> DistinctKeys(RequirementKey, values)
  {
    RequirementKeyDetermines(values);
  }

  lemma DistinctProvisions(values: seq<CommandProvision>)
    ensures Distinct(values) <==> DistinctKeys(ProvisionKey, values)
  {
    ProvisionKeyDetermines(values);
  }

  /** Sorting neither hides nor repairs a bad list, and puts a good one in strict order. */
  lemma SortedRequirements(values: seq<CommandRequirement>)
    ensures var sorted := Sort(RequirementKey, values);
            && (AcceptableRequirements(sorted) <==> AcceptableRequirements(values))
            && (AcceptableRequirements(values) ==> StrictlyAscending(RequirementKey, sorted))
  {
    hide ValidRequirement, Sort;
    var sorted := Sort(RequirementKey, values);
    SortProperties(RequirementKey, values);
    SameElements(sorted, values);
    SortedStrictExactlyWhenDistinct(RequirementKey, values);
    StrictExactlyWhenDistinct(RequirementKey, sorted);
    DistinctRequirements(values);
    DistinctRequirements(sorted);
  }

  lemma SortedProvisions(values: seq<CommandProvision>)
    ensures var sorted := Sort(ProvisionKey, values);
            && (AcceptableProvisions(sorted) <==> AcceptableProvisions(values))
            && (AcceptableProvisions(values) ==> StrictlyAscending(ProvisionKey, sorted))
  {
    hide ValidCapabilityName, Sort;
    var sorted := Sort(ProvisionKey, values);
    SortProperties(ProvisionKey, values);
    SameElements(sorted, values);
    SortedStrictExactlyWhenDistinct(ProvisionKey, values);
    StrictExactlyWhenDistinct(ProvisionKey, sorted);
    DistinctProvisions(values);
    DistinctProvisions(sorted);
  }

  lemma NormalizedMemberError(owner: string, identity: CommandIdentity, c: ContractCommand)
    ensures MemberError(owner, identity, Normalized(c)) == None <==> AcceptableMember(owner, identity, c)
  {
    hide AcceptableRequirements, AcceptableProvisions, Sort, Parse, Belongs;
    SortedRequirements(c.needs);
    SortedProvisions(c.offers);
    AcceptableIsChecked(Sort(RequirementKey, c.needs), Sort(ProvisionKey, c.offers));
  }

  lemma AcceptableIsChecked(needs: seq<CommandRequirement>, offers: seq<CommandProvision>)
    ensures CheckRequirements(needs) == None <==> AcceptableRequirements(needs)
    ensures CheckProvisions(offers) == None <==> AcceptableProvisions(offers)
  {
  }

  lemma CanonicalMembers(commands: seq<ContractCommand>)
    ensures forall c :: c in Canonical(commands) <==> exists d :: d in commands && c == Normalized(d)
    ensures |Canonical(commands)| == |commands|
  {
    hide Normalized, Sort;
    SortProperties(AddressKey, NormalizedAll(commands));
    SameElements(Canonical(commands), NormalizedAll(commands));
    forall c ensures c in NormalizedAll(commands) <==> exists d :: d in commands && c == Normalized(d) {
      if d :| d in commands && c == Normalized(d) {
        var i :| 0 <= i < |commands| && commands[i] == d;
        assert NormalizedAll(commands)[i] == c;
      }
    }
  }

  lemma NormalizedKeepsDistinct(commands: seq<ContractCommand>)
    ensures DistinctKeys(AddressKey, NormalizedAll(commands)) <==> DistinctKeys(AddressKey, commands)
  {
    forall i | 0 <= i < |commands| ensures AddressKey(NormalizedAll(commands)[i]) == AddressKey(commands[i]) {
    }
  }

  /** All natives of an owner's contract carry the owner's address, so distinct addresses leave at most one. */
  lemma {:induction false} AtMostOneNative(owner: string, commands: seq<ContractCommand>)
    requires DistinctKeys(AddressKey, commands)
    requires forall c :: c in commands && c.execution.NativeExecution? ==> c.address == owner
    ensures Natives(commands) <= 1
    ensures Natives(commands) == 1 <==> exists c :: c in commands && c.execution.NativeExecution?
  {
    if commands != [] {
      var tail := commands[1..];
      assert commands == [commands[0]] + tail;
      DistinctCons(AddressKey, commands[0], tail);
      AtMostOneNative(owner, tail);
      if commands[0].execution.NativeExecution? {
        forall c | c in tail ensures !c.execution.NativeExecution? {
          assert AddressKey(c) != AddressKey(commands[0]);
        }
      }
    }
  }

  lemma NativeHasOwnersAddress(owner: string, c: ContractCommand)
    requires Parse(owner).Ok? && AcceptableMember(owner, Parse(owner).value, c) && c.execution.NativeExecution?
    ensures c.address == owner
  {
    hide AcceptableRequirements, AcceptableProvisions, Parse;
    AddressOfParse(owner);
    AddressOfParse(c.address);
  }

  lemma CanonicalNatives(owner: string, commands: seq<ContractCommand>)
    requires Parse(owner).Ok? && DistinctKeys(AddressKey, commands)
    requires forall c :: c in commands ==> AcceptableMember(owner, Parse(owner).value, c)
    ensures Natives(Canonical(commands)) == 1 <==> exists c :: c in commands && c.execution.NativeExecution?
  {
    hide AcceptableMember, Parse, Sort, Canonical;
    var sorted := Canonical(commands);
    CanonicalMembers(commands);
    CanonicalStrict(commands);
    forall c | c in sorted && c.execution.NativeExecution? ensures c.address == owner {
      var d :| d in commands && c == Normalized(d);
      NativeHasOwnersAddress(owner, d);
    }
    AtMostOneNative(owner, sorted);
    if c :| c in commands && c.execution.NativeExecution? {
      assert Normalized(c) in sorted && Normalized(c).execution.NativeExecution?;
    }
    if c :| c in sorted && c.execution.NativeExecution? {
      var d :| d in commands && c == Normalized(d);
      assert d.execution.NativeExecution?;
    }
  }

  lemma CanonicalStrict(commands: seq<ContractCommand>)
    ensures StrictlyAscending(AddressKey, Canonical(commands)) <==> DistinctKeys(AddressKey, commands)
    ensures DistinctKeys(AddressKey, commands) ==> DistinctKeys(AddressKey, Canonical(commands))
  {
    NormalizedKeepsDistinct(commands);
    SortedStrictExactlyWhenDistinct(AddressKey, NormalizedAll(commands));
    SortProperties(AddressKey, NormalizedAll(commands));
    StrictExactlyWhenDistinct(AddressKey, Canonical(commands));
  }

  lemma CanonicalMemberErrors(owner: string, identity: CommandIdentity, commands: seq<ContractCommand>)
    ensures FirstMemberError(owner, identity, Canonical(commands)) == None <==>
            forall c :: c in commands ==> AcceptableMember(owner, identity, c)
  {
    hide MemberError, AcceptableMember, Canonical, Normalized;
    NoMemberError(owner, identity, Canonical(commands));
    CanonicalMembers(commands);
    forall c | c in commands
      ensures Normalized(c) in Canonical(commands)
      ensures MemberError(owner, identity, Normalized(c)) == None <==> AcceptableMember(owner, identity, c)
    {
      NormalizedMemberError(owner, identity, c);
    }
  }

  /** Exactly which owners and members make a contract. */
  lemma AcceptedExactlyWhen(owner: string, commands: seq<ContractCommand>)
    ensures NewContract(owner, commands).Ok? <==> Acceptable(owner, commands)
  {
    hide AcceptableMember, Parse, Canonical, Natives, FirstMemberError, StrictlyAscending, DistinctKeys;
    CanonicalMembers(commands);
    CanonicalStrict(commands);
    if Parse(owner).Ok? {
      CanonicalMemberErrors(owner, Parse(owner).value, commands);
      if DistinctKeys(AddressKey, commands)
         && forall c :: c in commands ==> AcceptableMember(owner, Parse(owner).value, c) {
        CanonicalNatives(owner, commands);
      }
    }
  }

  // ---------------------------------------------------------------- the accepted form

  predicate StrictLists(c: ContractCommand) {
    StrictlyAscending(RequirementKey, c.needs) && StrictlyAscending(ProvisionKey, c.offers)
  }

  lemma NormalizedFixed(commands: seq<ContractCommand>)
    requires forall c :: c in commands ==> StrictLists(c)
    ensures NormalizedAll(commands) == commands
  {
    forall i | 0 <= i < |commands| ensures NormalizedAll(commands)[i] == commands[i] {
      assert commands[i] in commands;
      SortOfStrict(RequirementKey, commands[i].needs);
      SortOfStrict(ProvisionKey, commands[i].offers);
    }
  }

  lemma AcceptedListsAreStrict(owner: string, commands: seq<ContractCommand>)
    requires NewContract(owner, commands).Ok?
    ensures forall c :: c in Canonical(commands) ==> StrictLists(c)
    ensures StrictlyAscending(AddressKey, Canonical(commands))
  {
    hide Canonical, CheckRequirements, CheckProvisions, Belongs, Parse;
    var identity := Parse(owner).value;
    NoMemberError(owner, identity, Canonical(commands));
  }

  /** The accepted form is strictly ordered throughout, and constructing from it again changes nothing. */
  lemma AcceptedFormIsFixed(owner: string, commands: seq<ContractCommand>)
    requires NewContract(owner, commands).Ok?
    ensures var contract := NewContract(owner, commands).value;
            && contract.owner == owner
            && StrictlyAscending(AddressKey, contract.commands)
            && (forall c :: c in contract.commands ==> StrictLists(c))
            && multiset(contract.commands) == multiset(NormalizedAll(commands))
            && NewContract(owner, contract.commands) == NewContract(owner, commands)
  {
    hide Validation, StrictLists, StrictlyAscending, Sort;
    var sorted := Canonical(commands);
    AcceptedListsAreStrict(owner, commands);
    SortProperties(AddressKey, NormalizedAll(commands));
    NormalizedFixed(sorted);
    SortOfStrict(AddressKey, sorted);
  }

  // ---------------------------------------------------------------- what an accepted contract holds

  /** `listed` says of `member` what it says itself, up to the order of its two lists. */
  ghost predicate ListedAs(listed: ContractCommand, member: ContractCommand) {
    && listed.address == member.address && listed.execution == member.execution
    && multiset(listed.needs) == multiset(member.needs) && multiset(listed.offers) == multiset(member.offers)
  }

  lemma NormalizedIsListed(member: ContractCommand)
    ensures ListedAs(Normalized(member), member)
  {
    hide Sort;
    SortProperties(RequirementKey, member.needs);
    SortProperties(ProvisionKey, member.offers);
  }

  lemma ListedIn(commands: seq<ContractCommand>, m: ContractCommand) returns (l: ContractCommand)
    requires m in commands
    ensures l in Canonical(commands) && ListedAs(l, m)
  {
    hide Normalized, Canonical;
    CanonicalMembers(commands);
    NormalizedIsListed(m);
    l := Normalized(m);
  }

  lemma ListedFrom(commands: seq<ContractCommand>, l: ContractCommand) returns (m: ContractCommand)
    requires l in Canonical(commands)
    ensures m in commands && ListedAs(l, m)
  {
    hide Normalized, Canonical, ListedAs;
    CanonicalMembers(commands);
    m :| m in commands && l == Normalized(m);
    NormalizedIsListed(m);
  }

  lemma DistinctAt(commands: seq<ContractCommand>)
    requires DistinctKeys(AddressKey, commands)
    ensures forall i, j :: 0 <= i < j < |commands| ==> commands[i].address != commands[j].address
  {
    forall i, j | 0 <= i < j < |commands| ensures commands[i].address != commands[j].address {
      assert AddressKey(commands[i]) != AddressKey(commands[j]);
    }
  }

  /** An accepted contract is of this schema and protocol and has as many entries as members, all of different addresses. */
  lemma ContractHoldsMembers(owner: string, commands: seq<ContractCommand>)
    requires NewContract(owner, commands).Ok?
    ensures var contract := NewContract(owner, commands).value;
            && contract.owner == owner && contract.commandEnvironmentProtocol == "3"
            && contract.schema == "swawkit.native-command-execution-contract/v4"
            && |contract.commands| == |commands|
            && (forall i, j :: 0 <= i < j < |commands| ==> commands[i].address != commands[j].address)
  {
    hide Validation, Canonical, DistinctKeys, AcceptableMember;
    CanonicalMembers(commands);
    AcceptedExactlyWhen(owner, commands);
    DistinctAt(commands);
  }

  /** Every member is listed, with the address, execution, requirements and provisions it was given. */
  lemma MemberIsListed(owner: string, commands: seq<ContractCommand>, m: ContractCommand) returns (l: ContractCommand)
    requires NewContract(owner, commands).Ok? && m in commands
    ensures l in NewContract(owner, commands).value.commands
    ensures l.address == m.address && l.execution == m.execution
    ensures multiset(l.needs) == multiset(m.needs) && multiset(l.offers) == multiset(m.offers)
  {
    hide Validation, Canonical;
    l := ListedIn(commands, m);
  }

  /** And nothing else is listed. */
  lemma ListedIsMember(owner: string, commands: seq<ContractCommand>, l: ContractCommand) returns (m: ContractCommand)
    requires NewContract(owner, commands).Ok? && l in NewContract(owner, commands).value.commands
    ensures m in commands && l.address == m.address && l.execution == m.execution
    ensures multiset(l.needs) == multiset(m.needs) && multiset(l.offers) == multiset(m.offers)
  {
    hide Validation, Canonical;
    m := ListedFrom(commands, l);
  }

  // ---------------------------------------------------------------- what a contract is refused for

  ghost predicate GoodRequirements(needs: seq<CommandRequirement>) {
    && (forall r :: r in needs ==> Parse(r.provider).Ok? && ValidCapabilityName(r.exported))
    && (forall i, j :: 0 <= i < j < |needs| ==> needs[i] != needs[j])
  }

  ghost predicate GoodProvisions(offers: seq<CommandProvision>) {
    && (forall p :: p in offers ==> ValidCapabilityName(p.id))
    && (forall i, j :: 0 <= i < j < |offers| ==> offers[i] != offers[j])
  }

  /** The owner itself, or a command below it that is delegated to it. */
  ghost predicate HasPlace(owner: string, identity: CommandIdentity, execution: ExecutionSemantics, own: CommandIdentity) {
    || (execution == NativeExecution && own == identity)
    || (&& execution == DelegateExecution(owner) && own.space == identity.space && own.namespace == identity.namespace
        && |identity.path| < |own.path| && own.path[..|identity.path|] == identity.path)
  }

  /** A member is refused for the first of these that is wrong with it. */
  lemma MemberRefusedFor(owner: string, identity: CommandIdentity, c: ContractCommand)
    ensures MemberError(owner, identity, c)
            == if Parse(c.address).Err? then Some(BadIdentity(Parse(c.address).error))
               else if |c.needs| > 64 then Some(TooManyRequirements)
               else if !GoodRequirements(c.needs) then Some(InvalidRequirement)
               else if !StrictlyAscending(RequirementKey, c.needs) then Some(RequirementsNotCanonical)
               else if |c.offers| > 64 then Some(TooManyProvisions)
               else if !GoodProvisions(c.offers) then Some(InvalidProvision)
               else if !StrictlyAscending(ProvisionKey, c.offers) then Some(ProvisionsNotCanonical)
               else if !HasPlace(owner, identity, c.execution, Parse(c.address).value) then Some(ForeignExecution(c.address, owner))
               else None
  {
    hide Parse, ValidCapabilityName, StrictlyAscending;
  }

  /** The first member that is refused decides. */
  lemma {:induction false} FirstRefusal(owner: string, identity: CommandIdentity, commands: seq<ContractCommand>, k: int)
    requires 0 <= k < |commands| && MemberError(owner, identity, commands[k]).Some?
    requires forall i :: 0 <= i < k ==> MemberError(owner, identity, commands[i]) == None
    ensures FirstMemberError(owner, identity, commands) == MemberError(owner, identity, commands[k])
  {
    hide MemberError;
    if k > 0 {
      assert commands[1..][k - 1] == commands[k];
      FirstRefusal(owner, identity, commands[1..], k - 1);
    }
  }

  ghost predicate WellShaped(contract: Contract) {
    && contract.schema == "swawkit.native-command-execution-contract/v4" && contract.commandEnvironmentProtocol == "3"
    && contract.commands != [] && StrictlyAscending(AddressKey, contract.commands)
  }

  /** A contract is refused for its owner, else its shape, else its first bad member, else for having no native member. */
  lemma ContractRefusedFor(contract: Contract)
    ensures var error := Validation(contract);
            && (Parse(contract.owner).Err? ==> error == Some(BadIdentity(Parse(contract.owner).error)))
            && (Parse(contract.owner).Ok? ==>
                  var identity := Parse(contract.owner).value;
                  && (!WellShaped(contract) <==> error == Some(InvalidContractIdentity))
                  && (WellShaped(contract) ==>
                        && (forall k :: && 0 <= k < |contract.commands|
                                        && MemberError(contract.owner, identity, contract.commands[k]).Some?
                                        && (forall i :: 0 <= i < k ==>
                                              MemberError(contract.owner, identity, contract.commands[i]) == None)
                              ==> error == MemberError(contract.owner, identity, contract.commands[k]))
                        && ((forall c :: c in contract.commands ==> MemberError(contract.owner, identity, c) == None) ==>
                              if exists c :: c in contract.commands && c.execution == NativeExecution
                              then error == None else error == Some(NotOneNativeOwner))))
  {
    hide Parse, MemberError, StrictlyAscending, FirstMemberError, Natives;
    if Parse(contract.owner).Ok? && WellShaped(contract) {
      var (owner, identity, commands) := (contract.owner, Parse(contract.owner).value, contract.commands);
      NoMemberError(owner, identity, commands);
      forall k | && 0 <= k < |commands| && MemberError(owner, identity, commands[k]).Some?
                 && (forall i :: 0 <= i < k ==> MemberError(owner, identity, commands[i]) == None)
        ensures FirstMemberError(owner, identity, commands) == MemberError(owner, identity, commands[k])
      {
        FirstRefusal(owner, identity, commands, k);
      }
      if forall c :: c in commands ==> MemberError(owner, identity, c) == None {
        OneNative(owner, commands);
      }
      MemberErrorIsNoShape(owner, identity, commands);
    }
  }

  lemma {:induction false} MemberErrorIsNoShape(owner: string, identity: CommandIdentity, commands: seq<ContractCommand>)
    ensures FirstMemberError(owner, identity, commands) != Some(InvalidContractIdentity)
  {
    hide Parse, CheckRequirements, CheckProvisions;
    if commands != [] {
      MemberErrorIsNoShape(owner, identity, commands[1..]);
      MemberRefusedFor(owner, identity, commands[0]);
    }
  }

  lemma OneNative(owner: string, commands: seq<ContractCommand>)
    requires Parse(owner).Ok? && StrictlyAscending(AddressKey, commands)
    requires forall c :: c in commands ==> MemberError(owner, Parse(owner).value, c) == None
    ensures Natives(commands) == 1 <==> exists c :: c in commands && c.execution == NativeExecution
  {
    hide Parse, MemberError, StrictlyAscending, Natives;
    StrictIsAscending(AddressKey, commands);
    StrictExactlyWhenDistinct(AddressKey, commands);
    forall c | c in commands && c.execution.NativeExecution? ensures c.address == owner {
      NativeAtOwner(owner, c);
    }
    AtMostOneNative(owner, commands);
  }

  lemma NativeAtOwner(owner: string, c: ContractCommand)
    requires Parse(owner).Ok? && MemberError(owner, Parse(owner).value, c) == None && c.execution.NativeExecution?
    ensures c.address == owner
  {
    hide Parse, CheckRequirements, CheckProvisions;
    AddressOfParse(owner);
    AddressOfParse(c.address);
  }

  // ---------------------------------------------------------------- the order of an accepted contract

  ghost predicate Less(a: string, b: string) {
    StringLe(a, b) && a != b
  }

  lemma OneTextLess(a: string, b: string)
    ensures KeyLt([a], [b]) <==> Less(a, b)
  {
    assert [a][1..] == [] && [b][1..] == [] && KeyLe([], []);
    StringTotal(a, b);
    StringReflexive(a);
  }

  lemma TwoTextsLess(a: string, x: string, b: string, y: string)
    ensures KeyLt([a, x], [b, y]) <==> Less(a, b) || (a == b && Less(x, y))
  {
    assert [a, x][1..] == [x] && [b, y][1..] == [y];
    OneTextLess(x, y);
    StringTotal(a, b);
  }

  /** Members stand by address, requirements by provider and then by export, provisions by name, each before the next. */
  lemma AcceptedOrder(owner: string, commands: seq<ContractCommand>)
    requires NewContract(owner, commands).Ok?
    ensures var listed := NewContract(owner, commands).value.commands;
            && (forall i :: 0 < i < |listed| ==> Less(listed[i - 1].address, listed[i].address))
            && (forall l, i :: l in listed && 0 < i < |l.needs| ==>
                  || Less(l.needs[i - 1].provider, l.needs[i].provider)
                  || (l.needs[i - 1].provider == l.needs[i].provider && Less(l.needs[i - 1].exported, l.needs[i].exported)))
            && (forall l, i :: l in listed && 0 < i < |l.offers| ==> Less(l.offers[i - 1].id, l.offers[i].id))
  {
    hide NewContract, StringLe, KeyLt, KeyLe, Less;
    AcceptedFormIsFixed(owner, commands);
    var listed := NewContract(owner, commands).value.commands;
    forall i | 0 < i < |listed| ensures Less(listed[i - 1].address, listed[i].address) {
      OneTextLess(listed[i - 1].address, listed[i].address);
    }
    forall l, i | l in listed && 0 < i < |l.needs|
      ensures || Less(l.needs[i - 1].provider, l.needs[i].provider)
              || (l.needs[i - 1].provider == l.needs[i].provider && Less(l.needs[i - 1].exported, l.needs[i].exported))
    {
      TwoTextsLess(l.needs[i - 1].provider, l.needs[i - 1].exported, l.needs[i].provider, l.needs[i].exported);
    }
    forall l, i | l in listed && 0 < i < |l.offers| ensures Less(l.offers[i - 1].id, l.offers[i].id) {
      OneTextLess(l.offers[i - 1].id, l.offers[i].id);
    }
  }
}
