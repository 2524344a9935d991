/** The native execution contract: a canonical, validated list of one owner's commands. */
module ExecutionContract {
  import opened CommandIdentity
  import opened CommandModel
  import opened Ordering
  import opened Wrappers

  const EXECUTION_CONTRACT_SCHEMA := "swawkit.native-command-execution-contract/v4"
  const COMMAND_ENVIRONMENT_PROTOCOL := "3"
  const MAX_COMMAND_REQUIREMENTS: nat := 64
  const MAX_COMMAND_PROVISIONS: nat := 64

  datatype ExecutionSemantics = NativeExecution | DelegateExecution(owner: string)

  datatype ContractCommand = ContractCommand(
    address: string,
    execution: ExecutionSemantics,
    needs: seq<CommandRequirement>,
    offers: seq<CommandProvision>)

  datatype Contract = Contract(
    schema: string, commandEnvironmentProtocol: string, owner: string, commands: seq<ContractCommand>)

  datatype ContractError =
    | BadIdentity(error: IdentityError)
    | InvalidContractIdentity
    | TooManyRequirements
    | InvalidRequirement
    | RequirementsNotCanonical
    | TooManyProvisions
    | InvalidProvision
    | ProvisionsNotCanonical
    | ForeignExecution(address: string, owner: string)
    | NotOneNativeOwner

  // ---------------------------------------------------------------- requirement and provision lists

  predicate ValidCapabilityName(value: string) {
    && value != "" && |value| <= 32
    && forall i :: 0 <= i < |value| ==> IsLower(value[i]) || (i > 0 && (IsDigit(value[i]) || value[i] == '-'))
  }

  function RequirementKey(r: CommandRequirement): Key { [r.provider, r.exported] }

  function ProvisionKey(p: CommandProvision): Key { [p.id] }

  function AddressKey(c: ContractCommand): Key { [c.address] }

  predicate ValidRequirement(r: CommandRequirement) {
    Parse(r.provider).Ok? && ValidCapabilityName(r.exported)
  }

  predicate Distinct<T(==)>(s: seq<T>) {
    forall i, j :: 0 <= i < j < |s| ==> s[i] != s[j]
  }

  /** What `validate_command_requirements` accepts. */
  predicate AcceptableRequirements(values: seq<CommandRequirement>) {
    |values| <= MAX_COMMAND_REQUIREMENTS && (forall v :: v in values ==> ValidRequirement(v)) && Distinct(values)
  }

  predicate AcceptableProvisions(values: seq<CommandProvision>) {
    |values| <= MAX_COMMAND_PROVISIONS && (forall v :: v in values ==> ValidCapabilityName(v.id)) && Distinct(values)
  }

  function CheckRequirements(values: seq<CommandRequirement>): Option<ContractError> {
    if |values| > MAX_COMMAND_REQUIREMENTS then Some(TooManyRequirements)
    else if !AcceptableRequirements(values) then Some(InvalidRequirement)
    else None
  }

  function CheckProvisions(values: seq<CommandProvision>): Option<ContractError> {
    if |values| > MAX_COMMAND_PROVISIONS then Some(TooManyProvisions)
    else if !AcceptableProvisions(values) then Some(InvalidProvision)
    else None
  }

  method ValidateCommandRequirements(values: seq<CommandRequirement>) returns (error: Option<ContractError>)
    ensures error == CheckRequirements(values)
  {
    hide ValidRequirement;
    if |values| > MAX_COMMAND_REQUIREMENTS { return Some(TooManyRequirements); }
    var seen: set<CommandRequirement> := {};
    for i := 0 to |values|
      invariant forall j :: 0 <= j < i ==> ValidRequirement(values[j])
      invariant forall v :: v in seen <==> v in values[..i]
      invariant Distinct(values[..i])
    {
      var value := values[i];
      assert values[..i + 1] == values[..i] + [value];
      if !ValidRequirement(value) || value in seen {
        if value in seen {
          var j :| 0 <= j < i && values[..i][j] == value;
          assert values[j] == values[i];
        }
        return Some(InvalidRequirement);
      }
      seen := seen + {value};
    }
    assert values[..|values|] == values;
    return None;
  }

  method ValidateCommandProvisions(values: seq<CommandProvision>) returns (error: Option<ContractError>)
    ensures error == CheckProvisions(values)
  {
    hide ValidCapabilityName;
    if |values| > MAX_COMMAND_PROVISIONS { return Some(TooManyProvisions); }
    var seen: set<CommandProvision> := {};
    for i := 0 to |values|
      invariant forall j :: 0 <= j < i ==> ValidCapabilityName(values[j].id)
      invariant forall v :: v in seen <==> v in values[..i]
      invariant Distinct(values[..i])
    {
      var value := values[i];
      assert values[..i + 1] == values[..i] + [value];
      if !ValidCapabilityName(value.id) || value in seen {
        if value in seen {
          var j :| 0 <= j < i && values[..i][j] == value;
          assert values[j] == values[i];
        }
        return Some(InvalidProvision);
      }
      seen := seen + {value};
    }
    assert values[..|values|] == values;
    return None;
  }

  // ---------------------------------------------------------------- validation

  /** What is wrong with one member of the owner's contract. */
  function MemberError(owner: string, identity: CommandIdentity, c: ContractCommand): Option<ContractError> {
    match Parse(c.address)
    case Err(error) => Some(BadIdentity(error))
    case Ok(own) =>
      var needs, offers := CheckRequirements(c.needs), CheckProvisions(c.offers);
      if needs.Some? then needs
      else if !StrictlyAscending(RequirementKey, c.needs) then Some(RequirementsNotCanonical)
      else if offers.Some? then offers
      else if !StrictlyAscending(ProvisionKey, c.offers) then Some(ProvisionsNotCanonical)
      else if Belongs(owner, identity, c.execution, own) then None
      else Some(ForeignExecution(c.address, owner))
  }

  predicate Belongs(owner: string, identity: CommandIdentity, execution: ExecutionSemantics, own: CommandIdentity) {
    match execution
    case NativeExecution => own == identity
    case DelegateExecution(declared) => declared == owner && identity.IsTrueAncestorOf(own)
  }

  function FirstMemberError(owner: string, identity: CommandIdentity, commands: seq<ContractCommand>): Option<ContractError> {
    if commands == [] then None
    else
      var error := MemberError(owner, identity, commands[0]);
      if error.Some? then error else FirstMemberError(owner, identity, commands[1..])
  }

  function Natives(commands: seq<ContractCommand>): nat {
    if commands == [] then 0
    else (if commands[0].execution.NativeExecution? then 1 else 0) + Natives(commands[1..])
  }

  function Validation(contract: Contract): Option<ContractError> {
    match Parse(contract.owner)
    case Err(error) => Some(BadIdentity(error))
    case Ok(identity) =>
      if contract.schema != EXECUTION_CONTRACT_SCHEMA
         || contract.commandEnvironmentProtocol != COMMAND_ENVIRONMENT_PROTOCOL
         || contract.commands == [] || !StrictlyAscending(AddressKey, contract.commands) then
        Some(InvalidContractIdentity)
      else
        var error := FirstMemberError(contract.owner, identity, contract.commands);
        if error.Some? then error
        else if Natives(contract.commands) != 1 then Some(NotOneNativeOwner)
        else None
  }

  method Validate(contract: Contract) returns (error: Option<ContractError>)
    ensures error == Validation(contract)
  {
    hide MemberError;
    var parsed := Parse(contract.owner);
    if parsed.Err? { return Some(BadIdentity(parsed.error)); }
    if contract.schema != EXECUTION_CONTRACT_SCHEMA
       || contract.commandEnvironmentProtocol != COMMAND_ENVIRONMENT_PROTOCOL
       || contract.commands == [] || !StrictlyAscending(AddressKey, contract.commands) {
      return Some(InvalidContractIdentity);
    }
    var commands := contract.commands;
    var nativeCount := 0;
    var i := 0;
    assert commands[0..] == commands;
    while i < |commands|
      invariant 0 <= i <= |commands|
      invariant nativeCount + Natives(commands[i..]) == Natives(commands)
      invariant FirstMemberError(contract.owner, parsed.value, commands[i..])
                == FirstMemberError(contract.owner, parsed.value, commands)
    {
      assert commands[i..][0] == commands[i] && commands[i..][1..] == commands[i + 1..];
      var memberError := ValidateMember(contract.owner, parsed.value, commands[i]);
      if memberError.Some? { return memberError; }
      if commands[i].execution.NativeExecution? { nativeCount := nativeCount + 1; }
      i := i + 1;
    }
    assert commands[i..] == [];
    if nativeCount != 1 { return Some(NotOneNativeOwner); }
    return None;
  }

  method ValidateMember(owner: string, identity: CommandIdentity, c: ContractCommand) returns (error: Option<ContractError>)
    ensures error == MemberError(owner, identity, c)
  {
    hide CheckRequirements, CheckProvisions;
    var own := Parse(c.address);
    if own.Err? { return Some(BadIdentity(own.error)); }
    error := ValidateCommandRequirements(c.needs);
    if error.Some? { return; }
    if !StrictlyAscending(RequirementKey, c.needs) { return Some(RequirementsNotCanonical); }
    error := ValidateCommandProvisions(c.offers);
    if error.Some? { return; }
    if !StrictlyAscending(ProvisionKey, c.offers) { return Some(ProvisionsNotCanonical); }
    match c.execution {
      case NativeExecution =>
        if own.value == identity { return None; }
      case DelegateExecution(declared) =>
        if declared == owner && identity.IsTrueAncestorOf(own.value) { return None; }
    }
    return Some(ForeignExecution(c.address, owner));
  }

  // ---------------------------------------------------------------- construction

  function Normalized(c: ContractCommand): ContractCommand {
    c.(needs := Sort(RequirementKey, c.needs), offers := Sort(ProvisionKey, c.offers))
  }

  function NormalizedAll(commands: seq<ContractCommand>): (n: seq<ContractCommand>)
    ensures |n| == |commands| && forall i :: 0 <= i < |commands| ==> n[i] == Normalized(commands[i])
  {
    if commands == [] then [] else [Normalized(commands[0])] + NormalizedAll(commands[1..])
  }

  function Canonical(commands: seq<ContractCommand>): seq<ContractCommand> {
    Sort(AddressKey, NormalizedAll(commands))
  }

  function ContractOf(owner: string, commands: seq<ContractCommand>): Contract {
    Contract(EXECUTION_CONTRACT_SCHEMA, COMMAND_ENVIRONMENT_PROTOCOL, owner, commands)
  }

  /** `ExecutionContract::new`. */
  function NewContract(owner: string, commands: seq<ContractCommand>): Result<Contract, ContractError> {
    var contract := ContractOf(owner, Canonical(commands));
    var error := Validation(contract);
    if error.Some? then Err(error.value) else Ok(contract)
  }

  method Create(owner: string, commands: seq<ContractCommand>) returns (r: Result<Contract, ContractError>)
    ensures r == NewContract(owner, commands)
  {
    hide Validation;
    var sorted := [];
    for i := 0 to |commands|
      invariant |sorted| == i && forall j :: 0 <= j < i ==> sorted[j] == Normalized(commands[j])
    {
      var command := commands[i];
      command := command.(needs := Sort(RequirementKey, command.needs));
      command := command.(offers := Sort(ProvisionKey, command.offers));
      sorted := sorted + [command];
    }
    assert sorted == NormalizedAll(commands);
    var contract := ContractOf(owner, Sort(AddressKey, sorted));
    var error := Validate(contract);
    if error.Some? { return Err(error.value); }
    return Ok(contract);
  }

  function DelegatedCommands(commands: seq<ContractCommand>): seq<string> {
    if commands == [] then []
    else (if commands[0].execution.DelegateExecution? then [commands[0].address] else []) + DelegatedCommands(commands[1..])
  }
}
