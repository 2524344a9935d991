/** The published release of a native owner's executable.  SHA-256 is a parameter. */
module CommandRelease {
  import opened ByteStrings
  import opened CommandIdentity
  import opened Digest
  import opened Ordering
  import opened Wrappers

  const COMMAND_RELEASE_SCHEMA := "swawkit.native-command-release/v3"
  const COMMAND_EXECUTABLE_NAME := "run.exe"

  datatype ExecutableArtifact = ExecutableArtifact(name: string, length: nat, sha256: string)

  datatype Release = Release(
    schema: string, owner: string, buildInputRevision: string, executionContractRevision: string,
    commands: seq<string>, executable: ExecutableArtifact)

  datatype ReleaseError =
    | UnsupportedSchema
    | BadOwner(error: IdentityError)
    | OwnerMismatch
    | InvalidFields
    | EmptyExecutable

  function TextKey(s: string): Key { [s] }

  predicate Delegated(owner: CommandIdentity, address: string) {
    Parse(address).Ok? && owner.IsTrueAncestorOf(Parse(address).value)
  }

  function ValidateRelease(release: Release, expectedOwner: string): Option<ReleaseError> {
    if release.schema != COMMAND_RELEASE_SCHEMA then Some(UnsupportedSchema)
    else
      match Parse(expectedOwner)
      case Err(error) => Some(BadOwner(error))
      case Ok(owner) =>
        if release.owner != expectedOwner then Some(OwnerMismatch)
        else if || !IsRevision(release.buildInputRevision)
                || !IsRevision(release.executionContractRevision)
                || !StrictlyAscending(TextKey, release.commands)
                || (exists address :: address in release.commands && !Delegated(owner, address))
                || release.executable.name != COMMAND_EXECUTABLE_NAME
                || release.executable.length == 0
                || !IsSha256(release.executable.sha256) then
          Some(InvalidFields)
        else None
  }

  /** `CommandRelease::new`, with `sha` for SHA-256 in lower-case hexadecimal. */
  function NewRelease(
    sha: Text -> string, owner: string, buildInputRevision: string, executionContractRevision: string,
    commands: seq<string>, executable: Text)
    : Result<Release, ReleaseError>
  {
    var release := Release(
      COMMAND_RELEASE_SCHEMA, owner, buildInputRevision, executionContractRevision, Sort(TextKey, commands),
      ExecutableArtifact(COMMAND_EXECUTABLE_NAME, |executable|, sha(executable)));
    var error := ValidateRelease(release, release.owner);
    if error.Some? then Err(error.value)
    else if executable == [] then Err(EmptyExecutable)
    else Ok(release)
  }

  /** Exactly which releases can be made, with no mention of the order of the commands. */
  lemma ReleaseAcceptedExactlyWhen(
    sha: Text -> string, owner: string, build: string, contract: string, commands: seq<string>, executable: Text)
    requires IsSha256(sha(executable))
    ensures NewRelease(sha, owner, build, contract, commands, executable).Ok? <==>
            && Parse(owner).Ok? && IsRevision(build) && IsRevision(contract) && executable != []
            && DistinctKeys(TextKey, commands)
            && forall address :: address in commands ==> Delegated(Parse(owner).value, address)
  {
    hide Delegated, Sort, Parse, IsSha256, IsRevision;
    SortedStrictExactlyWhenDistinct(TextKey, commands);
    SortProperties(TextKey, commands);
    SameElements(Sort(TextKey, commands), commands);
  }

  /** A release states what it was made from: its commands in strict order, each once, and its executable's length and hash. */
  lemma ReleaseStates(
    sha: Text -> string, owner: string, build: string, contract: string, commands: seq<string>, executable: Text)
    requires NewRelease(sha, owner, build, contract, commands, executable).Ok?
    ensures var release := NewRelease(sha, owner, build, contract, commands, executable).value;
            && release.schema == "swawkit.native-command-release/v3" && release.owner == owner
            && release.buildInputRevision == build && release.executionContractRevision == contract
            && multiset(release.commands) == multiset(commands) && StrictlyAscending(TextKey, release.commands)
            && release.executable.name == "run.exe" && release.executable.length == |executable|
            && release.executable.sha256 == sha(executable)
  {
    hide Delegated, Sort, Parse;
    SortProperties(TextKey, commands);
  }

  /** A release read back is refused for the first of these reasons that it gives. */
  lemma RefusedExactlyWhen(release: Release, expectedOwner: string)
    ensures var error := ValidateRelease(release, expectedOwner);
            var ours := release.schema == "swawkit.native-command-release/v3";
            && (error == Some(UnsupportedSchema) <==> !ours)
            && (error.Some? && error.value.BadOwner? <==> ours && Parse(expectedOwner).Err?)
            && (error == Some(OwnerMismatch) <==> ours && Parse(expectedOwner).Ok? && release.owner != expectedOwner)
            && (error == None <==>
                  && ours && Parse(expectedOwner).Ok? && release.owner == expectedOwner
                  && IsRevision(release.buildInputRevision) && IsRevision(release.executionContractRevision)
                  && StrictlyAscending(TextKey, release.commands)
                  && (forall a :: a in release.commands ==> Delegated(Parse(expectedOwner).value, a))
                  && release.executable.name == "run.exe" && release.executable.length > 0
                  && IsSha256(release.executable.sha256))
  {
    hide Delegated, Parse, IsRevision, IsSha256, StrictlyAscending;
  }
}
