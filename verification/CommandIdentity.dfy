/**
 Canonical command identities, their addresses and their data roots.

 A `string` is a text's UTF-8 bytes, one character per byte.
 */
module CommandIdentity {
  import opened TextSplit
  import opened Wrappers

  const MAX_COMMAND_ADDRESS_BYTES: nat := 256

  // ---------------------------------------------------------------- names

  /** The Windows device names that no portable file name may be. */
  predicate IsDeviceName(name: string) {
    || (|name| == 3 && (name == "con" || name == "prn" || name == "aux" || name == "nul"))
    || (|name| == 4 && (name[..3] == "com" || name[..3] == "lpt") && '1' <= name[3] <= '9')
  }

  predicate IsLower(c: char) { 'a' <= c <= 'z' }

  predicate IsDigit(c: char) { '0' <= c <= '9' }

  predicate ValidCommandSegment(name: string) {
    && name != "" && |name| <= 64
    && (forall i :: 0 <= i < |name| ==> IsLower(name[i]) || (i > 0 && (IsDigit(name[i]) || name[i] == '-')))
    && !IsDeviceName(name)
  }

  predicate ValidModuleNamespace(name: string) {
    ValidCommandSegment(name) && name != "system" && name != "module"
  }

  predicate ValidPath(path: seq<string>) {
    path != [] && forall i :: 0 <= i < |path| ==> ValidCommandSegment(path[i])
  }

  lemma SegmentHasNoSlash(name: string)
    requires ValidCommandSegment(name)
    ensures Lacks(name, '/') && name[0] != '.'
  {
    hide IsDeviceName;
  }

  // ---------------------------------------------------------------- identities

  datatype CommandSpace = System | Module

  datatype IdentityError = InvalidPath | IncompatibleNamespace | AddressTooLong | InvalidAddress

  datatype CommandIdentity = CommandIdentity(space: CommandSpace, namespace: Option<string>, path: seq<string>) {

    predicate HasNamespace() {
      space.Module? ==> namespace.Some?
    }

    function Address(): string
      requires HasNamespace()
    {
      match space
      case System => "." + JoinOn(path, '/')
      case Module => namespace.value + "/" + JoinOn(path, '/')
    }

    predicate IsTrueAncestorOf(command: CommandIdentity) {
      space == command.space && namespace == command.namespace && |path| < |command.path| && path <= command.path
    }

    /** The identities that `NewIdentity` accepts. */
    predicate Valid() {
      && ValidPath(path)
      && (match space
          case System => namespace == None
          case Module => namespace.Some? && ValidModuleNamespace(namespace.value))
      && |Address()| <= MAX_COMMAND_ADDRESS_BYTES
    }
  }

  function NewIdentity(space: CommandSpace, namespace: Option<string>, path: seq<string>): (r: Result<CommandIdentity, IdentityError>)
    ensures r.Ok? <==> CommandIdentity(space, namespace, path).HasNamespace() && CommandIdentity(space, namespace, path).Valid()
    ensures r.Ok? ==> r.value == CommandIdentity(space, namespace, path)
  {
    if !ValidPath(path) then Err(InvalidPath)
    else if !(match space
              case System => namespace == None
              case Module => namespace.Some? && ValidModuleNamespace(namespace.value)) then
      Err(IncompatibleNamespace)
    else
      var identity := CommandIdentity(space, namespace, path);
      if |identity.Address()| > MAX_COMMAND_ADDRESS_BYTES then Err(AddressTooLong) else Ok(identity)
  }

  function ParsePath(path: string): Result<seq<string>, IdentityError> {
    if path == "" || !(forall part <- SplitOn(path, '/') :: ValidCommandSegment(part)) then Err(InvalidAddress)
    else Ok(SplitOn(path, '/'))
  }

  function Parse(address: string): Result<CommandIdentity, IdentityError> {
    if |address| > MAX_COMMAND_ADDRESS_BYTES then Err(InvalidAddress)
    else if address != "" && address[0] == '.' then
      match ParsePath(address[1..])
      case Err(error) => Err(error)
      case Ok(path) => NewIdentity(System, None, path)
    else
      match FindChar(address, '/', 0)
      case None => Err(InvalidAddress)
      case Some(n) =>
        match ParsePath(address[n + 1..])
        case Err(error) => Err(error)
        case Ok(path) =>
          match NewIdentity(Module, Some(address[..n]), path)
          case Err(_) => Err(InvalidAddress)
          case Ok(identity) => Ok(identity)
  }

  // ---------------------------------------------------------------- addresses determine identities

  lemma ParsePathOfJoin(path: seq<string>)
    requires ValidPath(path)
    ensures ParsePath(JoinOn(path, '/')) == Ok(path)
  {
    hide ValidCommandSegment;
    forall i | 0 <= i < |path| ensures Lacks(path[i], '/') { SegmentHasNoSlash(path[i]); }
    SplitOfJoin(path, '/');
    SegmentsNotEmpty(path);
  }

  lemma SegmentsNotEmpty(path: seq<string>)
    requires ValidPath(path)
    ensures path[0] != "" && JoinOn(path, '/') != ""
  {
    hide IsDeviceName;
  }

  /** Printing then parsing gives the identity back. */
  lemma ParseOfAddress(id: CommandIdentity)
    requires id.HasNamespace() && id.Valid()
    ensures Parse(id.Address()) == Ok(id)
  {
    hide ValidCommandSegment, ParsePath;
    ParsePathOfJoin(id.path);
    match id.space
    case System =>
      assert id.Address()[1..] == JoinOn(id.path, '/');
    case Module =>
      var n := id.namespace.value;
      assert ValidCommandSegment(n);
      SegmentHasNoSlash(n);
      assert n != "" by { assert ValidCommandSegment(n); SegmentsNotEmpty([n]); }
      FoundAt(n, '/', JoinOn(id.path, '/'));
      assert id.Address()[..|n|] == n && id.Address()[|n| + 1..] == JoinOn(id.path, '/');
  }

  /** Parsing accepts only what printing the result gives back, and only valid identities come out. */
  lemma AddressOfParse(address: string)
    requires Parse(address).Ok?
    ensures var id := Parse(address).value;
            id.HasNamespace() && id.Valid() && id.Address() == address
  {
    if address[0] == '.' {
      JoinOfSplit(address[1..], '/');
    } else {
      var n := FindChar(address, '/', 0).value;
      JoinOfSplit(address[n + 1..], '/');
      assert address == address[..n] + "/" + address[n + 1..];
    }
  }

  lemma AddressIsInjective(a: CommandIdentity, b: CommandIdentity)
    requires a.HasNamespace() && a.Valid() && b.HasNamespace() && b.Valid() && a.Address() == b.Address()
    ensures a == b
  {
    hide *;
    ParseOfAddress(a);
    ParseOfAddress(b);
  }

  // ---------------------------------------------------------------- data roots

  /** The components of a path below some fixed volume root. */
  type FilePath = seq<string>

  const NATIVE_DIRECTORY := "_native"

  function SpaceDirectory(id: CommandIdentity): string
    requires id.HasNamespace()
  {
    match id.space
    case System => "system"
    case Module => id.namespace.value
  }

  function DataRoot(dataRoot: FilePath, id: CommandIdentity): FilePath
    requires id.HasNamespace()
  {
    dataRoot + ["modules", SpaceDirectory(id)] + id.path
  }

  method CommandDataRoot(dataRoot: FilePath, id: CommandIdentity) returns (root: FilePath)
    requires id.HasNamespace()
    ensures root == DataRoot(dataRoot, id)
  {
    root := dataRoot + ["modules"];
    match id.space {
      case System => root := root + ["system"];
      case Module => root := root + [id.namespace.value];
    }
    assert root == dataRoot + ["modules", SpaceDirectory(id)];
    for i := 0 to |id.path|
      invariant root == dataRoot + ["modules", SpaceDirectory(id)] + id.path[..i]
    {
      root := root + [id.path[i]];
    }
    assert id.path[..|id.path|] == id.path;
  }

  function NativeCommandRoot(dataRoot: FilePath, id: CommandIdentity): FilePath
    requires id.HasNamespace()
  {
    DataRoot(dataRoot, id) + [NATIVE_DIRECTORY]
  }

  predicate StrictlyInside(path: FilePath, root: FilePath) {
    |root| < |path| && root <= path
  }

  /** The directory of a space tells the spaces and namespaces apart. */
  lemma SpaceDirectoryIsInjective(a: CommandIdentity, b: CommandIdentity)
    requires a.HasNamespace() && a.Valid() && b.HasNamespace() && b.Valid()
    ensures SpaceDirectory(a) == SpaceDirectory(b) <==> a.space == b.space && a.namespace == b.namespace
  {
    hide ValidCommandSegment;
  }

  /** Data roots nest exactly as identities do; in particular distinct commands have distinct data roots. */
  lemma DataRootsMirrorIdentity(dataRoot: FilePath, a: CommandIdentity, b: CommandIdentity)
    requires a.HasNamespace() && a.Valid() && b.HasNamespace() && b.Valid()
    ensures DataRoot(dataRoot, a) == DataRoot(dataRoot, b) <==> a == b
    ensures StrictlyInside(DataRoot(dataRoot, b), DataRoot(dataRoot, a)) <==> a.IsTrueAncestorOf(b)
  {
    hide ValidCommandSegment, ValidPath, ValidModuleNamespace;
    var n := |dataRoot| + 1;
    var ra, rb := DataRoot(dataRoot, a), DataRoot(dataRoot, b);
    SpaceDirectoryIsInjective(a, b);
    assert ra[n] == SpaceDirectory(a) && rb[n] == SpaceDirectory(b);
    assert ra[n + 1..] == a.path && rb[n + 1..] == b.path;
    if ra <= rb {
      assert ra == rb[..|ra|] && rb[..|ra|][n] == rb[n];
      assert rb[..|ra|][n + 1..] == b.path[..|a.path|];
    }
    if a.space == b.space && a.namespace == b.namespace && a.path <= b.path {
      assert ra == rb[..|ra|];
    }
  }

  /** A native root is never a command's data root, nor an ancestor directory of one. */
  lemma NativeRootIsNoDataRoot(dataRoot: FilePath, owner: CommandIdentity, id: CommandIdentity)
    requires owner.HasNamespace() && owner.Valid() && id.HasNamespace() && id.Valid()
    ensures !(NativeCommandRoot(dataRoot, owner) <= DataRoot(dataRoot, id))
  {
    var native, root := NativeCommandRoot(dataRoot, owner), DataRoot(dataRoot, id);
    var n := |native| - 1;
    assert native[n] == NATIVE_DIRECTORY;
    NativeDirectoryIsNoSegment();
    if n < |root| {
      assert root[n] == id.path[n - |dataRoot| - 2];
    }
  }

  lemma NativeDirectoryIsNoSegment()
    ensures !ValidCommandSegment(NATIVE_DIRECTORY)
  {
    assert NATIVE_DIRECTORY[0] == '_';
  }
}
