/** The names the repository accepts, letter by letter. */
module NameRules {
  import opened CommandIdentity
  import opened CommandModel
  import opened ContentIdentity
  import opened ExecutionContract
  import opened ResourceRoute
  import opened TextSplit
  import opened Wrappers

  const LETTERS := "abcdefghijklmnopqrstuvwxyz"
  const CAPITALS := "ABCDEFGHIJKLMNOPQRSTUVWXYZ"
  const DIGITS := "0123456789"

  /** Up to `longest` characters: one of `first`, then any of `later`. */
  ghost predicate Spelled(name: string, longest: nat, first: string, later: string) {
    1 <= |name| <= longest && name[0] in first && forall i :: 0 < i < |name| ==> name[i] in later
  }

  lemma Letter(c: char)
    ensures c in LETTERS <==> 'a' <= c <= 'z'
  {
    if 'a' <= c <= 'z' { assert LETTERS[c as int - 97] == c; }
  }

  lemma Capital(c: char)
    ensures c in CAPITALS <==> 'A' <= c <= 'Z'
  {
    if 'A' <= c <= 'Z' { assert CAPITALS[c as int - 65] == c; }
  }

  lemma Digit(c: char)
    ensures c in DIGITS <==> '0' <= c <= '9'
  {
    if '0' <= c <= '9' { assert DIGITS[c as int - 48] == c; }
  }

  lemma Alphanumeric(c: char)
    ensures c in LETTERS + CAPITALS + DIGITS <==> IsAlphanumeric(c)
  {
    hide LETTERS, CAPITALS, DIGITS;
    Letter(c);
    Capital(c);
    Digit(c);
  }

  lemma LowerKebab(c: char)
    ensures c in LETTERS <==> IsLower(c)
    ensures c in LETTERS + DIGITS <==> IsLower(c) || IsDigit(c)
    ensures c in LETTERS + DIGITS + "-" <==> IsLower(c) || IsDigit(c) || c == '-'
  {
    hide LETTERS, DIGITS;
    Letter(c);
    Digit(c);
  }

  /** A Windows device: one of four, or a serial or parallel port numbered from 1 to 9. */
  ghost predicate Device(name: string) {
    || name in {"con", "prn", "aux", "nul"}
    || (|name| == 4 && name[..3] in {"com", "lpt"} && name[3] in "123456789")
  }

  lemma DevicesExactly(name: string)
    ensures IsDeviceName(name) <==> Device(name)
  {
  }

  /** A segment of a command's path. */
  lemma SegmentsExactly(name: string)
    ensures ValidCommandSegment(name) <==> Spelled(name, 64, LETTERS, LETTERS + DIGITS + "-") && !Device(name)
  {
    DevicesExactly(name);
    hide LETTERS, DIGITS, Device;
    forall i | 0 <= i < |name|
      ensures name[i] in LETTERS <==> IsLower(name[i])
      ensures name[i] in LETTERS + DIGITS <==> IsLower(name[i]) || IsDigit(name[i])
      ensures name[i] in LETTERS + DIGITS + "-" <==> IsLower(name[i]) || IsDigit(name[i]) || name[i] == '-'
    {
      LowerKebab(name[i]);
    }
  }

  lemma NamespacesExactly(name: string)
    ensures ValidModuleNamespace(name) <==>
            Spelled(name, 64, LETTERS, LETTERS + DIGITS + "-") && !Device(name) && name !in {"system", "module"}
  {
    SegmentsExactly(name);
  }

  /** What a provider exports and a requirement names. */
  lemma CapabilitiesExactly(name: string)
    ensures ValidCapabilityName(name) <==> Spelled(name, 32, LETTERS, LETTERS + DIGITS + "-")
  {
    hide LETTERS, DIGITS, Device;
    forall i | 0 <= i < |name|
      ensures name[i] in LETTERS <==> IsLower(name[i])
      ensures name[i] in LETTERS + DIGITS <==> IsLower(name[i]) || IsDigit(name[i])
      ensures name[i] in LETTERS + DIGITS + "-" <==> IsLower(name[i]) || IsDigit(name[i]) || name[i] == '-'
    {
      LowerKebab(name[i]);
    }
  }

  /** The two halves of a route's hop. */
  lemma HopNamesExactly(name: string)
    ensures ValidFacetId(name) <==> Spelled(name, 32, LETTERS, LETTERS + DIGITS + "-") && !Device(name)
    ensures ValidSelector(name) <==> Spelled(name, 128, LETTERS + DIGITS, LETTERS + DIGITS + "-") && !Device(name)
  {
    DevicesExactly(name);
    hide LETTERS, DIGITS, Device;
    forall i | 0 <= i < |name|
      ensures name[i] in LETTERS <==> IsLower(name[i])
      ensures name[i] in LETTERS + DIGITS <==> IsLower(name[i]) || IsDigit(name[i])
      ensures name[i] in LETTERS + DIGITS + "-" <==> IsLower(name[i]) || IsDigit(name[i]) || name[i] == '-'
    {
      LowerKebab(name[i]);
    }
  }

  /** An identity is above another exactly when segments added to its path lead to the other. */
  lemma AncestorsExactly(a: CommandIdentity, b: CommandIdentity)
    ensures a.IsTrueAncestorOf(b) <==> exists more: seq<string> :: more != [] && b == a.(path := a.path + more)
  {
    if a.IsTrueAncestorOf(b) {
      var more := b.path[|a.path|..];
      assert b == a.(path := a.path + more);
    }
  }

  // ---------------------------------------------------------------- errors

  /** The reason an identity is refused: its path, else its namespace, else its length. */
  lemma IdentityRefusedFor(space: CommandSpace, namespace: Option<string>, path: seq<string>)
    ensures var r := NewIdentity(space, namespace, path);
            var named := if space == System then namespace == None else namespace.Some? && ValidModuleNamespace(namespace.value);
            && (r == Err(InvalidPath) <==> path == [] || exists s :: s in path && !ValidCommandSegment(s))
            && (r == Err(IncompatibleNamespace) <==> ValidPath(path) && !named)
            && (r == Err(AddressTooLong) <==>
                  ValidPath(path) && named && |CommandIdentity(space, namespace, path).Address()| > 256)
  {
    hide ValidCommandSegment, ValidModuleNamespace, CommandIdentity.Address;
  }

  // ---------------------------------------------------------------- versions and paths

  ghost predicate Number(part: string) {
    part != "" && forall c :: c in part ==> c in DIGITS
  }

  lemma NumbersExactly(part: string)
    ensures Number(part) <==> part != "" && AllDigits(part)
  {
    forall i | 0 <= i < |part| ensures part[i] in DIGITS <==> '0' <= part[i] <= '9' { Digit(part[i]); }
    if Number(part) {
      forall i | 0 <= i < |part| ensures '0' <= part[i] <= '9' {
        assert part[i] in part;
      }
    }
    if AllDigits(part) {
      forall c | c in part ensures c in DIGITS {
        var i :| 0 <= i < |part| && part[i] == c;
      }
    }
  }

  ghost predicate Triple(core: string, a: string, b: string, c: string) {
    Number(a) && Number(b) && Number(c) && core == a + "." + b + "." + c
  }

  lemma ThreeJoined(a: string, b: string, c: string)
    ensures JoinOn([a, b, c], '.') == a + "." + b + "." + c
  {
    JoinOnCons(a, [b, c], '.');
    JoinOnCons(b, [c], '.');
    assert [a] + [b, c] == [a, b, c] && [b] + [c] == [b, c] && JoinOn([c], '.') == c;
    assert a + ['.'] + (b + ['.'] + c) == a + "." + b + "." + c;
  }

  lemma CoreParts(core: string) returns (a: string, b: string, c: string)
    requires ValidCore(core)
    ensures Triple(core, a, b, c)
  {
    var parts := SplitOn(core, '.');
    JoinOfSplit(core, '.');
    a, b, c := parts[0], parts[1], parts[2];
    assert parts == [a, b, c] && a in parts && b in parts && c in parts;
    ThreeJoined(a, b, c);
    NumbersExactly(a);
    NumbersExactly(b);
    NumbersExactly(c);
  }

  lemma CoreOf(core: string, a: string, b: string, c: string)
    requires Triple(core, a, b, c)
    ensures ValidCore(core)
  {
    var parts := [a, b, c];
    ThreeJoined(a, b, c);
    NumbersExactly(a);
    NumbersExactly(b);
    NumbersExactly(c);
    SplitOfJoin(parts, '.');
  }

  lemma CoresExactly(core: string)
    ensures ValidCore(core) <==> exists a, b, c :: Triple(core, a, b, c)
  {
    hide ValidCore, Triple;
    if ValidCore(core) {
      var a, b, c := CoreParts(core);
    }
    if a, b, c :| Triple(core, a, b, c) {
      CoreOf(core, a, b, c);
    }
  }

  /** Nothing, or a hyphen and at least one letter, digit, period or hyphen. */
  ghost predicate Suffix(tail: string) {
    tail == "" || (|tail| > 1 && tail[0] == '-' && forall i :: 0 < i < |tail| ==> tail[i] in LETTERS + CAPITALS + DIGITS + ".-")
  }

  ghost predicate VersionParts(value: string, core: string, tail: string) {
    value == core + tail && ValidCore(core) && Suffix(tail)
  }

  lemma CoreHasNoHyphen(core: string)
    requires ValidCore(core)
    ensures Lacks(core, '-')
  {
    hide SplitOn;
    PartsLack(core, '.', '-');
  }

  lemma NoHyphen(value: string)
    requires Lacks(value, '-')
    ensures FindChar(value, '-', 0) == None
  {
  }

  /** A version is three numbers between periods and a suffix. */
  lemma VersionsExactly(value: string)
    ensures ValidVersion(value) <==> exists core, tail :: VersionParts(value, core, tail)
  {
    hide ValidCore;
    hide LETTERS, CAPITALS, DIGITS, IsAlphanumeric, FindChar;
    forall c: char ensures c in LETTERS + CAPITALS + DIGITS + ".-" <==> IsAlphanumeric(c) || c == '.' || c == '-' { Alphanumeric(c); }
    if ValidVersion(value) {
      match FindChar(value, '-', 0)
      case None =>
        assert value == value + "";
        assert VersionParts(value, value, "");
      case Some(k) =>
        assert value == value[..k] + value[k..];
        assert VersionParts(value, value[..k], value[k..]);
    }
    if core, tail :| VersionParts(value, core, tail) {
      CoreHasNoHyphen(core);
      if tail == "" {
        assert value == core;
        NoHyphen(value);
      } else {
        assert value == core + ['-'] + tail[1..];
        FoundAt(core, '-', tail[1..]);
        assert forall i :: |core| < i < |value| ==> value[i] == tail[i - |core|];
        assert value[..|core|] == core;
      }
    }
  }

  ghost predicate PathPart(part: string) {
    part !in {"", ".", ".."} && forall c :: c in part ==> c in LETTERS + CAPITALS + DIGITS + "._+- "
  }

  lemma PathPartsExactly(part: string)
    ensures ValidPathPart(part) <==> PathPart(part)
  {
    hide LETTERS, CAPITALS, DIGITS, IsAlphanumeric;
    forall c: char
      ensures c in LETTERS + CAPITALS + DIGITS + "._+- " <==>
              IsAlphanumeric(c) || c == '.' || c == '_' || c == '+' || c == '-' || c == ' '
    {
      Alphanumeric(c);
    }
    if ValidPathPart(part) {
      forall c | c in part ensures c in LETTERS + CAPITALS + DIGITS + "._+- " {
        var i :| 0 <= i < |part| && part[i] == c;
      }
    }
  }

  /** A relative path is parts between slashes. */
  lemma PathsExactly(value: string)
    ensures ValidRelativePath(value) <==>
            exists parts: seq<string> :: parts != [] && value == JoinOn(parts, '/') && forall part :: part in parts ==> PathPart(part)
  {
    hide SplitOn, JoinOn, PathPart, ValidPathPart;
    if ValidRelativePath(value) {
      JoinOfSplit(value, '/');
      forall part | part in SplitOn(value, '/') ensures PathPart(part) { PathPartsExactly(part); }
    }
    if parts: seq<string> :| parts != [] && value == JoinOn(parts, '/') && forall part :: part in parts ==> PathPart(part) {
      forall part | part in parts ensures ValidPathPart(part) && Lacks(part, '/') && Lacks(part, '\\') && part != "" {
        PathPartsExactly(part);
        PartIsPlain(part);
      }
      SplitOfJoin(parts, '/');
      JoinedLacks(parts, '/', '\\');
      JoinedEnds(parts);
    }
  }

  lemma PartIsPlain(part: string)
    requires ValidPathPart(part)
    ensures Lacks(part, '/') && Lacks(part, '\\') && part != ""
  {
  }

  lemma {:induction false} JoinedEnds(parts: seq<string>)
    requires parts != [] && forall part :: part in parts ==> Lacks(part, '/') && part != ""
    ensures var s := JoinOn(parts, '/'); s != "" && s[0] != '/' && s[|s| - 1] != '/'
  {
    assert parts[0] in parts;
    if |parts| > 1 {
      assert forall part :: part in parts[1..] ==> part in parts;
      JoinedEnds(parts[1..]);
    }
  }
}
