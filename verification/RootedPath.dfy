/**
 Absolute Windows paths as Rust's `std::path` reads them, and the Core's conversion to the DOS form.

 An ordinary path is a drive's or a share's: either separator divides its components, and empty and `.` components
 do not count.  A verbatim path starts with `\\?\`: only a backslash divides it, and `UNC` counts in capitals alone.
 */
module RootedPath {
  import opened ByteStrings
  import opened EntryLayout
  import opened TextSplit
  import opened WidePath
  import opened Wrappers

  // ---------------------------------------------------------------- paths by component

  datatype Prefix =
    | Disk(letter: char)
    | Unc(server: string, share: string)
    | VerbatimDisk(letter: char)
    | VerbatimUnc(server: string, share: string)
    | VerbatimName(name: string)
    | DeviceName(name: string)

  datatype RootedPath = RootedPath(prefix: Prefix, components: seq<string>) {
    function Child(name: string): RootedPath {
      RootedPath(prefix, components + [name])
    }

    function Parent(): Option<RootedPath> {
      if components == [] then None else Some(RootedPath(prefix, components[..|components| - 1]))
    }

    function FileName(): Option<string> {
      if components == [] then None
      else
        var last := components[|components| - 1];
        if last == ".." || last == "." then None else Some(last)
    }
  }

  /** The first separator at or after `from`. */
  function FirstSeparator(s: string, from: nat): (index: Option<nat>)
    requires from <= |s|
    ensures index.Some? ==> from <= index.value < |s| && IsSeparator(s[index.value])
                            && forall i :: from <= i < index.value ==> !IsSeparator(s[i])
    ensures index.None? ==> forall i :: from <= i < |s| ==> !IsSeparator(s[i])
    decreases |s| - from
  {
    if from == |s| then None
    else if IsSeparator(s[from]) then Some(from)
    else FirstSeparator(s, from + 1)
  }

  function Kept(component: string): seq<string> {
    if component == "" || component == "." then [] else [component]
  }

  function Components(s: string): seq<string>
    decreases |s|
  {
    match FirstSeparator(s, 0)
    case None => Kept(s)
    case Some(k) => Kept(s[..k]) + Components(s[k + 1..])
  }

  /** The text up to the first separator, and what follows that separator. */
  function NextComponent(s: string): (string, string) {
    match FirstSeparator(s, 0)
    case None => (s, "")
    case Some(k) => (s[..k], s[k + 1..])
  }

  /** The body of a text that starts with two backslashes is verbatim or names a device. */
  predicate Device(body: string) {
    |body| >= 2 && ((body[0] == '?' && body[1] == '\\') || (body[0] == '.' && IsSeparator(body[1])))
  }

  /** The body of a text that starts with two separators names a device. */
  predicate DotDevice(body: string) {
    |body| >= 2 && body[0] == '.' && IsSeparator(body[1])
  }

  /** The body names a server and a share. */
  predicate NamesShare(body: string) {
    var (server, rest) := NextComponent(body);
    !Device(body) && server != "" && NextComponent(rest).0 != ""
  }

  /** The share of a UNC body and what lies below it, if it names one. */
  function ShareOf(body: string): Option<RootedPath> {
    var (server, rest) := NextComponent(body);
    var (share, below) := NextComponent(rest);
    if NamesShare(body) then Some(RootedPath(Unc(server, share), Components(below))) else None
  }

  /** The share after two separators that are not both backslashes, where `?` is a server like any other. */
  function PlainShare(body: string): Option<RootedPath> {
    var (server, rest) := NextComponent(body);
    var (share, below) := NextComponent(rest);
    if server != "" && share != "" then Some(RootedPath(Unc(server, share), Components(below))) else None
  }

  predicate DoublySeparated(path: string) {
    |path| >= 2 && IsSeparator(path[0]) && IsSeparator(path[1])
  }

  function ParseOrdinary(path: string): Option<RootedPath> {
    if DoublySeparated(path) then
      if path[..2] == "\\\\" then ShareOf(path[2..])
      else if DotDevice(path[2..]) then None
      else PlainShare(path[2..])
    else if |path| >= 3 && IsLetter(path[0]) && path[1] == ':' && IsSeparator(path[2]) then
      Some(RootedPath(Disk(UpperOf(path[0])), Components(path[2..])))
    else None
  }

  // ---------------------------------------------------------------- verbatim and device paths

  function Nonempty(segment: string): seq<string> {
    if segment == "" then [] else [segment]
  }

  function Segments(s: string): seq<string>
    decreases |s|
  {
    match FindChar(s, '\\', 0)
    case None => Nonempty(s)
    case Some(k) => Nonempty(s[..k]) + Segments(s[k + 1..])
  }

  function NextSegment(s: string): (string, string) {
    match FindChar(s, '\\', 0)
    case None => (s, "")
    case Some(k) => (s[..k], s[k + 1..])
  }

  predicate UncMarked(s: string) {
    |s| >= 4 && s[..3] == "UNC" && IsSeparator(s[3])
  }

  predicate DriveExact(s: string) {
    |s| >= 2 && IsLetter(s[0]) && s[1] == ':' && (|s| > 2 ==> IsSeparator(s[2]))
  }

  /** What follows the verbatim mark. */
  function ParseVerbatim(s: string): RootedPath {
    if UncMarked(s) then
      var (server, rest) := NextSegment(s[4..]);
      var (share, below) := NextSegment(rest);
      RootedPath(VerbatimUnc(server, share), Segments(below))
    else if DriveExact(s) then RootedPath(VerbatimDisk(UpperOf(s[0])), Segments(s[2..]))
    else
      var (name, below) := NextSegment(s);
      RootedPath(VerbatimName(name), Segments(below))
  }

  /** An absolute path: its prefix has a root of its own, or is a drive followed by a separator. */
  function ParseRooted(path: string): Option<RootedPath> {
    if Verbatim(path) then Some(ParseVerbatim(path[4..]))
    else if DoublySeparated(path) && DotDevice(path[2..]) then
      var (name, below) := NextComponent(path[4..]);
      Some(RootedPath(DeviceName(name), Components(below)))
    else ParseOrdinary(path)
  }

  // ---------------------------------------------------------------- the Core's conversion

  function StripVerbatim(path: string, units: nat, replacement: string): Option<string> {
    if |path| <= units then None
    else
      var normalized := replacement + path[units..];
      if ParseRooted(normalized).Some? then Some(normalized) else None
  }

  /** `dos_absolute`: ordinary paths as they are, verbatim drives and `UNC` shares stripped, nothing else. */
  function DosAbsolute(path: string): Option<string> {
    match ParseRooted(path)
    case None => None
    case Some(parsed) =>
      match parsed.prefix
      case Disk(_) => Some(path)
      case Unc(_, _) => Some(path)
      case VerbatimDisk(_) => StripVerbatim(path, 4, "")
      case VerbatimUnc(_, _) => StripVerbatim(path, 8, "\\\\")
      case VerbatimName(_) => None
      case DeviceName(_) => None
  }

  /** The path the Core works with. */
  function CoreView(path: string): Option<RootedPath> {
    match DosAbsolute(path)
    case None => None
    case Some(dos) => ParseRooted(dos)
  }

  // ---------------------------------------------------------------- components of joined text

  predicate Named(name: string) {
    name != "" && name != "." && forall i :: 0 <= i < |name| ==> !IsSeparator(name[i])
  }

  lemma ComponentsOfName(name: string)
    requires Named(name)
    ensures Components(name) == [name]
  {
  }

  lemma FirstIs(s: string, k: nat, from: nat)
    requires from <= k < |s| && IsSeparator(s[k]) && forall i :: from <= i < k ==> !IsSeparator(s[i])
    ensures FirstSeparator(s, from) == Some(k)
  {
  }

  lemma {:induction false} ComponentsJoined(a: string, separator: char, b: string)
    requires IsSeparator(separator)
    ensures Components(a + [separator] + b) == Components(a) + Components(b)
    decreases |a|
  {
    var whole := a + [separator] + b;
    match FirstSeparator(a, 0)
    case None =>
      FirstIs(whole, |a|, 0);
      assert whole[..|a|] == a && whole[|a| + 1..] == b;
    case Some(k) =>
      FirstIs(whole, k, 0);
      assert whole[..k] == a[..k] && whole[k + 1..] == a[k + 1..] + [separator] + b;
      ComponentsJoined(a[k + 1..], separator, b);
      Associative(Kept(a[..k]), Components(a[k + 1..]), Components(b));
  }

  lemma ComponentsBelow(a: string, name: string)
    requires Named(name)
    ensures Components(a + "\\" + name) == Components(a) + [name]
  {
    ComponentsJoined(a, '\\', name);
    ComponentsOfName(name);
  }

  // ---------------------------------------------------------------- what lies below a home

  function HomeRootOf(home: string, separator: char): string {
    if home != "" && home[|home| - 1] == ':' then home + [separator] else home
  }

  /** The volume path of a text, if its DOS form has one. */
  function VolumePath(path: string): Option<RootedPath> {
    match Dos(path)
    case None => None
    case Some(dos) => ParseOrdinary(dos)
  }

  lemma SameDrivePrefix(a: string, b: string)
    requires IsDrivePath(a) && |b| >= 7 && a[..7] == b[..7]
    ensures IsDrivePath(b)
  {
    assert a[..4] == a[..7][..4] && b[..4] == b[..7][..4];
    assert a[..7][4] == a[4] == b[..7][4] && a[..7][5] == a[5] == b[..7][5] && a[..7][6] == a[6] == b[..7][6];
  }

  lemma ExtendedDriveIs(path: string)
    requires ExtendedDrive(path)
    ensures IsDrivePath(path)
  {
    assert path[4..][0] == path[4] && path[4..][1] == path[5] && path[4..][2] == path[6];
  }

  /** The root of a drive home keeps its separator; any other home needs none. */
  lemma DriveRoot(home: string, own: char)
    requires IsSeparator(own) && |home| >= 6 && IsDrivePath(home + [own])
    ensures VolumePath(HomeRootOf(home, own)) == Some(RootedPath(Disk(UpperOf(home[4])), Components(home[6..])))
  {
    hide Components, IsDrivePath, VolumePath;
    var longer, root := home + [own], HomeRootOf(home, own);
    DriveColon(longer);
    if root == home {
      assert |home| > 6;
      assert longer[..7] == home[..7];
      SameDrivePrefix(longer, home);
    } else {
      assert root == longer;
      assert root[6..] == home[6..] + [own];
      assert (home[6..] + [own]) + "" == home[6..] + [own];
      ComponentsJoined(home[6..], own, "");
      ComponentsOfNothing();
      assert Components(home[6..]) + [] == Components(home[6..]);
    }
    DriveVolume(root);
    assert root[4] == home[4];
  }

  lemma DriveColon(path: string)
    requires IsDrivePath(path)
    ensures path[5] == ':' && path[6] == '\\'
  {
  }

  lemma DriveBelow(home: string, own: char, separator: char, x: string)
    requires IsSeparator(own) && IsSeparator(separator) && |home| >= 6 && (|home| == 6 ==> own == separator)
    requires IsDrivePath(home + [own])
    ensures VolumePath(home + [separator] + x) == Some(RootedPath(Disk(UpperOf(home[4])), Components(home[6..]) + Components(x)))
  {
    hide Components, IsDrivePath, VolumePath;
    var longer, path := home + [own], home + [separator] + x;
    assert longer[..7] == path[..7];
    SameDrivePrefix(longer, path);
    DriveVolume(path);
    assert path[6..] == home[6..] + [separator] + x;
    ComponentsJoined(home[6..], separator, x);
    assert path[4] == home[4];
  }

  lemma ComponentsOfNothing()
    ensures Components("") == []
  {
  }

  predicate IsDrivePath(path: string) {
    |path| >= 7 && path[..4] == "\\\\?\\" && IsLetter(path[4]) && path[5] == ':' && path[6] == '\\'
  }

  lemma DriveVolume(path: string)
    requires IsDrivePath(path)
    ensures ExtendedDrive(path) && Dos(path) == Some(path[4..])
    ensures VolumePath(path) == Some(RootedPath(Disk(UpperOf(path[4])), Components(path[6..])))
  {
    hide Components;
    var dos := path[4..];
    assert dos[0] == path[4] && dos[1] == path[5] && dos[2] == path[6] && dos[2..] == path[6..];
    assert path[0] == path[..4][0] && path[2] == path[..4][2];
  }

  predicate IsUncPath(path: string) {
    |path| >= 9 && path[..4] == "\\\\?\\" && UpperOf(path[4]) == 'U' && UpperOf(path[5]) == 'N' && UpperOf(path[6]) == 'C' && path[7] == '\\'
  }

  lemma UncVolume(path: string)
    requires IsUncPath(path)
    ensures ExtendedUnc(path) && Dos(path) == Some("\\\\" + path[8..]) && VolumePath(path) == ShareOf(path[8..])
  {
    hide Components, NextComponent;
    var dos := "\\\\" + path[8..];
    assert dos[0] == '\\' && dos[2..] == path[8..];
    assert path[0] == path[..4][0] && path[2] == path[..4][2] && path[1] == path[..4][1];
  }

  lemma NextOfJoined(a: string, separator: char, x: string)
    requires IsSeparator(separator)
    ensures var (first, rest) := NextComponent(a);
            NextComponent(a + [separator] + x)
            == if FirstSeparator(a, 0).Some? then (first, rest + [separator] + x) else (a, x)
  {
    hide FirstSeparator;
    var whole := a + [separator] + x;
    assert whole[|a|] == separator && forall i :: 0 <= i < |a| ==> whole[i] == a[i];
    match FirstSeparator(a, 0)
    case None =>
      FirstIs(whole, |a|, 0);
      assert whole[..|a|] == a && whole[|a| + 1..] == x;
    case Some(k) =>
      FirstIs(whole, k, 0);
      assert whole[..k] == a[..k] && whole[k + 1..] == a[k + 1..] + [separator] + x;
  }

  /** Below a body that names a share, the share stays the same. */
  lemma ShareBelow(body: string, separator: char, x: string)
    requires IsSeparator(separator) && ShareOf(body).Some?
    ensures ShareOf(body + [separator] + x)
            == Some(RootedPath(ShareOf(body).value.prefix, ShareOf(body).value.components + Components(x)))
  {
    hide Components, FirstSeparator;
    var (server, rest) := NextComponent(body);
    var (share, below) := NextComponent(rest);
    assert [] + Components(x) == Components(x);
    var whole := body + [separator] + x;
    NextOfJoined(body, separator, x);
    NextOfJoined(rest, separator, x);
    assert whole[0] == body[0] && |body| >= 2 && whole[1] == body[1];
    ComponentsOfNothing();
    if FirstSeparator(rest, 0).Some? {
      ComponentsJoined(below, separator, x);
    }
  }

  lemma SameUncPrefix(a: string, b: string)
    requires IsUncPath(a) && |b| >= 9 && a[..8] == b[..8]
    ensures IsUncPath(b)
  {
    assert a[..4] == a[..8][..4] && b[..4] == b[..8][..4];
    assert forall i :: 0 <= i < 8 ==> a[i] == a[..8][i] == b[i];
  }

  lemma UncBelow(home: string, own: char, separator: char, x: string)
    requires IsSeparator(own) && IsSeparator(separator) && |home| >= 8 && x != "" && IsUncPath(home + [own] + x)
    requires VolumePath(HomeRootOf(home, own)).Some?
    ensures var root := VolumePath(HomeRootOf(home, own)).value;
            VolumePath(home + [separator] + x) == Some(RootedPath(root.prefix, root.components + Components(x)))
    ensures ShareOf(home[8..]) == VolumePath(HomeRootOf(home, own))
  {
    hide Components, ShareOf, IsUncPath, ParseOrdinary, Dos;
    var given, path, root := home + [own] + x, home + [separator] + x, HomeRootOf(home, own);
    assert given[..8] == home[..8] == path[..8];
    SameUncPrefix(given, path);
    assert path[8..] == home[8..] + [separator] + x;
    UncVolume(path);
    assert (home + [own])[..8] == home[..8];
    SameUncPrefix(given, home + [own]);
    RootIsUnc(home, own);
    UncVolume(root);
    if root != home {
      assert root[8..] == home[8..] + [own] + "";
      ColonRoot(home[8..], own);
    }
    ShareBelow(home[8..], separator, x);
  }

  lemma RootIsUnc(home: string, own: char)
    requires |home| >= 8 && IsSeparator(own) && VolumePath(HomeRootOf(home, own)).Some?
    requires IsUncPath(home + [own])
    ensures IsUncPath(HomeRootOf(home, own))
  {
    hide ParseOrdinary;
    var root, longer := HomeRootOf(home, own), home + [own];
    assert longer[..4] == home[..4] == root[..4] && longer[4] == root[4] && longer[5] == root[5] && longer[6] == root[6] && longer[7] == root[7];
    assert root[..4][2] == root[2] && root[..4][0] == root[0];
  }

  /** A separator after a last component changes nothing. */
  lemma ColonRoot(body: string, own: char)
    requires IsSeparator(own) && ShareOf(body + [own] + "").Some? && body != "" && body[|body| - 1] == ':'
    ensures ShareOf(body) == ShareOf(body + [own] + "")
  {
    hide Components, FirstSeparator;
    var (server, rest) := NextComponent(body);
    var (share, below) := NextComponent(rest);
    assert Components(below) + [] == Components(below);
    var whole := body + [own] + "";
    assert whole[0] == body[0] && (|body| >= 2 ==> whole[1] == body[1]);
    NextOfJoined(body, own, "");
    NextOfJoined(rest, own, "");
    ComponentsOfNothing();
    if FirstSeparator(body, 0).Some? && FirstSeparator(rest, 0).Some? {
      ComponentsJoined(below, own, "");
    }
  }

  // ---------------------------------------------------------------- what the Core sees of extended paths

  lemma OrdinaryIsRooted(path: string)
    requires ParseOrdinary(path).Some?
    ensures ParseRooted(path) == ParseOrdinary(path) && !Verbatim(path)
  {
  }

  lemma OrdinaryPrefix(path: string)
    requires ParseOrdinary(path).Some?
    ensures var prefix := ParseOrdinary(path).value.prefix;
            prefix.Disk? || prefix.Unc?
  {
  }

  lemma VerbatimIs(path: string)
    requires |path| >= 4 && path[..4] == "\\\\?\\"
    ensures Verbatim(path)
  {
  }

  lemma DriveView(path: string)
    requires IsDrivePath(path)
    ensures Verbatim(path) && CoreView(path) == VolumePath(path) && VolumePath(path).Some?
  {
    hide Components, Segments, ShareOf;
    DriveVolume(path);
    VerbatimIs(path);
    var s, dos := path[4..], path[4..];
    assert s[0] == path[4] && s[1] == path[5] && s[2] == path[6];
    assert !UncMarked(s);
    assert "" + path[4..] == dos;
    assert !DoublySeparated(dos) && !Verbatim(dos);
  }

  /** Of the extended UNC paths the Core accepts only those that spell `UNC` in capitals. */
  lemma UncView(path: string)
    requires IsUncPath(path)
    ensures Verbatim(path) && CoreView(path) == if path[4..7] == "UNC" then ParseRooted("\\\\" + path[8..]) else None
  {
    hide Segments;
    VerbatimIs(path);
    var s := path[4..];
    assert s[0] == path[4] && s[1] == path[5] && s[3] == path[7] && s[..3] == path[4..7];
    assert !DriveExact(s);
    assert UncMarked(s) <==> path[4..7] == "UNC";
  }

  lemma OrdinaryShare(body: string)
    requires !Device(body)
    ensures ParseRooted("\\\\" + body) == ShareOf(body)
  {
    hide ShareOf;
    var path := "\\\\" + body;
    assert path[2..] == body && path[0] == '\\' && path[1] == '\\';
  }

  lemma DosOfUnc(path: string)
    requires IsUncPath(path)
    ensures Dos(path) == Some("\\\\" + path[8..])
  {
    UncVolume(path);
  }

  /** The Core sees what the launcher's conversion names, for a drive or a share spelled in capitals. */
  lemma CapitalView(path: string)
    requires IsUncPath(path) && path[4..7] == "UNC" && !Device(path[8..])
    ensures CoreView(path) == VolumePath(path)
  {
    hide ShareOf, ParseRooted, IsUncPath, VolumePath, CoreView;
    UncView(path);
    UncVolume(path);
    OrdinaryShare(path[8..]);
  }
}
