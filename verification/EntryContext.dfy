/** The Core's derivation of its layout from its own path, the inverse of the launcher's. */
module EntryContext {
  import opened ByteStrings
  import opened EntryLayout
  import opened RootedPath
  import opened WidePath
  import opened Wrappers

  // ---------------------------------------------------------------- the Core's layout

  datatype RunningLayout = RunningLayout(home: RootedPath, dataRoot: RootedPath, runtimeRoot: RootedPath, entryName: string, releaseId: string)

  function ExpectedParent(path: RootedPath, name: string): Option<RootedPath> {
    match path.Parent()
    case None => None
    case Some(parent) => if parent.FileName() == Some(name) then Some(parent) else None
  }

  const DATA_PREFIX := "proj."

  function DeriveRunningLayout(executable: RootedPath, executableName: string): Option<RunningLayout> {
    if executable.FileName() != Some(executableName) then None
    else
      match executable.Parent()
      case None => None
      case Some(release) =>
        if !(release.FileName().Some? && IsReleaseId(release.FileName().value)) then None
        else
          match ExpectedParent(release, "releases")
          case None => None
          case Some(releases) =>
            match ExpectedParent(releases, "runtime")
            case None => None
            case Some(runtime) =>
              match runtime.Parent()
              case None => None
              case Some(dataRoot) =>
                if !(dataRoot.FileName().Some? && DATA_PREFIX < dataRoot.FileName().value) then None
                else
                  match ExpectedParent(dataRoot, "data")
                  case None => None
                  case Some(data) =>
                    match data.Parent()
                    case None => None
                    case Some(home) =>
                      Some(RunningLayout(home, dataRoot, runtime, dataRoot.FileName().value[|DATA_PREFIX|..], release.FileName().value))
  }

  // ---------------------------------------------------------------- binding the entry file

  /** Unicode White_Space. */
  predicate IsWhitespace(c: char) {
    || '\t' <= c <= '\r' || c == ' ' || c == '\U{85}' || c == '\U{A0}' || c == '\U{1680}' || '\U{2000}' <= c <= '\U{200A}'
    || c == '\U{2028}' || c == '\U{2029}' || c == '\U{202F}' || c == '\U{205F}' || c == '\U{3000}'
  }

  predicate Blank(s: string) {
    forall i :: 0 <= i < |s| ==> IsWhitespace(s[i])
  }

  function LastDot(s: string, before: nat): (index: Option<nat>)
    requires before <= |s|
    ensures index.Some? ==> index.value < before
  {
    if before == 0 then None else if s[before - 1] == '.' then Some(before - 1) else LastDot(s, before - 1)
  }

  /** A file name without its extension, and the extension; a leading dot starts none. */
  function StemAndExtension(name: string): (string, Option<string>) {
    match LastDot(name, |name|)
    case None => (name, None)
    case Some(k) => if k == 0 then (name, None) else (name[..k], Some(name[k + 1..]))
  }

  function EntryContextOf(entry: RootedPath, executable: RootedPath, executableName: string): Option<RunningLayout> {
    match DeriveRunningLayout(executable, executableName)
    case None => None
    case Some(layout) =>
      if entry.Parent() != Some(layout.home) || entry.FileName() == None then None
      else
        var (stem, extension) := StemAndExtension(entry.FileName().value);
        if !(extension.Some? && Lowered(extension.value) == "exe") || Blank(stem) then None
        else if (if layout.entryName == MANAGER_NAME then Lowered(stem) == MANAGER_NAME else stem == layout.entryName) then Some(layout)
        else None
  }

  const CORE_NAME := "swawkit-proj.exe"

  /** `absolute_path`: what the system makes of a text, converted. */
  function AbsolutePath(absolute: string -> Option<string>, path: string): Option<RootedPath> {
    match absolute(path)
    case None => None
    case Some(resolved) => CoreView(resolved)
  }

  /** What the Core makes of its own path and of the entry path it is given; `absolute` is `std::path::absolute`. */
  function CoreContext(absolute: string -> Option<string>, entry: string, executable: string): Option<RunningLayout> {
    match AbsolutePath(absolute, executable)
    case None => None
    case Some(core) =>
      match AbsolutePath(absolute, entry)
      case None => None
      case Some(file) => EntryContextOf(file, core, CORE_NAME)
  }

  // ---------------------------------------------------------------- the launcher's paths, parsed

  predicate Divides(entry: string, at: nat) {
    && ExtendedAbsolute(entry) && at < |entry| && IsSeparator(entry[at])
    && (forall i :: at < i < |entry| ==> !IsSeparator(entry[i])) && at + 1 < |entry|
  }

  lemma ExtendedShape(entry: string, at: nat)
    requires Divides(entry, at)
    ensures if ExtendedDrive(entry) then at >= 6 && (at == 6 ==> entry[at] == '\\') else at >= 7 && IsUncPath(entry)
  {
    assert entry[..4] == "\\\\?\\";
    if ExtendedDrive(entry) {
      assert entry[4..][2] == entry[6] == '\\';
    } else {
      assert IsSeparator(entry[7]);
    }
  }

  /** Below a usable home, any text is parsed as the home's path and the text's components. */
  lemma HomeBelow(entry: string, at: nat, separator: char, x: string)
    requires Divides(entry, at) && x != "" && (separator == '\\' || separator == entry[at])
    requires VolumePath(HomeRootOf(entry[..at], entry[at])).Some?
    ensures var root := VolumePath(HomeRootOf(entry[..at], entry[at])).value;
            VolumePath(entry[..at] + [separator] + x) == Some(RootedPath(root.prefix, root.components + Components(x)))
  {
    hide Components, ParseOrdinary, ShareOf;
    var home, own, file := entry[..at], entry[at], entry[at + 1..];
    ExtendedShape(entry, at);
    assert entry == home + [own] + file;
    if ExtendedDrive(entry) {
      DriveHome(home, own, file);
      DriveRoot(home, own);
      DriveBelow(home, own, separator, x);
    } else {
      NarrowHome(home, own);
      assert (home + [own] + x)[..8] == entry[..8];
      SameUncPrefix(entry, home + [own] + x);
      UncBelow(home, own, separator, x);
    }
  }

  lemma DriveHome(home: string, own: char, file: string)
    requires |home| >= 6 && ExtendedDrive(home + [own] + file)
    ensures IsDrivePath(home + [own])
  {
    hide IsDrivePath, ExtendedDrive;
    ExtendedDriveIs(home + [own] + file);
    assert (home + [own] + file)[..7] == (home + [own])[..7];
    SameDrivePrefix(home + [own] + file, home + [own]);
  }

  /** A home text of at most seven characters, or the bare UNC prefix, is no volume path. */
  lemma NarrowHome(home: string, own: char)
    requires |home| >= 7 && IsUncPath(home + [own] + "x") && VolumePath(HomeRootOf(home, own)).Some?
    ensures |home| >= 8
  {
    var longer := home + [own] + "x";
    assert forall k :: 0 <= k < 7 ==> longer[k] == home[k];
    assert longer[..4][0] == longer[0] && longer[..4][2] == longer[2];
  }

  // ---------------------------------------------------------------- deriving from six components

  predicate EntryNamed(name: string) {
    name != "" && forall i :: 0 <= i < |name| ==> !IsSeparator(name[i])
  }

  function TailOf(name: string, id: string): seq<string> {
    ["data", DATA_PREFIX + name, "runtime", "releases", id, CORE_NAME]
  }

  lemma DeriveIs(home: RootedPath, name: string, id: string)
    requires name != "" && IsReleaseId(id)
    ensures var dataRoot := home.Child("data").Child(DATA_PREFIX + name);
            DeriveRunningLayout(RootedPath(home.prefix, home.components + TailOf(name, id)), CORE_NAME)
            == Some(RunningLayout(home, dataRoot, dataRoot.Child("runtime"), name, id))
  {
    hide IsReleaseId, RootedPath.Child, RootedPath.Parent, RootedPath.FileName;
    var data := home.Child("data");
    var dataRoot := data.Child(DATA_PREFIX + name);
    var runtime := dataRoot.Child("runtime");
    var releases := runtime.Child("releases");
    var release := releases.Child(id);
    ChildParent(home, "data");
    ChildParent(data, DATA_PREFIX + name);
    ChildParent(dataRoot, "runtime");
    ChildParent(runtime, "releases");
    ChildParent(releases, id);
    ChildParent(release, CORE_NAME);
    TailChain(home, name, id);
    assert (DATA_PREFIX + name)[0] == 'p' && (DATA_PREFIX + name)[|DATA_PREFIX|..] == name;
    assert CORE_NAME[0] == 's';
    assert id != ".." && id != "." by { ReleaseIdNamed(id); }
  }

  lemma TailChain(home: RootedPath, name: string, id: string)
    ensures home.Child("data").Child(DATA_PREFIX + name).Child("runtime").Child("releases").Child(id).Child(CORE_NAME)
            == RootedPath(home.prefix, home.components + TailOf(name, id))
  {
  }

  lemma ChildParent(path: RootedPath, name: string)
    ensures path.Child(name).Parent() == Some(path)
    ensures name != ".." && name != "." ==> path.Child(name).FileName() == Some(name)
  {
    assert (path.components + [name])[..|path.components|] == path.components;
  }

  lemma IsChild(path: RootedPath, parent: RootedPath, name: string)
    requires path.Parent() == Some(parent) && path.FileName() == Some(name)
    ensures path == parent.Child(name)
  {
  }

  /** And nothing else is derived: the path ends in these six components, and the layout names them. */
  lemma DerivedOnlyFrom(executable: RootedPath, executableName: string)
    requires DeriveRunningLayout(executable, executableName).Some?
    ensures var layout := DeriveRunningLayout(executable, executableName).value;
            && layout.entryName != "" && IsReleaseId(layout.releaseId)
            && layout.dataRoot == layout.home.Child("data").Child("proj." + layout.entryName)
            && layout.runtimeRoot == layout.dataRoot.Child("runtime")
            && executable == layout.runtimeRoot.Child("releases").Child(layout.releaseId).Child(executableName)
  {
    hide IsReleaseId, RootedPath.Child, RootedPath.Parent, RootedPath.FileName;
    var layout := DeriveRunningLayout(executable, executableName).value;
    var release := executable.Parent().value;
    var releases := ExpectedParent(release, "releases").value;
    var runtime := ExpectedParent(releases, "runtime").value;
    var dataRoot := runtime.Parent().value;
    var data := ExpectedParent(dataRoot, "data").value;
    IsChild(executable, release, executableName);
    IsChild(release, releases, layout.releaseId);
    IsChild(releases, runtime, "releases");
    IsChild(runtime, dataRoot, "runtime");
    var name := dataRoot.FileName().value;
    assert name[..|DATA_PREFIX|] == DATA_PREFIX && name == name[..|DATA_PREFIX|] + name[|DATA_PREFIX|..];
    assert layout.entryName == name[|DATA_PREFIX|..];
    IsChild(dataRoot, data, DATA_PREFIX + layout.entryName);
    IsChild(data, layout.home, "data");
  }

  const WHITESPACE: set<char> :=
    {'\t', '\n', '\U{B}', '\U{C}', '\r', ' ', '\U{85}', '\U{A0}', '\U{1680}',
     '\U{2000}', '\U{2001}', '\U{2002}', '\U{2003}', '\U{2004}', '\U{2005}', '\U{2006}', '\U{2007}', '\U{2008}',
     '\U{2009}', '\U{200A}', '\U{2028}', '\U{2029}', '\U{202F}', '\U{205F}', '\U{3000}'}

  /** The characters that trimming takes off: the 25 with the White_Space property of the Unicode Standard. */
  lemma WhitespaceExactly(c: char)
    ensures IsWhitespace(c) <==> c in WHITESPACE
  {
    if '\t' <= c <= '\r' {
      assert c as int == 9 || c as int == 10 || c as int == 11 || c as int == 12 || c as int == 13;
    }
    if '\U{2000}' <= c <= '\U{200A}' {
      assert 0x2000 <= c as int <= 0x200A;
    }
  }

  /** Anything the Core accepts lies at least six components below its volume. */
  lemma DeriveNeedsDepth(executable: RootedPath, name: string)
    requires DeriveRunningLayout(executable, name).Some?
    ensures |executable.components| >= 6
  {
    hide IsReleaseId;
  }

  // ---------------------------------------------------------------- the launcher's texts

  function TailText(name: string, id: string): string {
    "data" + "\\" + (DATA_PREFIX + name) + "\\" + "runtime" + "\\" + "releases" + "\\" + id + "\\" + CORE_NAME
  }

  lemma WordsNamed()
    ensures Named("data") && Named("runtime") && Named("releases") && Named(CORE_NAME)
  {
  }

  lemma ReleaseIdNamed(id: string)
    requires IsReleaseId(id)
    ensures Named(id) && |id| == 64
  {
  }

  lemma ComponentsOfTail(name: string, id: string)
    requires EntryNamed(name) && IsReleaseId(id)
    ensures Components("data" + "\\" + (DATA_PREFIX + name)) == ["data", DATA_PREFIX + name]
    ensures Components("data" + "\\" + (DATA_PREFIX + name) + "\\" + "runtime") == ["data", DATA_PREFIX + name, "runtime"]
    ensures Components(TailText(name, id)) == TailOf(name, id)
  {
    hide Components, IsReleaseId, Named;
    WordsNamed();
    ReleaseIdNamed(id);
    PrefixedNamed(name);
    var data := "data";
    var dataRoot := data + "\\" + (DATA_PREFIX + name);
    var runtime := dataRoot + "\\" + "runtime";
    var releases := runtime + "\\" + "releases";
    var release := releases + "\\" + id;
    ComponentsOfName(data);
    ComponentsBelow(data, DATA_PREFIX + name);
    ComponentsBelow(dataRoot, "runtime");
    ComponentsBelow(runtime, "releases");
    ComponentsBelow(releases, id);
    ComponentsBelow(release, CORE_NAME);
  }

  lemma PrefixedNamed(name: string)
    requires EntryNamed(name)
    ensures Named(DATA_PREFIX + name)
  {
    var s := DATA_PREFIX + name;
    assert forall i :: |DATA_PREFIX| <= i < |s| ==> s[i] == name[i - |DATA_PREFIX|];
  }

  lemma TextsBelowHome(home: string, separator: char, file: string, id: string)
    requires HasExeSuffix(file)
    ensures var layout := LayoutOf(home, separator, file);
            var name := EntryName(file);
            && layout.dataRoot == home + (['\\'] + ("data" + "\\" + (DATA_PREFIX + name)))
            && layout.runtimeRoot == home + (['\\'] + ("data" + "\\" + (DATA_PREFIX + name) + "\\" + "runtime"))
            && CorePath(layout.releasesRoot, id) == home + (['\\'] + TailText(name, id))
            && layout.homeRoot == HomeRootOf(home, separator)
  {
    hide HasExeSuffix, IsManagerFile, EntryName;
    var name := EntryName(file);
    var dataRoot := "\\data\\proj." + name;
    Associative(home, "\\data\\proj.", name);
    assert dataRoot == ['\\'] + ("data" + "\\" + (DATA_PREFIX + name));
    Associative(home, dataRoot, "\\runtime");
    var runtime := dataRoot + "\\runtime";
    assert runtime == ['\\'] + ("data" + "\\" + (DATA_PREFIX + name) + "\\" + "runtime");
    Associative(home, runtime, "\\releases");
    var releases := runtime + "\\releases";
    Associative(home, releases, "\\");
    Associative(home, releases + "\\", id);
    Associative(home, releases + "\\" + id, "\\swawkit-proj.exe");
    var core := releases + "\\" + id + "\\swawkit-proj.exe";
    TailRegrouped(name, id);
  }

  lemma ComponentAdded(a: string, d: string, suffix: string, name: string)
    requires a == ['\\'] + d && suffix == "\\" + name
    ensures a + suffix == ['\\'] + (d + "\\" + name)
  {
    Associative(['\\'], d, suffix);
    Associative(d, "\\", name);
  }

  lemma TailRegrouped(name: string, id: string)
    ensures "\\data\\proj." + name + "\\runtime" + "\\releases" + "\\" + id + "\\swawkit-proj.exe" == ['\\'] + TailText(name, id)
  {
    var a, d := "\\data\\proj." + name, "data" + "\\" + (DATA_PREFIX + name);
    assert a == ['\\'] + d;
    assert "\\runtime" == "\\" + "runtime" && "\\releases" == "\\" + "releases" && "\\swawkit-proj.exe" == "\\" + CORE_NAME;
    ComponentAdded(a, d, "\\runtime", "runtime");
    var a1, d1 := a + "\\runtime", d + "\\" + "runtime";
    ComponentAdded(a1, d1, "\\releases", "releases");
    var a2, d2 := a1 + "\\releases", d1 + "\\" + "releases";
    ComponentAdded(a2, d2, "\\" + id, id);
    Associative(a2, "\\", id);
    ComponentAdded(a2 + ("\\" + id), d2 + "\\" + id, "\\swawkit-proj.exe", CORE_NAME);
  }

  // ---------------------------------------------------------------- the two layouts are inverse

  lemma LastDotIs(s: string, k: nat, before: nat)
    requires k < before <= |s| && s[k] == '.' && forall i :: k < i < before ==> s[i] != '.'
    ensures LastDot(s, before) == Some(k)
    decreases before
  {
    if before - 1 > k { LastDotIs(s, k, before - 1); }
  }

  /** An entry file's stem and extension, and what the launcher calls the entry. */
  lemma EntryFile(file: string)
    requires HasExeSuffix(file)
    ensures var stem := file[..|file| - 4];
            && StemAndExtension(file) == (stem, Some(file[|file| - 3..])) && Lowered(file[|file| - 3..]) == "exe"
            && (IsManagerFile(file) <==> Lowered(stem) == MANAGER_NAME)
            && (EntryName(file) == MANAGER_NAME <==> IsManagerFile(file))
            && (IsManagerFile(file) ==> !Blank(stem))
  {
    var k := |file| - 4;
    var stem, extension := file[..k], file[k + 1..];
    LastDotIs(file, k, |file|);
    assert Lowered(extension) == "exe";
    assert Lowered(file) == Lowered(stem) + "." + "exe";
    assert "swawkit.exe" == MANAGER_NAME + "." + "exe";
    if Lowered(stem) == MANAGER_NAME {
      assert Lowered(stem)[0] == 's' && LowerOf(stem[0]) == 's';
    }
    if Lowered(file) == "swawkit.exe" {
      assert Lowered(file)[..k] == Lowered(stem) && "swawkit.exe"[..7] == MANAGER_NAME;
    }
    if stem == MANAGER_NAME { assert Lowered(stem) == MANAGER_NAME; }
  }

  lemma EntryNameNamed(file: string)
    requires HasExeSuffix(file) && forall i :: 0 <= i < |file| ==> !IsSeparator(file[i])
    ensures EntryNamed(EntryName(file)) && Named(file) && file != ".."
  {
    hide IsManagerFile;
  }

  /** Below a home with a volume path, the launcher's texts name the home's descendants. */
  lemma TextsOnVolume(entry: string, at: nat, id: string)
    requires Divides(entry, at) && HasExeSuffix(entry[at + 1..]) && IsReleaseId(id)
    requires VolumePath(HomeRootOf(entry[..at], entry[at])).Some?
    ensures var file := entry[at + 1..];
            var home := VolumePath(HomeRootOf(entry[..at], entry[at])).value;
            var dataRoot := home.Child("data").Child(DATA_PREFIX + EntryName(file));
            var layout := LayoutOf(entry[..at], entry[at], file);
            && VolumePath(entry) == Some(home.Child(file))
            && VolumePath(layout.dataRoot) == Some(dataRoot) && VolumePath(layout.runtimeRoot) == Some(dataRoot.Child("runtime"))
            && VolumePath(CorePath(layout.releasesRoot, id))
               == Some(RootedPath(home.prefix, home.components + TailOf(EntryName(file), id)))
  {
    hide Components, VolumePath, HomeRootOf, IsReleaseId, HasExeSuffix, IsManagerFile, LayoutOf, Named, TailText;
    var home, own, file := entry[..at], entry[at], entry[at + 1..];
    var root := VolumePath(HomeRootOf(home, own)).value;
    var name := EntryName(file);
    EntryNameNamed(file);
    TextsBelowHome(home, own, file, id);
    ComponentsOfTail(name, id);
    var data := "data" + "\\" + (DATA_PREFIX + name);
    Associative(home, ['\\'], data);
    Associative(home, ['\\'], data + "\\" + "runtime");
    Associative(home, ['\\'], TailText(name, id));
    TailNotEmpty(name, id);
    HomeBelow(entry, at, '\\', data);
    HomeBelow(entry, at, '\\', data + "\\" + "runtime");
    HomeBelow(entry, at, '\\', TailText(name, id));
    FileNotEmpty(file);
    HomeBelow(entry, at, own, file);
    assert entry == home + [own] + file;
    ComponentsOfName(file);
    var dataRoot := root.Child("data").Child(DATA_PREFIX + name);
    assert root.components + ["data", DATA_PREFIX + name] == dataRoot.components;
    assert root.components + ["data", DATA_PREFIX + name, "runtime"] == dataRoot.Child("runtime").components;
  }

  lemma TailNotEmpty(name: string, id: string)
    ensures TailText(name, id) != ""
  {
    assert CORE_NAME != "";
  }

  lemma FileNotEmpty(file: string)
    requires HasExeSuffix(file)
    ensures file != ""
  {
  }

  lemma BoundEntry(root: RootedPath, file: string, id: string)
    requires HasExeSuffix(file) && file != ".." && file != "." && IsReleaseId(id)
    ensures var name := EntryName(file);
            var dataRoot := root.Child("data").Child(DATA_PREFIX + name);
            EntryContextOf(RootedPath(root.prefix, root.components + [file]),
                           RootedPath(root.prefix, root.components + TailOf(name, id)), CORE_NAME)
            == if Blank(file[..|file| - 4]) then None
               else Some(RunningLayout(root, dataRoot, dataRoot.Child("runtime"), name, id))
  {
    hide IsReleaseId, HasExeSuffix, IsManagerFile, DeriveRunningLayout, StemAndExtension, Blank, Lowered;
    NameNotEmpty(file);
    DeriveIs(root, EntryName(file), id);
    ChildParent(root, file);
    EntryFile(file);
  }

  lemma NameNotEmpty(file: string)
    requires HasExeSuffix(file)
    ensures EntryName(file) != ""
  {
  }

  lemma DriveIsUsable(entry: string, at: nat)
    requires Divides(entry, at) && ExtendedDrive(entry)
    ensures VolumePath(HomeRootOf(entry[..at], entry[at])).Some?
  {
    hide Components, ParseOrdinary, HomeRootOf;
    ExtendedShape(entry, at);
    assert entry == entry[..at] + [entry[at]] + entry[at + 1..];
    DriveHome(entry[..at], entry[at], entry[at + 1..]);
    DriveRoot(entry[..at], entry[at]);
  }

  /** Below a body that names no share, the fixed tail supplies at most a share name and leaves too few components. */
  lemma NoShareBelow(body: string, first: string, rest: string)
    requires ShareOf(body) == None && Named(first)
    ensures var below := ShareOf(body + ['\\'] + (first + "\\" + rest));
            below == None || below.value.components == Components(rest)
  {
    hide Components, FirstSeparator;
    var tail := first + "\\" + rest;
    var whole := body + ['\\'] + tail;
    assert |body| >= 1 ==> whole[0] == body[0];
    assert |body| >= 2 ==> whole[1] == body[1];
    var (server, others) := NextComponent(body);
    NextOfJoined(body, '\\', tail);
    NextOfName(first, rest);
    if FirstSeparator(body, 0).Some? {
      NextOfJoined(others, '\\', tail);
    }
  }

  lemma NextOfName(first: string, rest: string)
    requires Named(first)
    ensures NextComponent(first + "\\" + rest) == (first, rest)
  {
    hide FirstSeparator;
    NextOfJoined(first, '\\', rest);
  }

  lemma ShareOfTail(first: string, second: string, rest: string)
    requires Named(first) && Named(second) && first[0] != '?' && first[0] != '.'
    ensures ShareOf(first + "\\" + (second + "\\" + rest)) == Some(RootedPath(Unc(first, second), Components(rest)))
  {
    hide Components, FirstSeparator;
    NextOfName(first, second + "\\" + rest);
    NextOfName(second, rest);
  }

  /** The tail after its first component, and after its second. */
  lemma TailParts(name: string, id: string) returns (one: string, two: string)
    requires EntryNamed(name) && IsReleaseId(id)
    ensures TailText(name, id) == "data" + "\\" + one && one == (DATA_PREFIX + name) + "\\" + two
    ensures |Components(one)| == 5 && |Components(two)| == 4
  {
    hide Components, IsReleaseId, Named;
    two := "runtime" + "\\" + "releases" + "\\" + id + "\\" + CORE_NAME;
    one := (DATA_PREFIX + name) + "\\" + two;
    TailSplit(name, id);
    ComponentsOfTail(name, id);
    WordsNamed();
    PrefixedNamed(name);
    ComponentsJoined("data", '\\', one);
    ComponentsOfName("data");
    ComponentsJoined(DATA_PREFIX + name, '\\', two);
    ComponentsOfName(DATA_PREFIX + name);
  }

  lemma TailSplit(name: string, id: string)
    ensures TailText(name, id)
            == "data" + "\\" + ((DATA_PREFIX + name) + "\\" + ("runtime" + "\\" + "releases" + "\\" + id + "\\" + CORE_NAME))
  {
    var p := DATA_PREFIX + name;
    var t1, t2, t3, t4 := "runtime", "\\" + "releases", "\\" + id, "\\" + CORE_NAME;
    var start := "data" + "\\" + p + "\\";
    Associative(start + "runtime", "\\", "releases");
    Associative(start + "runtime" + t2, "\\", id);
    Associative(start + "runtime" + t2 + t3, "\\", CORE_NAME);
    Associative(t1 + t2, "\\", id);
    Associative(t1 + t2 + t3, "\\", CORE_NAME);
    Associative(start, t1, t2);
    Associative(start, t1 + t2, t3);
    Associative(start, t1 + t2 + t3, t4);
    Associative("data" + "\\", p + "\\", t1 + t2 + t3 + t4);
    Associative("data" + "\\", p, "\\");
  }

  /** Below a UNC home without a volume path, the Core's path is none or lies too high. */
  lemma CoreOffVolume(entry: string, at: nat, id: string)
    requires Divides(entry, at) && HasExeSuffix(entry[at + 1..]) && IsReleaseId(id) && IsUncPath(entry) && at >= 7
    requires VolumePath(HomeRootOf(entry[..at], entry[at])) == None
    ensures var core := VolumePath(CorePath(LayoutOf(entry[..at], entry[at], entry[at + 1..]).releasesRoot, id));
            core == None || |core.value.components| < 6
  {
    hide Components, VolumePath, HomeRootOf, IsReleaseId, HasExeSuffix, IsManagerFile, LayoutOf, Named, TailText, ShareOf, IsUncPath;
    var home, own, file := entry[..at], entry[at], entry[at + 1..];
    var name := EntryName(file);
    var core := CorePath(LayoutOf(home, own, file).releasesRoot, id);
    EntryNameNamed(file);
    TextsBelowHome(home, own, file, id);
    TailNotEmpty(name, id);
    assert core == home + (['\\'] + TailText(name, id));
    var one, two := TailParts(name, id);
    UncCore(entry, at, core, TailText(name, id));
    UncVolume(core);
    assert (home + [own] + "x")[..8] == entry[..8];
    SameUncPrefix(entry, home + [own] + "x");
    CoreBody(home, own, core, name, id, one, two);
  }

  lemma UncCore(entry: string, at: nat, core: string, tail: string)
    requires IsUncPath(entry) && 7 <= at < |entry| && core == entry[..at] + (['\\'] + tail) && |tail| >= 1
    ensures IsUncPath(core)
  {
    assert entry[7] == '\\';
    assert core[..8] == entry[..8];
    SameUncPrefix(entry, core);
  }

  /** What the Core's path names below an unusable home. */
  lemma CoreBody(home: string, own: char, core: string, name: string, id: string, one: string, two: string)
    requires |home| >= 7 && core == home + (['\\'] + TailText(name, id)) && IsUncPath(core) && IsSeparator(own)
    requires IsUncPath(home + [own] + "x") && VolumePath(HomeRootOf(home, own)) == None && EntryNamed(name) && IsReleaseId(id)
    requires TailText(name, id) == "data" + "\\" + one && one == (DATA_PREFIX + name) + "\\" + two
    requires |Components(one)| == 5 && |Components(two)| == 4
    ensures ShareOf(core[8..]) == None || |ShareOf(core[8..]).value.components| < 6
  {
    hide Components, ParseOrdinary, Dos, HomeRootOf, IsReleaseId, Named, TailText, ShareOf, IsUncPath;
    WordsNamed();
    if |home| >= 8 {
      var body := home[8..];
      assert core[8..] == body + (['\\'] + TailText(name, id));
      Associative(body, ['\\'], TailText(name, id));
      NoShareAtHome(home, own);
      NoShareBelow(body, "data", one);
    } else {
      assert core[8..] == TailText(name, id);
      PrefixedNamed(name);
      assert "data"[0] == 'd';
      Associative("data", "\\", one);
      ShareOfTail("data", DATA_PREFIX + name, two);
    }
  }

  /** A home without a volume path names no share. */
  lemma NoShareAtHome(home: string, own: char)
    requires |home| >= 8 && IsSeparator(own) && IsUncPath(home + [own] + "x") && VolumePath(HomeRootOf(home, own)) == None
    ensures ShareOf(home[8..]) == None
  {
    hide Components, ParseOrdinary, Dos, ShareOf, IsUncPath;
    var given, root := home + [own] + "x", HomeRootOf(home, own);
    if |root| >= 9 {
      assert given[..8] == root[..8];
      SameUncPrefix(given, root);
      UncVolume(root);
      if root != home && ShareOf(home[8..]).Some? {
        assert root[8..] == home[8..] + [own];
        assert (home[8..] + [own]) + "" == home[8..] + [own];
        ShareBelow(home[8..], own, "");
      }
    } else {
      assert home[8..] == "";
      NoShareInNothing();
    }
  }

  lemma NoShareInNothing()
    ensures ShareOf("") == None
  {
  }

  lemma LocatedDivides(entry: string)
    requires Locate(entry).Some?
    ensures var at := LastSeparator(entry, |entry|);
            at.Some? && Divides(entry, at.value) && HasExeSuffix(entry[at.value + 1..])
            && Locate(entry) == Some(LayoutOf(entry[..at.value], entry[at.value], entry[at.value + 1..]))
  {
    hide HasExeSuffix, ExtendedAbsolute, LayoutOf;
    var at := LastSeparator(entry, |entry|).value;
    FileNotEmpty(entry[at + 1..]);
  }
}
