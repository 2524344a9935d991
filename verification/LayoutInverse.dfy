/** The Core recovers the layout the launcher built: exactly when, for all entry paths. */
module LayoutInverse {
  import opened ByteStrings
  import opened EntryContext
  import opened EntryLayout
  import opened RootedPath
  import opened TextSplit
  import opened WidePath
  import opened Wrappers

  // ---------------------------------------------------------------- resolving paths

  /** `std::path::absolute` returns a verbatim text as it is, and keeps what the text names. */
  predicate Settled(absolute: string -> Option<string>, path: string) {
    && absolute(path).Some? && ParseRooted(absolute(path).value) == ParseRooted(path)
    && (Verbatim(path) ==> absolute(path).value == path)
  }

  lemma SettledView(absolute: string -> Option<string>, path: string)
    requires Settled(absolute, path)
    ensures AbsolutePath(absolute, path) == CoreView(path)
  {
    hide ParseOrdinary, Segments, NextSegment, NextComponent, Components;
    var resolved := absolute(path).value;
    if !Verbatim(path) && ParseRooted(path).Some? {
      PlainPrefix(path);
      if Verbatim(resolved) { VerbatimPrefix(resolved); }
    }
  }

  lemma PlainPrefix(path: string)
    requires !Verbatim(path) && ParseRooted(path).Some?
    ensures var prefix := ParseRooted(path).value.prefix;
            prefix.Disk? || prefix.Unc? || prefix.DeviceName?
  {
  }

  lemma VerbatimPrefix(path: string)
    requires Verbatim(path)
    ensures ParseRooted(path).Some?
    ensures var prefix := ParseRooted(path).value.prefix;
            prefix.VerbatimDisk? || prefix.VerbatimUnc? || prefix.VerbatimName?
  {
    hide Segments, NextSegment;
  }

  // ---------------------------------------------------------------- verbatim segments

  lemma {:induction false} SegmentsJoined(a: string, b: string)
    ensures Segments(a + ['\\'] + b) == Segments(a) + Segments(b)
    decreases |a|
  {
    var whole := a + ['\\'] + b;
    match FindChar(a, '\\', 0)
    case None =>
      FoundAt(a, '\\', b);
      assert whole[..|a|] == a && whole[|a| + 1..] == b;
    case Some(k) =>
      assert whole == a[..k] + ['\\'] + (a[k + 1..] + ['\\'] + b);
      FoundAt(a[..k], '\\', a[k + 1..] + ['\\'] + b);
      assert whole[..k] == a[..k] && whole[k + 1..] == a[k + 1..] + ['\\'] + b;
      SegmentsJoined(a[k + 1..], b);
      Associative(Nonempty(a[..k]), Segments(a[k + 1..]), Segments(b));
  }

  lemma OneSegment(s: string)
    requires Lacks(s, '\\')
    ensures Segments(s) == Nonempty(s)
  {
  }

  /** Text in front without a backslash merges with the first segment and removes none. */
  lemma SegmentsBehind(front: string, s: string)
    requires Lacks(front, '\\')
    ensures |Segments(front + s)| >= |Segments(s)|
  {
    hide Segments;
    match FindChar(s, '\\', 0)
    case None =>
      assert Lacks(front + s, '\\') && Lacks(s, '\\');
      OneSegment(front + s);
      OneSegment(s);
    case Some(k) =>
      assert front + s == (front + s[..k]) + ['\\'] + s[k + 1..];
      assert s == s[..k] + ['\\'] + s[k + 1..];
      assert Lacks(front + s[..k], '\\');
      SegmentsJoined(front + s[..k], s[k + 1..]);
      SegmentsJoined(s[..k], s[k + 1..]);
      OneSegment(front + s[..k]);
      OneSegment(s[..k]);
  }

  /** A text without a backslash adds at most one segment. */
  lemma SegmentsAhead(s: string, last: string)
    requires Lacks(last, '\\')
    ensures |Segments(s + last)| <= |Segments(s)| + 1
    decreases |s|
  {
    hide Segments;
    match FindChar(s, '\\', 0)
    case None =>
      OneSegment(s);
      assert Lacks(s + last, '\\');
      OneSegment(s + last);
    case Some(k) =>
      var rest := s[k + 1..];
      assert s + last == s[..k] + ['\\'] + (rest + last);
      assert s == s[..k] + ['\\'] + rest;
      SegmentsJoined(s[..k], rest + last);
      SegmentsJoined(s[..k], rest);
      SegmentsAhead(rest, last);
  }

  function Counted(name: string): nat {
    if name == "" then 0 else 1
  }

  /** How many segments a verbatim share's prefix takes. */
  function Taken(prefix: Prefix): nat {
    if prefix.VerbatimUnc? then Counted(prefix.server) + Counted(prefix.share) else 0
  }

  lemma SegmentsOfNext(s: string)
    ensures var (first, rest) := NextSegment(s);
            |Segments(s)| == Counted(first) + |Segments(rest)|
  {
    match FindChar(s, '\\', 0)
    case None => NothingHasNoSegments();
    case Some(_) =>
  }

  lemma NothingHasNoSegments()
    ensures Segments("") == []
  {
  }

  /** A verbatim share's components are the segments that its prefix does not take. */
  lemma VerbatimShareSegments(path: string)
    requires ParseRooted(path).Some? && ParseRooted(path).value.prefix.VerbatimUnc?
    ensures Verbatim(path) && UncMarked(path[4..])
    ensures |Segments(path[8..])| == Taken(ParseRooted(path).value.prefix) + |ParseRooted(path).value.components|
  {
    hide Segments, NextSegment, Components;
    var s := path[4..];
    assert s[4..] == path[8..];
    var (server, rest) := NextSegment(s[4..]);
    SegmentsOfNext(s[4..]);
    SegmentsOfNext(rest);
  }

  lemma SegmentsOfName(name: string)
    requires Named(name)
    ensures |Segments(name)| == 1
  {
    OneSegment(name);
  }

  lemma TailSegments(name: string, id: string)
    requires EntryNamed(name) && IsReleaseId(id)
    ensures |Segments(TailText(name, id))| == 6
  {
    hide Segments, IsReleaseId, Named;
    WordsNamed();
    ReleaseIdNamed(id);
    PrefixedNamed(name);
    var dataRoot := "data" + "\\" + (DATA_PREFIX + name);
    var runtime := dataRoot + "\\" + "runtime";
    var releases := runtime + "\\" + "releases";
    var release := releases + "\\" + id;
    SegmentsJoined("data", DATA_PREFIX + name);
    SegmentsJoined(dataRoot, "runtime");
    SegmentsJoined(runtime, "releases");
    SegmentsJoined(releases, id);
    SegmentsJoined(release, CORE_NAME);
    SegmentsOfName("data");
    SegmentsOfName(DATA_PREFIX + name);
    SegmentsOfName("runtime");
    SegmentsOfName("releases");
    SegmentsOfName(id);
    SegmentsOfName(CORE_NAME);
  }

  // ---------------------------------------------------------------- homes behind a device or verbatim mark

  /** What the Core sees of any text is an ordinary path, unless the text is a verbatim share's. */
  lemma ViewIsOrdinary(path: string)
    requires CoreView(path).Some? && !(CoreView(path).value.prefix.Disk? || CoreView(path).value.prefix.Unc?)
    ensures Verbatim(path) && UncMarked(path[4..]) && |path| > 8 && CoreView(path) == ParseRooted("\\\\" + path[8..])
  {
    hide Segments, Components, NextSegment, NextComponent;
    if ParseRooted(path).value.prefix.VerbatimDisk? { DriveViewIsDisk(path); }
  }

  lemma DriveViewIsDisk(path: string)
    requires CoreView(path).Some? && ParseRooted(path).value.prefix.VerbatimDisk?
    ensures CoreView(path).value.prefix.Disk?
  {
    hide Segments, Components, NextSegment, NextComponent;
    assert "" + path[4..] == path[4..];
  }

  /** The Core path and the entry's own path below a home behind a device or verbatim mark. */
  lemma MarkedViews(entry: string, at: nat, core: string, tail: string)
    requires Divides(entry, at) && IsUncPath(entry) && at >= 7 && core == entry[..at] + ['\\'] + tail
    requires |tail| >= 1 && Device(core[8..])
    requires var z := "\\\\" + entry[8..];
             CoreView(z).Some? && !(CoreView(z).value.prefix.Disk? || CoreView(z).value.prefix.Unc?)
    ensures at >= 13 && entry[8..10] == "?\\" && entry[10..13] == "UNC" && IsSeparator(entry[13])
    ensures CoreView("\\\\" + entry[8..]) == ParseRooted("\\\\" + entry[14..])
    ensures var x := "\\\\" + core[8..];
            Verbatim(x) && UncMarked(x[4..])
  {
    hide ParseRooted, CoreView;
    var z, x := "\\\\" + entry[8..], "\\\\" + core[8..];
    ViewIsOrdinary(z);
    assert forall i :: 2 <= i < |z| ==> z[i] == entry[i + 6];
    assert z[2] == '?' && z[3] == '\\' && z[4..][3] == z[7] && z[4..][..3] == z[4..7];
    assert z[4] == z[4..7][0] && z[5] == z[4..7][1] && z[6] == z[4..7][2];
    assert z[8..] == entry[14..];
    assert IsSeparator(entry[13]) && at >= 13;
    assert forall i :: 8 <= i < 13 ==> core[i] == entry[i];
    assert IsSeparator(core[13]);
    assert forall i :: 2 <= i < |x| ==> x[i] == core[i + 6];
    assert x[..4] == "\\\\?\\";
    assert x[4..7] == ['U', 'N', 'C'] && x[4..][..3] == x[4..7] && x[4..][3] == x[7];
  }

  function HomeSegments(entry: string, at: nat): nat
    requires at <= |entry|
  {
    if at >= 20 then |Segments(entry[20..at])| else 0
  }

  lemma EntrySegments(entry: string, at: nat)
    requires Divides(entry, at) && at >= 19
    ensures |Segments(entry[20..])| <= HomeSegments(entry, at) + 1
  {
    hide Segments, ExtendedAbsolute;
    var own, file := entry[at], entry[at + 1..];
    assert Lacks(file, '\\');
    OneSegment(file);
    if at >= 20 {
      var home := entry[20..at];
      assert entry[20..] == home + ([own] + file);
      if own == '\\' {
        assert entry[20..] == home + ['\\'] + file;
        SegmentsJoined(home, file);
      } else {
        SegmentsAhead(home, [own] + file);
      }
    } else {
      assert entry[20..] == file;
    }
  }

  lemma CoreSegments(entry: string, at: nat, core: string, tail: string)
    requires 19 <= at < |entry| && core == entry[..at] + ['\\'] + tail && |Segments(tail)| == 6
    requires entry[14..16] == "?\\" && entry[16..19] == "UNC" && IsSeparator(entry[19])
    ensures |core| >= 20 && |Segments(core[14..])| >= HomeSegments(entry, at) + 7
  {
    hide Segments;
    var below := core[20..];
    if at >= 20 {
      assert below == entry[20..at] + ['\\'] + tail;
      SegmentsJoined(entry[20..at], tail);
    } else {
      assert below == tail;
    }
    assert core[14..19] == entry[14..19] && IsSeparator(core[19]);
    assert entry[14..19] == entry[14..16] + entry[16..19];
    var inner := "UNC" + [core[19]] + below;
    assert core[14..] == core[14..19] + [core[19]] + below;
    assert core[14..] == "?" + ['\\'] + inner;
    SegmentsJoined("?", inner);
    OneSegment("?");
    OneSegment("UNC");
    if core[19] == '\\' {
      SegmentsJoined("UNC", below);
    } else {
      SegmentsBehind("UNC/", below);
      assert inner == "UNC/" + below;
    }
  }

  lemma DerivePrefix(executable: RootedPath, name: string)
    requires DeriveRunningLayout(executable, name).Some?
    ensures var home := DeriveRunningLayout(executable, name).value.home;
            home.prefix == executable.prefix && |home.components| + 6 == |executable.components|
  {
    hide IsReleaseId, RootedPath.FileName;
  }

  /** A home behind a device or verbatim mark is never the parent of the entry's own path. */
  lemma MarkedHomeIsRefused(entry: string, at: nat, core: string, name: string, id: string)
    requires Divides(entry, at) && IsUncPath(entry) && at >= 7 && EntryNamed(name) && IsReleaseId(id)
    requires core == entry[..at] + ['\\'] + TailText(name, id) && Device(core[8..])
    requires CoreView("\\\\" + entry[8..]).Some? && ParseRooted("\\\\" + core[8..]).Some?
    ensures EntryContextOf(CoreView("\\\\" + entry[8..]).value, ParseRooted("\\\\" + core[8..]).value, CORE_NAME) == None
  {
    hide ParseRooted, CoreView, DeriveRunningLayout, Segments, ExtendedAbsolute, IsUncPath, TailText, StemAndExtension, Blank;
    var y, x := CoreView("\\\\" + entry[8..]).value, ParseRooted("\\\\" + core[8..]).value;
    if EntryContextOf(y, x, CORE_NAME).Some? {
      DerivePrefix(x, CORE_NAME);
      assert y.prefix == x.prefix && |y.components| - 1 == |x.components| - 6;
      MarkedIsNotOrdinary(core[8..]);
      TailNotEmpty(name, id);
      MarkedViews(entry, at, core, TailText(name, id));
      MarkedCount(entry, at, core, name, id);
    }
  }

  lemma MarkedIsNotOrdinary(body: string)
    requires Device(body)
    ensures ParseRooted("\\\\" + body).Some?
    ensures var prefix := ParseRooted("\\\\" + body).value.prefix;
            !prefix.Disk? && !prefix.Unc?
  {
    hide Segments, Components, NextSegment, NextComponent;
    var path := "\\\\" + body;
    assert path[2..] == body;
  }

  lemma VerbatimShare(path: string)
    requires Verbatim(path) && UncMarked(path[4..])
    ensures ParseRooted(path).Some? && ParseRooted(path).value.prefix.VerbatimUnc?
  {
    hide Segments, NextSegment;
  }

  lemma MarkedCount(entry: string, at: nat, core: string, name: string, id: string)
    requires Divides(entry, at) && at >= 13 && EntryNamed(name) && IsReleaseId(id)
    requires core == entry[..at] + ['\\'] + TailText(name, id)
    requires var x := "\\\\" + core[8..]; Verbatim(x) && UncMarked(x[4..])
    requires ParseRooted("\\\\" + core[8..]).Some? && ParseRooted("\\\\" + entry[14..]).Some?
    requires ParseRooted("\\\\" + core[8..]).value.prefix == ParseRooted("\\\\" + entry[14..]).value.prefix
    ensures |ParseRooted("\\\\" + core[8..]).value.components| > |ParseRooted("\\\\" + entry[14..]).value.components| + 5
  {
    hide ParseRooted, Segments, ExtendedAbsolute, TailText;
    var x, y := "\\\\" + core[8..], "\\\\" + entry[14..];
    VerbatimShare(x);
    VerbatimShareSegments(x);
    VerbatimShareSegments(y);
    assert x[8..] == core[14..] && y[8..] == entry[20..];
    assert y[2..4] == entry[14..16] && y[4..7] == entry[16..19] && y[7] == entry[19];
    assert y[4..][..3] == y[4..7] && y[4..][3] == y[7] && y[..4][2..] == y[2..4];
    assert at >= 19;
    TailSegments(name, id);
    CoreSegments(entry, at, core, TailText(name, id));
    EntrySegments(entry, at);
  }

  // ---------------------------------------------------------------- the two layouts are inverse

  /** A home the Core can work in: on a drive, or in a named share of a server, with `UNC` spelled in capitals. */
  predicate UsableRoot(root: string) {
    ExtendedDrive(root) || ("\\\\?\\UNC\\" <= root && NamesShare(root[8..]))
  }

  predicate Capital(path: string) {
    |path| >= 7 && path[4..7] == "UNC"
  }

  lemma OrdinaryView(path: string)
    requires ParseOrdinary(path).Some?
    ensures CoreView(path) == ParseOrdinary(path)
  {
    hide ParseRooted;
    OrdinaryIsRooted(path);
    OrdinaryPrefix(path);
  }

  /** The root of a home behind the UNC prefix, and what a share in it needs. */
  lemma UncRoot(entry: string, at: nat)
    requires Divides(entry, at) && IsUncPath(entry) && at >= 7
    ensures var root := HomeRootOf(entry[..at], entry[at]);
            && !ExtendedDrive(root) && ("\\\\?\\UNC\\" <= root <==> Capital(entry) && |root| >= 8)
            && (|root| <= 8 ==> VolumePath(root) == None)
            && (|root| >= 9 ==> IsUncPath(root) && VolumePath(root) == ShareOf(root[8..]))
  {
    hide ParseOrdinary, ExtendedAbsolute, ShareOf;
    var root := HomeRootOf(entry[..at], entry[at]);
    assert forall i :: 0 <= i < |root| && i < 8 ==> root[i] == entry[i];
    assert root[4..7] == entry[4..7] && root[4..7][0] == root[4] && root[4..7][1] == root[5] && root[4..7][2] == root[6];
    assert root[..4] == entry[..4];
    assert !ExtendedDrive(root) by { if ExtendedDrive(root) { ExtendedDriveIs(root); } }
    if |root| >= 9 {
      assert root[..8] == entry[..8];
      SameUncPrefix(entry, root);
      UncVolume(root);
    }
  }

  lemma NamesShareNeeds(body: string)
    requires NamesShare(body)
    ensures |body| >= 3
  {
  }

  /** Which homes behind the UNC prefix are usable. */
  lemma UsableUncRoot(entry: string, at: nat, core: string, tail: string)
    requires Divides(entry, at) && IsUncPath(entry) && at >= 7 && core == entry[..at] + ['\\'] + tail && |tail| >= 2
    ensures var root := HomeRootOf(entry[..at], entry[at]);
            UsableRoot(root) <==> Capital(entry) && !Device(core[8..]) && VolumePath(root).Some?
  {
    hide ParseOrdinary, Dos, ExtendedAbsolute, VolumePath, NextComponent, IsUncPath, ExtendedDrive;
    var root := HomeRootOf(entry[..at], entry[at]);
    UncRoot(entry, at);
    if |root| >= 8 && NamesShare(root[8..]) {
      NamesShareNeeds(root[8..]);
      assert core[8..][0] == root[8..][0] && core[8..][1] == root[8..][1];
    }
  }

  /** Where the Core sees what the launcher's own conversion names. */
  predicate Agreed(path: string) {
    IsDrivePath(path) || (IsUncPath(path) && Capital(path) && !Device(path[8..]))
  }

  lemma AgreedView(path: string)
    requires Agreed(path)
    ensures Verbatim(path) && CoreView(path) == VolumePath(path)
  {
    hide VolumePath, CoreView, IsDrivePath, IsUncPath;
    if IsDrivePath(path) {
      DriveView(path);
    } else {
      UncView(path);
      CapitalView(path);
    }
  }

  /** On a usable home the Core sees the launcher's texts as the launcher means them. */
  lemma AgreedBelow(entry: string, at: nat, x: string)
    requires Divides(entry, at) && UsableRoot(HomeRootOf(entry[..at], entry[at])) && |x| >= 2
    ensures Agreed(HomeRootOf(entry[..at], entry[at])) && Agreed(entry[..at] + (['\\'] + x))
  {
    hide VolumePath, CoreView, NextComponent, ExtendedAbsolute;
    var home, own := entry[..at], entry[at];
    var root, path := HomeRootOf(home, own), home + (['\\'] + x);
    ExtendedShape(entry, at);
    if ExtendedDrive(entry) {
      ExtendedDriveIs(entry);
      DriveRootIs(entry, at);
      assert path[..7] == entry[..7];
      SameDrivePrefix(entry, path);
    } else {
      assert path == home + ['\\'] + x;
      UsableUncRoot(entry, at, path, x);
      UncRoot(entry, at);
      UncCore(entry, at, path, x);
      assert root[4..7] == entry[4..7] == path[4..7];
      NamesShareNeeds(root[8..]);
    }
  }

  lemma DriveRootIs(entry: string, at: nat)
    requires Divides(entry, at) && ExtendedDrive(entry)
    ensures IsDrivePath(HomeRootOf(entry[..at], entry[at]))
  {
    hide IsDrivePath, ExtendedDrive;
    ExtendedShape(entry, at);
    ExtendedDriveIs(entry);
    var root := HomeRootOf(entry[..at], entry[at]);
    DriveColon(entry);
    assert root[..7] == entry[..7];
    SameDrivePrefix(entry, root);
  }

  lemma ContextOfViews(absolute: string -> Option<string>, entry: string, core: string)
    requires Settled(absolute, entry) && Settled(absolute, core)
    ensures CoreContext(absolute, entry, core)
            == match CoreView(core)
               case None => None
               case Some(executable) =>
                 match CoreView(entry)
                 case None => None
                 case Some(file) => EntryContextOf(file, executable, CORE_NAME)
  {
    hide EntryContextOf, CoreView, Settled, AbsolutePath;
    SettledView(absolute, entry);
    SettledView(absolute, core);
  }

  lemma UsableHomeHasVolume(entry: string, at: nat)
    requires Divides(entry, at) && UsableRoot(HomeRootOf(entry[..at], entry[at]))
    ensures VolumePath(HomeRootOf(entry[..at], entry[at])).Some?
  {
    hide VolumePath, HomeRootOf, UsableRoot, ExtendedAbsolute, IsUncPath, ExtendedDrive;
    ExtendedShape(entry, at);
    if ExtendedDrive(entry) {
      DriveIsUsable(entry, at);
    } else {
      UsableUncRoot(entry, at, entry[..at] + ['\\'] + "xx", "xx");
    }
  }

  /** On a usable home the Core accepts every entry whose name is not blank. */
  lemma UsableHome(absolute: string -> Option<string>, entry: string, at: nat, id: string)
    requires Divides(entry, at) && HasExeSuffix(entry[at + 1..]) && IsReleaseId(id) && Dos(entry).Some?
    requires UsableRoot(HomeRootOf(entry[..at], entry[at]))
    requires var core := CorePath(LayoutOf(entry[..at], entry[at], entry[at + 1..]).releasesRoot, id);
             Settled(absolute, Dos(entry).value) && Settled(absolute, core)
    ensures VolumePath(HomeRootOf(entry[..at], entry[at])).Some?
    ensures var file := entry[at + 1..];
            var home := VolumePath(HomeRootOf(entry[..at], entry[at])).value;
            var dataRoot := home.Child("data").Child(DATA_PREFIX + EntryName(file));
            var core := CorePath(LayoutOf(entry[..at], entry[at], file).releasesRoot, id);
            CoreContext(absolute, Dos(entry).value, core)
            == if Blank(file[..|file| - 4]) then None
               else Some(RunningLayout(home, dataRoot, dataRoot.Child("runtime"), EntryName(file), id))
  {
    hide VolumePath, HomeRootOf, UsableRoot, IsReleaseId, HasExeSuffix, IsManagerFile, LayoutOf, CoreContext, CoreView, Settled, Agreed,
         TailText, Blank, ParseOrdinary, EntryContextOf, ExtendedAbsolute, Dos, CorePath;
    var home, own, file := entry[..at], entry[at], entry[at + 1..];
    var core := CorePath(LayoutOf(home, own, file).releasesRoot, id);
    UsableHomeHasVolume(entry, at);
    EntryNameNamed(file);
    TextsBelowHome(home, own, file, id);
    TextsOnVolume(entry, at, id);
    TailNotShort(EntryName(file), id);
    AgreedBelow(entry, at, TailText(EntryName(file), id));
    AgreedView(core);
    VolumeIsView(entry);
    ContextOfViews(absolute, Dos(entry).value, core);
    BoundEntry(VolumePath(HomeRootOf(home, own)).value, file, id);
  }

  lemma TailNotShort(name: string, id: string)
    ensures |TailText(name, id)| >= 2
  {
    assert |CORE_NAME| >= 2;
  }

  lemma VolumeIsView(path: string)
    requires VolumePath(path).Some?
    ensures Dos(path).Some? && CoreView(Dos(path).value) == VolumePath(path)
  {
    hide Dos, ParseOrdinary, CoreView;
    OrdinaryView(Dos(path).value);
  }

  /** On any other home the Core refuses every entry. */
  lemma UnusableHome(absolute: string -> Option<string>, entry: string, at: nat, id: string)
    requires Divides(entry, at) && HasExeSuffix(entry[at + 1..]) && IsReleaseId(id) && Dos(entry).Some?
    requires !UsableRoot(HomeRootOf(entry[..at], entry[at]))
    requires var core := CorePath(LayoutOf(entry[..at], entry[at], entry[at + 1..]).releasesRoot, id);
             Settled(absolute, Dos(entry).value) && Settled(absolute, core)
    ensures CoreContext(absolute, Dos(entry).value, CorePath(LayoutOf(entry[..at], entry[at], entry[at + 1..]).releasesRoot, id)) == None
  {
    hide VolumePath, HomeRootOf, UsableRoot, IsReleaseId, HasExeSuffix, IsManagerFile, LayoutOf, CoreContext, CoreView, Settled,
         TailText, Blank, ParseOrdinary, ParseRooted, DeriveRunningLayout, ExtendedAbsolute, Dos, CorePath, Device, IsUncPath, ExtendedDrive;
    var home, own, file := entry[..at], entry[at], entry[at + 1..];
    var core := CorePath(LayoutOf(home, own, file).releasesRoot, id);
    var name := EntryName(file);
    EntryNameNamed(file);
    TextsBelowHome(home, own, file, id);
    TailNotShort(name, id);
    ContextOfViews(absolute, Dos(entry).value, core);
    UnusableIsUnc(entry, at);
    UncCore(entry, at, core, TailText(name, id));
    UncView(core);
    DosOfUnc(entry);
    assert core == home + ['\\'] + TailText(name, id);
    UsableUncRoot(entry, at, core, TailText(name, id));
    SpelledAlike(entry, at, core, TailText(name, id));
    if !Capital(entry) {
    } else if Device(core[8..]) {
      MarkedIsNotOrdinary(core[8..]);
      if CoreView(Dos(entry).value).Some? { MarkedHomeIsRefused(entry, at, core, name, id); }
    } else {
      CapitalView(core);
      CoreOffVolume(entry, at, id);
      if VolumePath(core).Some? && DeriveRunningLayout(VolumePath(core).value, CORE_NAME).Some? {
        DeriveNeedsDepth(VolumePath(core).value, CORE_NAME);
      }
    }
  }

  lemma SpelledAlike(entry: string, at: nat, core: string, tail: string)
    requires 7 <= at < |entry| && core == entry[..at] + ['\\'] + tail
    ensures core[4..7] == entry[4..7]
  {
  }

  lemma UnusableIsUnc(entry: string, at: nat)
    requires Divides(entry, at) && !UsableRoot(HomeRootOf(entry[..at], entry[at]))
    ensures at >= 7 && IsUncPath(entry)
  {
    hide IsUncPath, ExtendedAbsolute, HomeRootOf;
    ExtendedShape(entry, at);
    if ExtendedDrive(entry) {
      DriveRootIs(entry, at);
      DriveVolume(HomeRootOf(entry[..at], entry[at]));
    }
  }

  lemma DividedHasDos(entry: string, at: nat)
    requires Divides(entry, at)
    ensures Dos(entry).Some?
  {
  }

  /** What the launcher starts the Core with: the Core's extended path, and the entry's path in DOS form. */
  datatype Launch = Launch(executable: string, entry: string)

  function LaunchOf(entry: string, id: string): Launch
    requires Locate(entry).Some?
  {
    Launch(CorePath(Locate(entry).value.releasesRoot, id), Dos(entry).value)
  }

  /** The file name of an entry that the launcher accepts. */
  function EntryFileName(entry: string): (file: string)
    requires Locate(entry).Some?
    ensures HasExeSuffix(file)
  {
    entry[LastSeparator(entry, |entry|).value + 1..]
  }

  function Started(absolute: string -> Option<string>, launch: Launch): Option<RunningLayout> {
    CoreContext(absolute, launch.entry, launch.executable)
  }

  predicate SettledLaunch(absolute: string -> Option<string>, launch: Launch) {
    Settled(absolute, launch.entry) && Settled(absolute, launch.executable)
  }

  /**
   The Core recovers what the launcher built.  It derives the launcher's home, data root, runtime root, entry name
   and release exactly when the home is on a drive or in a named share with `UNC` in capitals, and the entry's name
   is not blank; otherwise it refuses.  The system is taken to keep the components of both texts.
   */
  lemma LayoutsAreInverse(absolute: string -> Option<string>, entry: string, id: string)
    requires Locate(entry).Some? && IsReleaseId(id) && SettledLaunch(absolute, LaunchOf(entry, id))
    ensures var layout, file := Locate(entry).value, EntryFileName(entry);
            var context := Started(absolute, LaunchOf(entry, id));
            && (context.Some? <==> UsableRoot(layout.homeRoot) && !Blank(file[..|file| - 4]))
            && (context.Some? ==>
                  && Some(context.value.home) == CoreView(layout.homeRoot)
                  && Some(context.value.dataRoot) == CoreView(layout.dataRoot)
                  && Some(context.value.runtimeRoot) == CoreView(layout.runtimeRoot)
                  && context.value.entryName == EntryName(file) && context.value.releaseId == id)
  {
    hide Components, ParseOrdinary, VolumePath, HomeRootOf, UsableRoot, IsReleaseId, HasExeSuffix, IsManagerFile, LayoutOf, CoreContext,
         CoreView, Settled, Blank, CorePath, ExtendedAbsolute, Dos, ExtendedDrive, ExtendedUnc, Agreed;
    LocatedDivides(entry);
    var at := LastSeparator(entry, |entry|).value;
    var home, own, file := entry[..at], entry[at], entry[at + 1..];
    DividedHasDos(entry, at);
    TextsBelowHome(home, own, file, id);
    if UsableRoot(HomeRootOf(home, own)) {
      UsableHome(absolute, entry, at, id);
      LayoutsInView(entry, at, id);
    } else {
      UnusableHome(absolute, entry, at, id);
    }
  }

  /** On a usable home the Core sees the launcher's directories. */
  lemma LayoutsInView(entry: string, at: nat, id: string)
    requires Divides(entry, at) && HasExeSuffix(entry[at + 1..]) && UsableRoot(HomeRootOf(entry[..at], entry[at])) && IsReleaseId(id)
    requires VolumePath(HomeRootOf(entry[..at], entry[at])).Some?
    ensures var layout := LayoutOf(entry[..at], entry[at], entry[at + 1..]);
            var home := VolumePath(HomeRootOf(entry[..at], entry[at]));
            var dataRoot := home.value.Child("data").Child(DATA_PREFIX + EntryName(entry[at + 1..]));
            && layout.homeRoot == HomeRootOf(entry[..at], entry[at]) && CoreView(layout.homeRoot) == home
            && CoreView(layout.dataRoot) == Some(dataRoot) && CoreView(layout.runtimeRoot) == Some(dataRoot.Child("runtime"))
  {
    hide VolumePath, HomeRootOf, UsableRoot, HasExeSuffix, IsReleaseId, IsManagerFile, LayoutOf, CoreView, Agreed, ExtendedAbsolute, CorePath;
    var home, own, file := entry[..at], entry[at], entry[at + 1..];
    var data := "data" + "\\" + (DATA_PREFIX + EntryName(file));
    TextsBelowHome(home, own, file, id);
    TextsOnVolume(entry, at, id);
    AgreedBelow(entry, at, data);
    AgreedBelow(entry, at, data + "\\" + "runtime");
    AgreedView(HomeRootOf(home, own));
    AgreedView(home + (['\\'] + data));
    AgreedView(home + (['\\'] + (data + "\\" + "runtime")));
  }

  // ---------------------------------------------------------------- the manager entry

  /** The Core's own test for the manager entry. */
  predicate IsManager(context: RunningLayout, entry: RootedPath) {
    && context.entryName == MANAGER_NAME
    && context.dataRoot == context.home.Child("data").Child("proj.swawkit")
    && context.runtimeRoot == context.dataRoot.Child("runtime")
    && entry.Parent() == Some(context.home)
    && entry.FileName().Some? && Lowered(entry.FileName().value) == "swawkit.exe"
  }

  lemma ManagerTest(home: RootedPath, file: string, id: string)
    requires HasExeSuffix(file) && file != ".."
    ensures var dataRoot := home.Child("data").Child(DATA_PREFIX + EntryName(file));
            IsManager(RunningLayout(home, dataRoot, dataRoot.Child("runtime"), EntryName(file), id), home.Child(file))
            <==> IsManagerFile(file)
  {
    hide HasExeSuffix, Lowered;
    ChildParent(home, file);
    EntryFile(file);
    assert DATA_PREFIX + MANAGER_NAME == "proj.swawkit";
  }

  /** Both programs agree on which entry is the manager. */
  lemma ManagerIsAgreed(absolute: string -> Option<string>, entry: string, id: string)
    requires Locate(entry).Some? && IsReleaseId(id) && SettledLaunch(absolute, LaunchOf(entry, id))
    requires Started(absolute, LaunchOf(entry, id)).Some?
    ensures var file := AbsolutePath(absolute, LaunchOf(entry, id).entry);
            && file.Some?
            && (IsManager(Started(absolute, LaunchOf(entry, id)).value, file.value) <==> Locate(entry).value.managerEntry)
  {
    hide VolumePath, HomeRootOf, UsableRoot, HasExeSuffix, CorePath, IsReleaseId, LayoutOf, CoreContext, CoreView, AbsolutePath, Settled,
         Blank, Lowered, IsManager, IsManagerFile, ExtendedAbsolute, ExtendedDrive, ExtendedUnc, Dos, Components, RootedPath.Child;
    LocatedDivides(entry);
    LayoutsAreInverse(absolute, entry, id);
    var at := LastSeparator(entry, |entry|).value;
    var home, own, file := entry[..at], entry[at], entry[at + 1..];
    DividedHasDos(entry, at);
    LayoutParts(home, own, file);
    TextsBelowHome(home, own, file, id);
    UsableHome(absolute, entry, at, id);
    TextsOnVolume(entry, at, id);
    VolumeIsView(entry);
    SettledView(absolute, Dos(entry).value);
    EntryNameNamed(file);
    ManagerTest(VolumePath(HomeRootOf(home, own)).value, file, id);
  }

  // ---------------------------------------------------------------- homes the launcher accepts and the Core refuses

  /** A home on a drive is always usable. */
  lemma DriveHomesAreUsable(entry: string)
    requires Locate(entry).Some? && ExtendedDrive(entry)
    ensures UsableRoot(Locate(entry).value.homeRoot)
  {
    hide LayoutOf, ExtendedDrive, HasExeSuffix, HomeRootOf;
    LocatedDivides(entry);
    var at := LastSeparator(entry, |entry|).value;
    DriveRootIs(entry, at);
    DriveVolume(HomeRootOf(entry[..at], entry[at]));
    TextsBelowHome(entry[..at], entry[at], entry[at + 1..], "");
  }

  lemma LastSeparatorIs(s: string, k: nat, before: nat)
    requires k < before <= |s| && IsSeparator(s[k]) && forall i :: k < i < before ==> !IsSeparator(s[i])
    ensures LastSeparator(s, before) == Some(k)
    decreases before
  {
    if before - 1 > k { LastSeparatorIs(s, k, before - 1); }
  }

  /** An entry in a short home, below its last separator. */
  predicate Short(entry: string, home: string, file: string) {
    && entry == home + ['\\'] + file && ExtendedAbsolute(entry) && 0 < |home| <= 100 && home[|home| - 1] != ':'
    && (file == "ab.exe" || file == " .exe")
  }

  lemma ShortEntry(entry: string, home: string, file: string)
    requires Short(entry, home, file)
    ensures Locate(entry).Some? && Locate(entry).value.homeRoot == home && EntryFileName(entry) == file
    ensures LastSeparator(entry, |entry|) == Some(|home|)
  {
    hide ExtendedAbsolute, HasExeSuffix, LayoutOf, LayoutFits, EntryName;
    ShortFile(file);
    ShortLayout(home, '\\', file);
    assert forall i :: |home| < i < |entry| ==> entry[i] == file[i - |home| - 1];
    LastSeparatorIs(entry, |home|, |entry|);
    assert entry[..|home|] == home && entry[|home| + 1..] == file;
  }

  lemma ShortLayout(home: string, own: char, file: string)
    requires HasExeSuffix(file) && home != "" && home[|home| - 1] != ':' && |home| <= 100 && |EntryName(file)| <= 2
    ensures LayoutFits(LayoutOf(home, own, file)) && LayoutOf(home, own, file).homeRoot == home
  {
    hide HasExeSuffix, IsManagerFile, EntryName;
  }

  lemma ShortFile(file: string)
    requires file == "ab.exe" || file == " .exe"
    ensures HasExeSuffix(file) && |EntryName(file)| <= 2
  {
    assert Lowered(file) != "swawkit.exe" by { assert |Lowered(file)| == |file|; }
  }

  /** A short entry with an unusable home or a blank name is refused. */
  lemma ShortIsRefused(absolute: string -> Option<string>, entry: string, home: string, file: string, id: string)
    requires Short(entry, home, file) && IsReleaseId(id) && (!UsableRoot(home) || file == " .exe")
    ensures Locate(entry).Some?
    ensures SettledLaunch(absolute, LaunchOf(entry, id)) ==> Started(absolute, LaunchOf(entry, id)) == None
  {
    hide IsReleaseId, Locate, LaunchOf, Started, SettledLaunch, UsableRoot, Short;
    ShortEntry(entry, home, file);
    assert " .exe"[..1] == " ";
    if SettledLaunch(absolute, LaunchOf(entry, id)) { LayoutsAreInverse(absolute, entry, id); }
  }

  /** The home must lie in a named share: the launcher accepts this entry and the Core refuses it. */
  lemma ShareRootIsRefused(absolute: string -> Option<string>, entry: string, id: string)
    requires entry == "\\\\?\\UNC\\s\\ab.exe" && IsReleaseId(id)
    ensures Locate(entry).Some?
    ensures SettledLaunch(absolute, LaunchOf(entry, id)) ==> Started(absolute, LaunchOf(entry, id)) == None
  {
    hide IsReleaseId, Locate, LaunchOf, Started, SettledLaunch, Short, UsableRoot;
    var home := ShareRootIsShort(entry);
    ShortIsRefused(absolute, entry, home, "ab.exe", id);
  }

  lemma ShareRootIsShort(entry: string) returns (home: string)
    requires entry == "\\\\?\\UNC\\s\\ab.exe"
    ensures Short(entry, home, "ab.exe") && !UsableRoot(home)
  {
    home := "\\\\?\\UNC\\s";
    assert entry == home + ['\\'] + "ab.exe";
    assert home[8..] == "s" && FirstSeparator("s", 0) == None;
  }

  /** `UNC` must be spelled in capitals: the launcher accepts this entry and the Core refuses it. */
  lemma LowerCaseUncIsRefused(absolute: string -> Option<string>, entry: string, id: string)
    requires entry == "\\\\?\\unc\\s\\h\\ab.exe" && IsReleaseId(id)
    ensures Locate(entry).Some?
    ensures SettledLaunch(absolute, LaunchOf(entry, id)) ==> Started(absolute, LaunchOf(entry, id)) == None
  {
    hide IsReleaseId, Locate, LaunchOf, Started, SettledLaunch, Short, UsableRoot;
    var home := LowerCaseUncIsShort(entry);
    ShortIsRefused(absolute, entry, home, "ab.exe", id);
  }

  lemma LowerCaseUncIsShort(entry: string) returns (home: string)
    requires entry == "\\\\?\\unc\\s\\h\\ab.exe"
    ensures Short(entry, home, "ab.exe") && !UsableRoot(home)
  {
    hide NamesShare;
    home := "\\\\?\\unc\\s\\h";
    assert entry == home + ['\\'] + "ab.exe";
    assert home[4] == 'u' && home[4..][1] == 'n';
  }

  /** The entry's name must not be blank: the launcher accepts this entry and the Core refuses it. */
  lemma BlankNameIsRefused(absolute: string -> Option<string>, entry: string, id: string)
    requires entry == "\\\\?\\C:\\h\\ .exe" && IsReleaseId(id)
    ensures Locate(entry).Some?
    ensures SettledLaunch(absolute, LaunchOf(entry, id)) ==> Started(absolute, LaunchOf(entry, id)) == None
  {
    hide IsReleaseId, Locate, LaunchOf, Started, SettledLaunch, Short, UsableRoot;
    var home := BlankNameIsShort(entry);
    ShortIsRefused(absolute, entry, home, " .exe", id);
  }

  lemma BlankNameIsShort(entry: string) returns (home: string)
    requires entry == "\\\\?\\C:\\h\\ .exe"
    ensures Short(entry, home, " .exe")
  {
    home := "\\\\?\\C:\\h";
    assert entry == home + ['\\'] + " .exe";
    assert entry[4..][0] == 'C' && entry[4..][1] == ':' && entry[4..][2] == '\\';
  }

  /** The view of a path one directory below the root of drive C. */
  lemma OrdinaryExample(home: string, dos: string)
    requires Named(home) && dos == "C:\\" + home + "\\ab.exe"
    ensures CoreView(dos) == Some(RootedPath(Disk('C'), [home, "ab.exe"]))
  {
    hide CoreView, Components, Named;
    ShortNames();
    assert dos[2..] == "" + "\\" + (home + "\\" + "ab.exe");
    ComponentsJoined("", '\\', home + "\\" + "ab.exe");
    ComponentsOfNothing();
    ComponentsOfName(home);
    ComponentsBelow(home, "ab.exe");
    assert [] + ([home] + ["ab.exe"]) == [home, "ab.exe"];
    assert dos[0] == 'C' && dos[1] == ':' && dos[2] == '\\';
    OrdinaryView(dos);
  }

  lemma ShortNames()
    ensures Named("kit") && Named("kit.") && Named("ab.exe") && EntryName("ab.exe") == "ab"
  {
    ShortFile("ab.exe");
    assert Lowered("ab.exe") != "swawkit.exe" by { assert |Lowered("ab.exe")| == 6; }
    assert "ab.exe"[..2] == "ab";
  }

  lemma PeriodHome(home: string)
    requires home == "\\\\?\\C:\\kit."
    ensures IsDrivePath(home) && HomeRootOf(home, '\\') == home && VolumePath(home) == Some(RootedPath(Disk('C'), ["kit."]))
  {
    hide Components, VolumePath, Named;
    ShortNames();
    DriveVolume(home);
    assert home[6..] == "" + "\\" + "kit.";
    ComponentsJoined("", '\\', "kit.");
    ComponentsOfNothing();
    ComponentsOfName("kit.");
    assert [] + ["kit."] == ["kit."];
    assert home[4] == 'C';
  }

  lemma PeriodCore(entry: string, id: string)
    requires entry == "\\\\?\\C:\\kit.\\ab.exe" && IsReleaseId(id)
    ensures Locate(entry).Some? && LaunchOf(entry, id).entry == "C:\\kit.\\ab.exe" && UsableRoot(Locate(entry).value.homeRoot)
    ensures CoreView(LaunchOf(entry, id).executable) == Some(RootedPath(Disk('C'), ["kit."] + TailOf("ab", id)))
  {
    hide Components, VolumePath, CoreView, IsReleaseId, Locate, EntryFileName, HomeRootOf, UsableRoot, HasExeSuffix, LayoutOf, Agreed,
         TailText, EntryName, Named, IsDrivePath, ExtendedAbsolute, TailOf, CorePath;
    var home := "\\\\?\\C:\\kit.";
    PeriodHome(home);
    PeriodEntry(entry, home);
    LocatedDivides(entry);
    ShortNames();
    UsableDrive(home);
    TextsBelowHome(home, '\\', "ab.exe", id);
    TextsOnVolume(entry, |home|, id);
    TailNotShort("ab", id);
    AgreedBelow(entry, |home|, TailText("ab", id));
    AgreedView(CorePath(Locate(entry).value.releasesRoot, id));
  }

  lemma UsableDrive(home: string)
    requires IsDrivePath(home)
    ensures UsableRoot(home)
  {
    DriveVolume(home);
  }

  lemma PeriodEntry(entry: string, home: string)
    requires home == "\\\\?\\C:\\kit." && entry == "\\\\?\\C:\\kit.\\ab.exe"
    ensures Locate(entry).Some? && Locate(entry).value.homeRoot == home && EntryFileName(entry) == "ab.exe"
    ensures LastSeparator(entry, |entry|) == Some(|home|) && entry[..|home|] == home && entry[|home|] == '\\' && entry[|home| + 1..] == "ab.exe"
    ensures Dos(entry) == Some("C:\\kit.\\ab.exe")
  {
    hide Locate, EntryFileName, Short, LastSeparator, Dos;
    PeriodIsShort(entry, home);
    PeriodDos(entry);
    ShortEntry(entry, home, "ab.exe");
    BelowHome(entry, home, "ab.exe");
  }

  lemma BelowHome(entry: string, home: string, file: string)
    requires Short(entry, home, file)
    ensures |home| < |entry| && entry[..|home|] == home && entry[|home|] == '\\' && entry[|home| + 1..] == file
  {
    hide ExtendedAbsolute;
  }

  lemma PeriodIsShort(entry: string, home: string)
    requires home == "\\\\?\\C:\\kit." && entry == "\\\\?\\C:\\kit.\\ab.exe"
    ensures Short(entry, home, "ab.exe")
  {
    assert entry == home + ['\\'] + "ab.exe";
    assert entry[4..][0] == 'C' && entry[4..][1] == ':' && entry[4..][2] == '\\';
  }

  lemma PeriodDos(entry: string)
    requires entry == "\\\\?\\C:\\kit.\\ab.exe"
    ensures Dos(entry) == Some("C:\\kit.\\ab.exe")
  {
    assert entry[4..] == "C:\\kit.\\ab.exe";
  }

  /** Components must be kept: where the system drops the last period of a directory name, the Core refuses the entry. */
  lemma PeriodHomeIsRefused(absolute: string -> Option<string>, entry: string, id: string)
    requires entry == "\\\\?\\C:\\kit.\\ab.exe" && IsReleaseId(id)
    ensures Locate(entry).Some? && LaunchOf(entry, id).entry == "C:\\kit.\\ab.exe" && UsableRoot(Locate(entry).value.homeRoot)
    ensures var launch := LaunchOf(entry, id);
            absolute(launch.entry) == Some("C:\\kit\\ab.exe") && absolute(launch.executable) == Some(launch.executable) ==>
              Started(absolute, launch) == None
  {
    hide IsReleaseId, Locate, LaunchOf, UsableRoot, CoreView, DeriveRunningLayout, Components;
    PeriodCore(entry, id);
    OrdinaryExample("kit", "C:\\kit\\ab.exe");
    DeriveIs(RootedPath(Disk('C'), ["kit."]), "ab", id);
    assert ["kit", "ab.exe"][..1] == ["kit"];
    assert ["kit"][0] == "kit" && ["kit."][0] == "kit." && |"kit"| == 3 && |"kit."| == 4;
  }
}
