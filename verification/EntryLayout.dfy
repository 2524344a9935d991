/** The launcher's derivation of the runtime layout from the path of an entry executable. */
module EntryLayout {
  import opened Digest
  import opened WidePath
  import opened Wrappers

  const TEXT_CAPACITY: nat := 32768

  const MANAGER_NAME := "swawkit"

  predicate IsSeparator(c: char) {
    c == '\\' || c == '/'
  }

  function LowerOf(c: char): char {
    if 'A' <= c <= 'Z' then c - 'A' + 'a' else c
  }

  function Lowered(s: string): string {
    seq(|s|, i requires 0 <= i < |s| => LowerOf(s[i]))
  }

  /** The last separator below `before`. */
  function LastSeparator(s: string, before: nat): (index: Option<nat>)
    requires before <= |s|
    ensures index.Some? ==> index.value < before && IsSeparator(s[index.value])
                            && forall i :: index.value < i < before ==> !IsSeparator(s[i])
    ensures index.None? ==> forall i :: 0 <= i < before ==> !IsSeparator(s[i])
  {
    if before == 0 then None
    else if IsSeparator(s[before - 1]) then Some(before - 1)
    else LastSeparator(s, before - 1)
  }

  predicate HasExeSuffix(file: string) {
    |file| > 4 && file[|file| - 4] == '.'
    && (file[|file| - 3] == 'e' || file[|file| - 3] == 'E')
    && (file[|file| - 2] == 'x' || file[|file| - 2] == 'X')
    && (file[|file| - 1] == 'e' || file[|file| - 1] == 'E')
  }

  predicate IsManagerFile(file: string) {
    Lowered(file) == "swawkit.exe"
  }

  datatype Layout = Layout(
    homeRoot: string, dataParent: string, dataRoot: string, runtimeRoot: string, releasesRoot: string,
    selector: string, bootstrap: string, managerEntry: bool)

  function EntryName(file: string): string
    requires HasExeSuffix(file)
  {
    if IsManagerFile(file) then MANAGER_NAME else file[..|file| - 4]
  }

  /** The layout below `home` for an entry file; the home of a drive's root keeps its separator. */
  function LayoutOf(home: string, separator: char, file: string): Layout
    requires HasExeSuffix(file)
  {
    var dataRoot := home + "\\data\\proj." + EntryName(file);
    var runtimeRoot := dataRoot + "\\runtime";
    Layout(if home != "" && home[|home| - 1] == ':' then home + [separator] else home,
           home + "\\data", dataRoot, runtimeRoot, runtimeRoot + "\\releases", runtimeRoot + "\\current",
           home + "\\_lib\\proj\\bootstrap.ps1", IsManagerFile(file))
  }

  /** How the texts of a layout are built from one another. */
  lemma LayoutParts(home: string, separator: char, file: string)
    requires HasExeSuffix(file)
    ensures var layout := LayoutOf(home, separator, file);
            && layout.homeRoot == (if home != "" && home[|home| - 1] == ':' then home + [separator] else home)
            && layout.dataParent == home + "\\data" && layout.runtimeRoot == layout.dataRoot + "\\runtime"
            && layout.releasesRoot == layout.runtimeRoot + "\\releases" && layout.selector == layout.runtimeRoot + "\\current"
            && layout.bootstrap == home + "\\_lib\\proj\\bootstrap.ps1" && (layout.managerEntry <==> IsManagerFile(file))
  {
  }

  predicate Fits(text: string) {
    |text| + 1 <= TEXT_CAPACITY
  }

  predicate LayoutFits(layout: Layout) {
    && Fits(layout.homeRoot) && Fits(layout.dataParent) && Fits(layout.dataRoot) && Fits(layout.runtimeRoot)
    && Fits(layout.releasesRoot) && Fits(layout.selector) && Fits(layout.bootstrap)
  }

  function Locate(entry: string): Option<Layout> {
    var at := LastSeparator(entry, |entry|);
    if !ExtendedAbsolute(entry) || at == None then None
    else
      var home, file := entry[..at.value], entry[at.value + 1..];
      if !HasExeSuffix(file) then None
      else
        var layout := LayoutOf(home, entry[at.value], file);
        if LayoutFits(layout) then Some(layout) else None
  }

  // ---------------------------------------------------------------- filling buffers

  /** A text buffer: its last character is never anything but NUL, so it is always terminated. */
  predicate Sealed(buffer: array<char>)
    reads buffer
  {
    buffer.Length == TEXT_CAPACITY && buffer[TEXT_CAPACITY - 1] == NUL
  }

  function Text(buffer: array<char>): string
    requires Sealed(buffer)
    reads buffer
  {
    assert buffer[..][TEXT_CAPACITY - 1] == NUL;
    TextOf(buffer[..])
  }

  lemma TextFits(buffer: array<char>)
    requires Sealed(buffer)
    ensures Fits(Text(buffer)) && forall i :: 0 <= i < |Text(buffer)| ==> buffer[i] == Text(buffer)[i] && buffer[i] != NUL
    ensures buffer[|Text(buffer)|] == NUL
  {
    var text := Text(buffer);
    assert forall i :: 0 <= i < |text| ==> (text + [NUL])[i] == buffer[..][i] == text[i];
    assert (text + [NUL])[|text|] == buffer[..][|text|];
  }

  method CopyPathWithSuffix(source: array<char>, prefixLength: nat, suffix: string, destination: array<char>) returns (ok: bool)
    requires Terminated(source[..]) && prefixLength <= |TextOf(source[..])| && source != destination
    requires NUL !in suffix && Sealed(destination)
    modifies destination
    ensures Sealed(destination)
    ensures ok <==> Fits(TextOf(source[..])[..prefixLength] + suffix)
    ensures ok ==> Text(destination) == TextOf(source[..])[..prefixLength] + suffix
  {
    TextAt(source);
    ghost var prefix := TextOf(source[..])[..prefixLength];
    if prefixLength + |suffix| + 1 > TEXT_CAPACITY {
      return false;
    }
    for index := 0 to prefixLength
      invariant destination[..index] == prefix[..index]
      invariant destination[TEXT_CAPACITY - 1] == NUL
      invariant source[..] == old(source[..])
    {
      destination[index] := source[index];
    }
    assert prefix[..prefixLength] == prefix;
    for index := 0 to |suffix|
      invariant destination[..prefixLength + index] == prefix + suffix[..index]
      invariant destination[TEXT_CAPACITY - 1] == NUL
    {
      destination[prefixLength + index] := suffix[index];
    }
    assert suffix[..|suffix|] == suffix;
    destination[prefixLength + |suffix|] := NUL;
    assert destination[..prefixLength + |suffix| + 1] == prefix + suffix + [NUL];
    TextIs(destination[..], prefix + suffix);
    ok := true;
  }

  method AppendText(destination: array<char>, length: nat, value: string) returns (ok: bool, end: nat)
    requires Sealed(destination) && length == |Text(destination)| && NUL !in value
    modifies destination
    ensures Sealed(destination)
    ensures ok <==> Fits(old(Text(destination)) + value)
    ensures ok ==> Text(destination) == old(Text(destination)) + value && end == |Text(destination)|
  {
    TextFits(destination);
    ghost var before := Text(destination);
    assert destination[..length] == before;
    end := length;
    var source := 0;
    while source < |value|
      invariant source <= |value| && end == length + source < TEXT_CAPACITY
      invariant destination[..end] == before + value[..source]
      invariant destination[TEXT_CAPACITY - 1] == NUL
    {
      if end + 1 >= TEXT_CAPACITY {
        return false, end;
      }
      destination[end] := value[source];
      end := end + 1;
      source := source + 1;
      assert value[..source] == value[..source - 1] + [value[source - 1]];
    }
    destination[end] := NUL;
    assert value[..|value|] == value;
    assert destination[..end + 1] == before + value + [NUL];
    TextIs(destination[..], before + value);
    ok := true;
  }

  method AppendSlice(destination: array<char>, length: nat, value: array<char>, start: nat, count: nat) returns (ok: bool, end: nat)
    requires Sealed(destination) && length == |Text(destination)| && value != destination
    requires Terminated(value[..]) && start + count <= |TextOf(value[..])|
    modifies destination
    ensures Sealed(destination)
    ensures ok <==> Fits(old(Text(destination)) + TextOf(value[..])[start..start + count])
    ensures ok ==> Text(destination) == old(Text(destination)) + TextOf(value[..])[start..start + count] && end == |Text(destination)|
  {
    TextFits(destination);
    TextAt(value);
    ghost var before, slice := Text(destination), TextOf(value[..])[start..start + count];
    assert destination[..length] == before;
    end := length;
    if end + count + 1 > TEXT_CAPACITY {
      return false, end;
    }
    for source := 0 to count
      invariant end == length + source
      invariant destination[..end] == before + slice[..source]
      invariant destination[TEXT_CAPACITY - 1] == NUL
      invariant value[..] == old(value[..])
    {
      assert value[start + source] == slice[source];
      destination[end] := value[start + source];
      end := end + 1;
      assert slice[..source + 1] == slice[..source] + [slice[source]];
    }
    destination[end] := NUL;
    assert slice[..count] == slice;
    assert destination[..end + 1] == before + slice + [NUL];
    TextIs(destination[..], before + slice);
    ok := true;
  }

  method CopyPath(destination: array<char>, source: array<char>) returns (ok: bool)
    requires Sealed(destination) && Sealed(source) && source != destination
    modifies destination
    ensures Sealed(destination)
    ensures ok && Text(destination) == Text(source)
  {
    TextFits(source);
    assert Terminated(source[..]) by { assert source[..][TEXT_CAPACITY - 1] == NUL; }
    var length := WideLength(source);
    ok := CopyPathWithSuffix(source, length, "", destination);
    assert Text(source)[..length] + "" == Text(source);
  }

  method TextLength(buffer: array<char>) returns (length: nat)
    requires Sealed(buffer)
    ensures length == |Text(buffer)|
  {
    assert buffer[..][TEXT_CAPACITY - 1] == NUL;
    length := WideLength(buffer);
  }

  method LastSeparatorBefore(value: array<char>, before: nat) returns (index: Option<nat>)
    requires Terminated(value[..]) && before <= |TextOf(value[..])|
    ensures index == LastSeparator(TextOf(value[..]), before)
  {
    TextAt(value);
    ghost var text := TextOf(value[..]);
    var at := before;
    while at > 0
      invariant 0 <= at <= before && LastSeparator(text, before) == LastSeparator(text, at)
    {
      at := at - 1;
      if value[at] == '\\' || value[at] == '/' {
        return Some(at);
      }
    }
    index := None;
  }

  method EndsInExe(entry: array<char>, start: nat, length: nat) returns (exe: bool)
    requires Terminated(entry[..]) && start + length == |TextOf(entry[..])|
    ensures exe <==> HasExeSuffix(TextOf(entry[..])[start..])
  {
    TextAt(entry);
    if length <= 4 { return false; }
    var suffix := start + length - 4;
    exe := entry[suffix] == '.'
           && (entry[suffix + 1] == 'e' || entry[suffix + 1] == 'E')
           && (entry[suffix + 2] == 'x' || entry[suffix + 2] == 'X')
           && (entry[suffix + 3] == 'e' || entry[suffix + 3] == 'E');
  }

  method IsManager(entry: array<char>, start: nat, length: nat) returns (manager: bool)
    requires Terminated(entry[..]) && start + length == |TextOf(entry[..])|
    ensures manager <==> IsManagerFile(TextOf(entry[..])[start..])
  {
    TextAt(entry);
    hide TextOf;
    ghost var file := TextOf(entry[..])[start..];
    var name := "swawkit.exe";
    if length != |name| { return false; }
    for index := 0 to length
      invariant forall i :: 0 <= i < index ==> Lowered(file)[i] == name[i]
    {
      assert file[index] == entry[start + index];
      var actual := entry[start + index];
      if 'A' <= actual <= 'Z' {
        actual := actual - 'A' + 'a';
      }
      assert Lowered(file)[index] == actual;
      if actual != name[index] { return false; }
    }
    assert Lowered(file) == name;
    manager := true;
  }

  // ---------------------------------------------------------------- the launcher's own buffers

  method NewBuffer() returns (buffer: array<char>)
    ensures fresh(buffer) && Sealed(buffer)
  {
    buffer := new char[TEXT_CAPACITY](_ => NUL);
  }

  /** The 64 lowercase hexadecimal digits that name a release. */
  predicate IsReleaseId(id: string) {
    IsSha256(id)
  }

  /** What is read of the selector file, up to 66 bytes: one release id and a line end. */
  lemma NoNulInReleaseId(id: string)
    requires IsReleaseId(id)
    ensures NUL !in id
  {
  }

  predicate IsSelectorRecord(record: string) {
    |record| == 65 && record[64] == '\n' && IsReleaseId(record[..64])
  }

  function CorePath(releasesRoot: string, id: string): string {
    releasesRoot + "\\" + id + "\\swawkit-proj.exe"
  }

  /** The file-system answers that the resolution of the current Core asks for. */
  datatype DiskFacts = DiskFacts(directoriesPresent: bool, selectorRecord: Option<string>, releasePresent: bool, corePresent: bool)

  class EntryPaths {
    const homeRoot: array<char>
    const dataParent: array<char>
    const dataRoot: array<char>
    const runtimeRoot: array<char>
    const releasesRoot: array<char>
    const selectedCore: array<char>
    const selector: array<char>
    const bootstrap: array<char>
    var managerEntry: bool

    ghost function Buffers(): seq<array<char>> {
      [homeRoot, dataParent, dataRoot, runtimeRoot, releasesRoot, selectedCore, selector, bootstrap]
    }

    ghost predicate Apart() {
      forall i, j :: 0 <= i < j < 8 ==> Buffers()[i] != Buffers()[j]
    }

    ghost predicate Valid()
      reads this, homeRoot, dataParent, dataRoot, runtimeRoot, releasesRoot, selectedCore, selector, bootstrap
    {
      && Sealed(homeRoot) && Sealed(dataParent) && Sealed(dataRoot) && Sealed(runtimeRoot)
      && Sealed(releasesRoot) && Sealed(selectedCore) && Sealed(selector) && Sealed(bootstrap)
      && Apart()
    }

    /** The layout held in the buffers. */
    ghost function Held(): Layout
      requires Valid()
      reads this, homeRoot, dataParent, dataRoot, runtimeRoot, releasesRoot, selectedCore, selector, bootstrap
    {
      Layout(Text(homeRoot), Text(dataParent), Text(dataRoot), Text(runtimeRoot), Text(releasesRoot),
             Text(selector), Text(bootstrap), managerEntry)
    }

    constructor ()
      ensures Valid() && forall b :: b in Buffers() ==> fresh(b)
    {
      hide Sealed;
      var homeRootText := NewBuffer();
      var dataParentText := NewBuffer();
      var dataRootText := NewBuffer();
      var runtimeRootText := NewBuffer();
      var releasesRootText := NewBuffer();
      var selectedCoreText := NewBuffer();
      var selectorText := NewBuffer();
      var bootstrapText := NewBuffer();
      homeRoot := homeRootText;
      dataParent := dataParentText;
      dataRoot := dataRootText;
      runtimeRoot := runtimeRootText;
      releasesRoot := releasesRootText;
      selectedCore := selectedCoreText;
      selector := selectorText;
      bootstrap := bootstrapText;
      managerEntry := false;
    }

    /** Fills the data root: `home\data\proj.` and the entry's name, canonical for the manager. */
    method LocateData(entry: array<char>, homeLength: nat) returns (ok: bool)
      requires Terminated(entry[..]) && homeLength < |TextOf(entry[..])| && HasExeSuffix(TextOf(entry[..])[homeLength + 1..])
      requires Sealed(dataRoot) && entry != dataRoot
      modifies this`managerEntry, dataRoot
      ensures Sealed(dataRoot)
      ensures var text := TextOf(entry[..]);
              var layout := LayoutOf(text[..homeLength], text[homeLength], text[homeLength + 1..]);
              && managerEntry == layout.managerEntry
              && (ok <==> Fits(layout.dataRoot)) && (ok ==> Text(dataRoot) == layout.dataRoot)
    {
      hide TextOf, Text, Lowered;
      ghost var text := TextOf(entry[..]);
      var length := WideLength(entry);
      var fileStart := homeLength + 1;
      var fileLength := length - fileStart;
      managerEntry := IsManager(entry, fileStart, fileLength);
      ok := CopyPathWithSuffix(entry, homeLength, "\\data\\proj.", dataRoot);
      if !ok { return; }
      length := TextLength(dataRoot);
      if managerEntry {
        ok, length := AppendText(dataRoot, length, MANAGER_NAME);
      } else {
        ok, length := AppendSlice(dataRoot, length, entry, fileStart, fileLength - 4);
        assert text[fileStart..fileStart + (fileLength - 4)] == text[fileStart..][..fileLength - 4];
      }
    }

    /** Fills the runtime root, the releases root and the selector below the data root. */
    method LocateRuntime() returns (ok: bool)
      requires Sealed(dataRoot) && Sealed(runtimeRoot) && Sealed(releasesRoot) && Sealed(selector)
      requires dataRoot != runtimeRoot && dataRoot != releasesRoot && dataRoot != selector
      requires runtimeRoot != releasesRoot && runtimeRoot != selector && releasesRoot != selector
      modifies runtimeRoot, releasesRoot, selector
      ensures Sealed(runtimeRoot) && Sealed(releasesRoot) && Sealed(selector)
      ensures var root := Text(dataRoot) + "\\runtime";
              && (ok <==> Fits(root) && Fits(root + "\\releases") && Fits(root + "\\current"))
              && (ok ==> && Text(runtimeRoot) == root && Text(releasesRoot) == root + "\\releases"
                         && Text(selector) == root + "\\current")
    {
      hide Text;
      ok := CopyPath(runtimeRoot, dataRoot);
      var length := TextLength(runtimeRoot);
      ok, length := AppendText(runtimeRoot, length, "\\runtime");
      if !ok { return; }
      ok := CopyPath(releasesRoot, runtimeRoot);
      length := TextLength(releasesRoot);
      ok, length := AppendText(releasesRoot, length, "\\releases");
      if !ok { return; }
      ok := CopyPath(selector, runtimeRoot);
      length := TextLength(selector);
      ok, length := AppendText(selector, length, "\\current");
    }

    lemma BuffersApart()
      requires Valid()
      ensures homeRoot != dataParent && homeRoot != dataRoot && homeRoot != runtimeRoot && homeRoot != releasesRoot
      ensures homeRoot != selector && homeRoot != bootstrap && homeRoot != selectedCore
      ensures dataParent != dataRoot && dataParent != runtimeRoot && dataParent != releasesRoot
      ensures dataParent != selector && dataParent != bootstrap && dataParent != selectedCore
      ensures dataRoot != runtimeRoot && dataRoot != releasesRoot && dataRoot != selector && dataRoot != bootstrap
      ensures dataRoot != selectedCore && runtimeRoot != releasesRoot && runtimeRoot != selector && runtimeRoot != bootstrap
      ensures runtimeRoot != selectedCore && releasesRoot != selector && releasesRoot != bootstrap
      ensures releasesRoot != selectedCore && selector != bootstrap && selector != selectedCore && bootstrap != selectedCore
    {
      var b := Buffers();
      assert b[0] != b[1] && b[0] != b[2] && b[0] != b[3] && b[0] != b[4] && b[0] != b[5] && b[0] != b[6] && b[0] != b[7];
      assert b[1] != b[2] && b[1] != b[3] && b[1] != b[4] && b[1] != b[5] && b[1] != b[6] && b[1] != b[7];
      assert b[2] != b[3] && b[2] != b[4] && b[2] != b[5] && b[2] != b[6] && b[2] != b[7];
      assert b[3] != b[4] && b[3] != b[5] && b[3] != b[6] && b[3] != b[7];
      assert b[4] != b[5] && b[4] != b[6] && b[4] != b[7] && b[5] != b[6] && b[5] != b[7] && b[6] != b[7];
    }

    /** Fills the home root and the data parent; a home that ends in a colon keeps its separator. */
    method LocateHome(entry: array<char>, homeLength: nat) returns (ok: bool)
      requires Terminated(entry[..]) && homeLength < |TextOf(entry[..])|
      requires Sealed(homeRoot) && Sealed(dataParent) && homeRoot != dataParent && entry != homeRoot && entry != dataParent
      modifies homeRoot, dataParent
      ensures Sealed(homeRoot) && Sealed(dataParent)
      ensures var text := TextOf(entry[..]);
              var home := text[..homeLength];
              var root := if home != "" && home[|home| - 1] == ':' then home + [text[homeLength]] else home;
              && (ok <==> Fits(root) && Fits(home + "\\data"))
              && (ok ==> Text(homeRoot) == root && Text(dataParent) == home + "\\data")
    {
      hide TextOf, Text, Sealed, Fits;
      ghost var text := TextOf(entry[..]);
      TextAt(entry);
      var homePathLength := if homeLength > 0 && entry[homeLength - 1] == ':' then homeLength + 1 else homeLength;
      ghost var home := text[..homeLength];
      assert text[..homePathLength] + "" == if home != "" && home[|home| - 1] == ':' then home + [text[homeLength]] else home;
      ok := CopyPathWithSuffix(entry, homePathLength, "", homeRoot);
      if !ok { return; }
      ok := CopyPathWithSuffix(entry, homeLength, "\\data", dataParent);
    }

    /** Fills every buffer for the home that ends at `homeLength`. */
    method LocateBelow(entry: array<char>, homeLength: nat) returns (ok: bool)
      requires Valid() && Terminated(entry[..]) && entry !in Buffers()
      requires homeLength < |TextOf(entry[..])| && HasExeSuffix(TextOf(entry[..])[homeLength + 1..])
      modifies this`managerEntry, homeRoot, dataParent, dataRoot, runtimeRoot, releasesRoot, selector, bootstrap
      ensures Valid()
      ensures var text := old(TextOf(entry[..]));
              var layout := LayoutOf(text[..homeLength], text[homeLength], text[homeLength + 1..]);
              (ok <==> LayoutFits(layout)) && (ok ==> Held() == layout)
    {
      hide TextOf, Text, HasExeSuffix, LayoutOf, Sealed, Fits, IsManagerFile, Apart, Buffers, Held, LayoutFits;
      BuffersApart();
      NotABuffer(entry);
      ghost var text := TextOf(entry[..]);
      ghost var home, file := text[..homeLength], text[homeLength + 1..];
      ghost var layout := LayoutOf(home, text[homeLength], file);
      LayoutParts(home, text[homeLength], file);
      FitsInParts(layout);
      ok := LocateHome(entry, homeLength);
      if !ok { return; }
      ok := LocateData(entry, homeLength);
      if !ok { return; }
      ok := LocateRuntime();
      if !ok { return; }
      ok := CopyPathWithSuffix(entry, homeLength, "\\_lib\\proj\\bootstrap.ps1", bootstrap);
      if ok { HeldInParts(); }
    }

    lemma FitsInParts(layout: Layout)
      ensures LayoutFits(layout) <==>
              && Fits(layout.homeRoot) && Fits(layout.dataParent) && Fits(layout.dataRoot) && Fits(layout.runtimeRoot)
              && Fits(layout.releasesRoot) && Fits(layout.selector) && Fits(layout.bootstrap)
    {
    }

    lemma HeldInParts()
      requires Valid()
      ensures Held() == Layout(Text(homeRoot), Text(dataParent), Text(dataRoot), Text(runtimeRoot), Text(releasesRoot),
                               Text(selector), Text(bootstrap), managerEntry)
    {
    }

    lemma NotABuffer(entry: array<char>)
      requires entry !in Buffers()
      ensures entry != homeRoot && entry != dataParent && entry != dataRoot && entry != runtimeRoot
      ensures entry != releasesRoot && entry != selector && entry != bootstrap
    {
      assert forall i :: 0 <= i < 8 ==> Buffers()[i] in Buffers();
      assert Buffers()[0] != entry && Buffers()[1] != entry && Buffers()[2] != entry && Buffers()[3] != entry;
      assert Buffers()[4] != entry && Buffers()[6] != entry && Buffers()[7] != entry;
    }

    method LocateEntryLayout(entry: array<char>) returns (ok: bool)
      requires Valid() && Terminated(entry[..]) && entry !in Buffers()
      modifies this`managerEntry, homeRoot, dataParent, dataRoot, runtimeRoot, releasesRoot, selector, bootstrap
      ensures Valid()
      ensures ok <==> Locate(old(TextOf(entry[..]))).Some?
      ensures ok ==> Held() == Locate(old(TextOf(entry[..]))).value
    {
      hide TextOf, Text, ExtendedAbsolute, HasExeSuffix, LayoutOf, Valid;
      ghost var text := TextOf(entry[..]);
      var entryLength := WideLength(entry);
      var at := LastSeparatorBefore(entry, entryLength);
      var extended := IsExtendedAbsolutePath(entry);
      if !extended || at == None { return false; }
      var exe := EndsInExe(entry, at.value + 1, entryLength - (at.value + 1));
      if !exe { return false; }
      ok := LocateBelow(entry, at.value);
    }

    method ResolveCurrentCore(disk: DiskFacts) returns (ok: bool)
      requires Sealed(selectedCore) && Sealed(releasesRoot) && selectedCore != releasesRoot
      modifies selectedCore
      ensures Sealed(selectedCore)
      ensures ok <==> && disk.directoriesPresent && disk.selectorRecord.Some? && IsSelectorRecord(disk.selectorRecord.value)
                      && disk.releasePresent && disk.corePresent
                      && Fits(CorePath(Text(releasesRoot), disk.selectorRecord.value[..64]))
      ensures ok ==> Text(selectedCore) == CorePath(Text(releasesRoot), disk.selectorRecord.value[..64])
    {
      hide IsReleaseId, Text;
      selectedCore[0] := NUL;
      if !disk.directoriesPresent || disk.selectorRecord == None { return false; }
      var record := disk.selectorRecord.value;
      if !IsSelectorRecord(record) { return false; }
      ok := CopyPath(selectedCore, releasesRoot);
      var destination := TextLength(selectedCore);
      ok, destination := AppendText(selectedCore, destination, "\\");
      if !ok || destination + 64 + 1 > TEXT_CAPACITY { return false; }
      NoNulInReleaseId(record[..64]);
      ok, destination := AppendText(selectedCore, destination, record[..64]);
      if !disk.releasePresent { return false; }
      ok, destination := AppendText(selectedCore, destination, "\\swawkit-proj.exe");
      ok := ok && disk.corePresent;
    }
  }
}
