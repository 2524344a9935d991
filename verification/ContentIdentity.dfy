/** The texts whose hashes name a Command Runtime and a Runtime Release. */
module ContentIdentity {
  import opened Digest
  import opened Ordering
  import opened TextSplit
  import opened Wrappers

  // ---------------------------------------------------------------- decimals

  function DigitOf(n: nat): char
    requires n < 10
  {
    n as char + '0'
  }

  function Decimal(n: nat): (s: string)
    ensures s != "" && forall i :: 0 <= i < |s| ==> '0' <= s[i] <= '9'
  {
    if n < 10 then [DigitOf(n)] else Decimal(n / 10) + [DigitOf(n % 10)]
  }

  function NumberOf(s: string): int {
    if s == "" then 0 else 10 * NumberOf(s[..|s| - 1]) + (s[|s| - 1] as int - '0' as int)
  }

  lemma {:induction false} NumberOfDecimal(n: nat)
    ensures NumberOf(Decimal(n)) == n
  {
    if n < 10 {
      assert Decimal(n)[..0] == "";
    } else {
      NumberOfDecimal(n / 10);
      var s := Decimal(n);
      assert s[..|s| - 1] == Decimal(n / 10) && s[|s| - 1] == DigitOf(n % 10);
    }
  }

  // ---------------------------------------------------------------- collecting named records

  /** A map of the records by key; a second record of a key, or an invalid one, is refused. */
  function Collected<T>(key: T -> Key, valid: T -> bool, records: seq<T>): Option<map<Key, T>> {
    if records == [] then Some(map[])
    else
      var last := records[|records| - 1];
      match Collected(key, valid, records[..|records| - 1])
      case None => None
      case Some(m) => if !valid(last) || key(last) in m then None else Some(m[key(last) := last])
  }

  method Collect<T>(key: T -> Key, valid: T -> bool, records: seq<T>) returns (collected: Option<map<Key, T>>)
    ensures collected == Collected(key, valid, records)
  {
    var m: map<Key, T> := map[];
    for i := 0 to |records|
      invariant Collected(key, valid, records[..i]) == Some(m)
    {
      var record := records[i];
      assert records[..i + 1][..i] == records[..i];
      if !valid(record) || key(record) in m {
        RefusedEarly(key, valid, records, i + 1);
        return None;
      }
      m := m[key(record) := record];
    }
    assert records[..|records|] == records;
    collected := Some(m);
  }

  lemma {:induction false} RefusedEarly<T>(key: T -> Key, valid: T -> bool, records: seq<T>, k: nat)
    requires k <= |records| && Collected(key, valid, records[..k]) == None
    ensures Collected(key, valid, records) == None
  {
    if k < |records| {
      assert records[..|records| - 1][..k] == records[..k];
      RefusedEarly(key, valid, records[..|records| - 1], k);
    } else {
      assert records[..k] == records;
    }
  }

  /** The records of a map, under their keys. */
  predicate Holds<T(==)>(key: T -> Key, m: map<Key, T>, records: seq<T>) {
    && (forall r :: r in records ==> key(r) in m && m[key(r)] == r)
    && (forall k :: k in m ==> m[k] in records && key(m[k]) == k)
  }

  lemma DistinctSnoc<T>(key: T -> Key, front: seq<T>, last: T)
    ensures DistinctKeys(key, front + [last]) <==> DistinctKeys(key, front) && forall y :: y in front ==> key(y) != key(last)
  {
    var s := front + [last];
    if DistinctKeys(key, s) {
      forall i, j | 0 <= i < j < |front| ensures key(front[i]) != key(front[j]) {
        assert s[i] == front[i] && s[j] == front[j];
      }
      forall y | y in front ensures key(y) != key(last) {
        var i :| 0 <= i < |front| && front[i] == y;
        assert s[i] == y && s[|front|] == last;
      }
    }
  }

  lemma {:induction false} CollectedExactlyWhen<T>(key: T -> Key, valid: T -> bool, records: seq<T>)
    ensures Collected(key, valid, records).Some? <==> (forall r :: r in records ==> valid(r)) && DistinctKeys(key, records)
    ensures Collected(key, valid, records).Some? ==> Holds(key, Collected(key, valid, records).value, records)
  {
    hide DistinctKeys;
    if records == [] {
      NoneAreDistinct(key, records);
    } else {
      var n := |records| - 1;
      var front, last := records[..n], records[n];
      CollectedExactlyWhen(key, valid, front);
      assert records == front + [last];
      DistinctSnoc(key, front, last);
      assert forall r :: r in records <==> r in front || r == last;
    }
  }

  lemma NoneAreDistinct<T>(key: T -> Key, records: seq<T>)
    requires records == []
    ensures DistinctKeys(key, records)
  {
  }

  lemma HoldsSame<T>(key: T -> Key, m: map<Key, T>, n: map<Key, T>, a: seq<T>, b: seq<T>)
    requires Holds(key, m, a) && Holds(key, n, b) && forall x :: x in a <==> x in b
    ensures m == n
  {
    forall k | k in m ensures k in n && m[k] == n[k] {
      assert m[k] in a;
    }
    forall k | k in n ensures k in m {
      assert n[k] in b;
    }
  }

  /** Two lists of the same records, in any order, give the same map or are both refused. */
  lemma CollectedInAnyOrder<T(!new)>(key: T -> Key, valid: T -> bool, a: seq<T>, b: seq<T>)
    requires multiset(a) == multiset(b)
    ensures Collected(key, valid, a) == Collected(key, valid, b)
  {
    hide DistinctKeys, Holds, Collected;
    CollectedExactlyWhen(key, valid, a);
    CollectedExactlyWhen(key, valid, b);
    SameElements(a, b);
    DistinctIsDistinctBag(key, a);
    DistinctIsDistinctBag(key, b);
    if Collected(key, valid, a).Some? {
      HoldsSame(key, Collected(key, valid, a).value, Collected(key, valid, b).value, a, b);
    }
  }

  // ---------------------------------------------------------------- the tools of a Command Runtime

  datatype ToolRecord = ToolRecord(name: string, version: string, path: string, length: nat, sha256: string)

  const TOOL_NAMES: seq<string> := ["bun", "pwsh"]

  const MAX_TOOL_BYTES: nat := 512 * 1024 * 1024

  const COMMAND_RUNTIME_SCHEMA := "swawkit.proj-command-runtime/v1"

  predicate IsAlphanumeric(c: char) {
    '0' <= c <= '9' || 'a' <= c <= 'z' || 'A' <= c <= 'Z'
  }

  predicate AllDigits(s: string) {
    forall i :: 0 <= i < |s| ==> '0' <= s[i] <= '9'
  }

  /** Three numbers, and after a hyphen any letters, digits, dots and hyphens. */
  predicate ValidVersion(value: string) {
    match FindChar(value, '-', 0)
    case None => ValidCore(value)
    case Some(k) =>
      && k + 1 < |value| && ValidCore(value[..k])
      && forall i :: k + 1 <= i < |value| ==> IsAlphanumeric(value[i]) || value[i] == '.' || value[i] == '-'
  }

  predicate ValidCore(core: string) {
    |SplitOn(core, '.')| == 3 && forall part :: part in SplitOn(core, '.') ==> part != "" && AllDigits(part)
  }

  predicate ValidPathPart(part: string) {
    && part != "" && part != "." && part != ".."
    && forall i :: 0 <= i < |part| ==>
         IsAlphanumeric(part[i]) || part[i] == '.' || part[i] == '_' || part[i] == '+' || part[i] == '-' || part[i] == ' '
  }

  predicate ValidRelativePath(value: string) {
    && value != "" && '\\' !in value && value[0] != '/' && value[|value| - 1] != '/'
    && forall part :: part in SplitOn(value, '/') ==> ValidPathPart(part)
  }

  predicate ValidTool(r: ToolRecord) {
    && r.name in TOOL_NAMES && ValidVersion(r.version) && ValidRelativePath(r.path)
    && 0 < r.length <= MAX_TOOL_BYTES && IsSha256(r.sha256)
  }

  function ToolKey(r: ToolRecord): Key { [r.name] }

  /** The tools of a manifest: one valid record of each name. */
  function Tools(records: seq<ToolRecord>): Option<map<Key, ToolRecord>> {
    match Collected(ToolKey, (r: ToolRecord) => ValidTool(r), records)
    case None => None
    case Some(tools) => if tools.Keys == {[TOOL_NAMES[0]], [TOOL_NAMES[1]]} then Some(tools) else None
  }

  function ToolLines(r: ToolRecord): seq<string> {
    [r.name, r.version, r.path, Decimal(r.length), r.sha256]
  }

  predicate HasTools(tools: map<Key, ToolRecord>) {
    && tools.Keys == {["bun"], ["pwsh"]}
    && forall k :: k in tools ==> ValidTool(tools[k]) && [tools[k].name] == k
  }

  function RuntimeLines(tools: map<Key, ToolRecord>): seq<string>
    requires HasTools(tools)
  {
    [COMMAND_RUNTIME_SCHEMA] + ToolLines(tools[["bun"]]) + ToolLines(tools[["pwsh"]])
  }

  /** The text whose hash is the Command Runtime's id. */
  method RuntimeIdentity(tools: map<Key, ToolRecord>) returns (identity: string)
    requires HasTools(tools)
    ensures identity == JoinOn(RuntimeLines(tools), '\n')
  {
    hide ValidTool;
    var lines := [COMMAND_RUNTIME_SCHEMA];
    for i := 0 to |TOOL_NAMES|
      invariant lines == [COMMAND_RUNTIME_SCHEMA] + (if i > 0 then ToolLines(tools[["bun"]]) else [])
                         + (if i > 1 then ToolLines(tools[["pwsh"]]) else [])
    {
      var r := tools[[TOOL_NAMES[i]]];
      lines := lines + [r.name, r.version, r.path, Decimal(r.length), r.sha256];
    }
    identity := JoinOn(lines, '\n');
  }

  lemma ToolsHold(records: seq<ToolRecord>)
    requires Tools(records).Some?
    ensures HasTools(Tools(records).value)
  {
    hide ValidTool, DistinctKeys;
    CollectedExactlyWhen(ToolKey, (r: ToolRecord) => ValidTool(r), records);
    var tools := Tools(records).value;
    forall k | k in tools ensures ValidTool(tools[k]) && [tools[k].name] == k {
      assert tools[k] in records && ToolKey(tools[k]) == k;
    }
  }

  // ---------------------------------------------------------------- lines

  lemma PartsLack(s: string, separator: char, other: char)
    requires separator != other && forall part :: part in SplitOn(s, separator) ==> Lacks(part, other)
    ensures Lacks(s, other)
  {
    JoinOfSplit(s, separator);
    JoinedLacks(SplitOn(s, separator), separator, other);
  }

  lemma {:induction false} JoinedLacks(parts: seq<string>, separator: char, other: char)
    requires separator != other && forall part :: part in parts ==> Lacks(part, other)
    ensures Lacks(JoinOn(parts, separator), other)
  {
    if |parts| >= 1 {
      assert parts[0] in parts;
    }
    if |parts| > 1 {
      assert forall part :: part in parts[1..] ==> part in parts;
      JoinedLacks(parts[1..], separator, other);
    }
  }

  lemma CoreIsOneLine(core: string)
    requires ValidCore(core)
    ensures Lacks(core, '\n')
  {
    PartsLack(core, '.', '\n');
  }

  lemma ToolLinesHaveNoBreaks(r: ToolRecord)
    requires ValidTool(r)
    ensures forall i :: 0 <= i < |ToolLines(r)| ==> Lacks(ToolLines(r)[i], '\n')
  {
    hide SplitOn;
    if FindChar(r.version, '-', 0).Some? {
      var k := FindChar(r.version, '-', 0).value;
      CoreIsOneLine(r.version[..k]);
      assert forall i :: 0 <= i < k ==> r.version[i] == r.version[..k][i];
    } else {
      CoreIsOneLine(r.version);
    }
    PartsLack(r.path, '/', '\n');
  }

  lemma SameToolLines(a: ToolRecord, b: ToolRecord)
    requires ToolLines(a) == ToolLines(b)
    ensures a == b
  {
    var la, lb := ToolLines(a), ToolLines(b);
    assert la[0] == lb[0] && la[1] == lb[1] && la[2] == lb[2] && la[3] == lb[3] && la[4] == lb[4];
    NumberOfDecimal(a.length);
    NumberOfDecimal(b.length);
  }

  /** Equal identity texts come from equal tools, their decimal lengths included. */
  lemma RuntimeIdentityIsInjective(a: map<Key, ToolRecord>, b: map<Key, ToolRecord>)
    requires HasTools(a) && HasTools(b) && JoinOn(RuntimeLines(a), '\n') == JoinOn(RuntimeLines(b), '\n')
    ensures a == b
  {
    hide ValidTool, ToolLines, JoinOn;
    var la, lb := RuntimeLines(a), RuntimeLines(b);
    RuntimeLinesHaveNoBreaks(a);
    RuntimeLinesHaveNoBreaks(b);
    JoinIsInjective(la, lb, '\n');
    ToolLinesLength(a[["bun"]]);
    ToolLinesLength(b[["bun"]]);
    assert la[1..6] == ToolLines(a[["bun"]]) && lb[1..6] == ToolLines(b[["bun"]]);
    assert la[6..] == ToolLines(a[["pwsh"]]) && lb[6..] == ToolLines(b[["pwsh"]]);
    SameToolLines(a[["bun"]], b[["bun"]]);
    SameToolLines(a[["pwsh"]], b[["pwsh"]]);
    assert a.Keys == b.Keys;
  }

  lemma ToolLinesLength(r: ToolRecord)
    ensures |ToolLines(r)| == 5
  {
  }

  lemma SchemaIsOneLine()
    ensures Lacks(COMMAND_RUNTIME_SCHEMA, '\n') && Lacks(RUNTIME_RELEASE_SCHEMA, '\n')
  {
  }

  lemma RuntimeLinesHaveNoBreaks(tools: map<Key, ToolRecord>)
    requires HasTools(tools)
    ensures forall i :: 0 <= i < |RuntimeLines(tools)| ==> Lacks(RuntimeLines(tools)[i], '\n')
  {
    hide ValidTool, ToolLines, Lacks;
    SchemaIsOneLine();
    ToolLinesHaveNoBreaks(tools[["bun"]]);
    ToolLinesHaveNoBreaks(tools[["pwsh"]]);
  }

  /** The order of a manifest's tools does not change the runtime it names. */
  lemma ManifestOrderIsIrrelevant(a: seq<ToolRecord>, b: seq<ToolRecord>)
    requires multiset(a) == multiset(b)
    ensures Tools(a) == Tools(b)
  {
    hide ValidTool, DistinctKeys;
    CollectedInAnyOrder(ToolKey, (r: ToolRecord) => ValidTool(r), a, b);
  }

  // ---------------------------------------------------------------- the artifacts of a Runtime Release

  datatype ArtifactRecord = ArtifactRecord(name: string, length: nat, sha256: string)

  const RUNTIME_RELEASE_SCHEMA := "swawkit.proj-release-set/v4"

  const RUNTIME_ARTIFACT_NAMES: seq<string> :=
    ["swawkit-proj-dev.exe", "swawkit-proj-host.exe", "swawkit-proj-module.exe", "swawkit-proj.exe"]

  const MAX_ARTIFACT_BYTES: nat := 512 * 1024 * 1024

  predicate ValidArtifact(r: ArtifactRecord) {
    r.name in RUNTIME_ARTIFACT_NAMES && 0 < r.length <= MAX_ARTIFACT_BYTES && IsSha256(r.sha256)
  }

  function ArtifactKey(r: ArtifactRecord): Key { [r.name] }

  /** The artifacts of a manifest: as many valid records of distinct names as there are names. */
  function Artifacts(records: seq<ArtifactRecord>): Option<map<Key, ArtifactRecord>> {
    match Collected(ArtifactKey, (r: ArtifactRecord) => ValidArtifact(r), records)
    case None => None
    case Some(artifacts) => if |artifacts| == |RUNTIME_ARTIFACT_NAMES| then Some(artifacts) else None
  }

  const ARTIFACT_KEYS: set<Key> :=
    {[RUNTIME_ARTIFACT_NAMES[0]], [RUNTIME_ARTIFACT_NAMES[1]], [RUNTIME_ARTIFACT_NAMES[2]], [RUNTIME_ARTIFACT_NAMES[3]]}

  lemma ArtifactKeys()
    ensures |ARTIFACT_KEYS| <= |RUNTIME_ARTIFACT_NAMES|
    ensures forall name :: name in RUNTIME_ARTIFACT_NAMES <==> [name] in ARTIFACT_KEYS
  {
  }

  lemma ArtifactsHold(records: seq<ArtifactRecord>)
    requires Artifacts(records).Some?
    ensures HasArtifacts(Artifacts(records).value)
  {
    hide DistinctKeys, ARTIFACT_KEYS;
    CollectedExactlyWhen(ArtifactKey, (r: ArtifactRecord) => ValidArtifact(r), records);
    var artifacts := Artifacts(records).value;
    ArtifactKeys();
    forall k | k in artifacts ensures ValidArtifact(artifacts[k]) && [artifacts[k].name] == k && k in ARTIFACT_KEYS {
      assert artifacts[k] in records && ArtifactKey(artifacts[k]) == k;
      ValidNamed(artifacts[k]);
    }
    FullSubset(artifacts.Keys, ARTIFACT_KEYS);
  }

  lemma ValidNamed(r: ArtifactRecord)
    requires ValidArtifact(r)
    ensures r.name in RUNTIME_ARTIFACT_NAMES
  {
  }

  lemma FullSubset<T>(a: set<T>, b: set<T>)
    requires a <= b && |a| >= |b|
    ensures a == b
  {
    assert |b - a| == |b| - |a|;
  }

  function ArtifactLines(r: ArtifactRecord): seq<string> {
    [r.name, Decimal(r.length), r.sha256]
  }

  predicate HasArtifacts(records: map<Key, ArtifactRecord>) {
    && (forall name :: name in RUNTIME_ARTIFACT_NAMES ==> [name] in records)
    && forall k :: k in records ==> ValidArtifact(records[k]) && [records[k].name] == k
  }

  function ArtifactsLines(records: map<Key, ArtifactRecord>, count: nat): seq<string>
    requires HasArtifacts(records) && count <= |RUNTIME_ARTIFACT_NAMES|
  {
    if count == 0 then []
    else ArtifactsLines(records, count - 1) + ArtifactLines(records[[RUNTIME_ARTIFACT_NAMES[count - 1]]])
  }

  function ReleaseLines(commandRuntimeId: string, records: map<Key, ArtifactRecord>): seq<string>
    requires HasArtifacts(records)
  {
    [RUNTIME_RELEASE_SCHEMA, commandRuntimeId] + ArtifactsLines(records, |RUNTIME_ARTIFACT_NAMES|)
  }

  /** The text whose hash is the Runtime Release's id. */
  method ReleaseIdentity(commandRuntimeId: string, records: map<Key, ArtifactRecord>) returns (identity: string)
    requires HasArtifacts(records)
    ensures identity == JoinOn(ReleaseLines(commandRuntimeId, records), '\n')
  {
    hide ValidArtifact;
    var lines := [RUNTIME_RELEASE_SCHEMA, commandRuntimeId];
    for i := 0 to |RUNTIME_ARTIFACT_NAMES|
      invariant lines == [RUNTIME_RELEASE_SCHEMA, commandRuntimeId] + ArtifactsLines(records, i)
    {
      var r := records[[RUNTIME_ARTIFACT_NAMES[i]]];
      lines := lines + [r.name, Decimal(r.length), r.sha256];
    }
    identity := JoinOn(lines, '\n');
  }

  lemma SameParts(a: seq<string>, x: seq<string>, b: seq<string>, y: seq<string>)
    requires a + x == b + y && |a| == |b|
    ensures a == b && x == y
  {
    assert (a + x)[..|a|] == a && (b + y)[..|b|] == b && (a + x)[|a|..] == x && (b + y)[|b|..] == y;
  }

  lemma OneMoreArtifact(records: map<Key, ArtifactRecord>, n: nat)
    requires HasArtifacts(records) && n < |RUNTIME_ARTIFACT_NAMES|
    ensures ValidArtifact(ArtifactOf(records, n))
    ensures ArtifactsLines(records, n + 1) == ArtifactsLines(records, n) + ArtifactLines(ArtifactOf(records, n))
  {
    assert RUNTIME_ARTIFACT_NAMES[n] in RUNTIME_ARTIFACT_NAMES;
  }

  function ArtifactOf(records: map<Key, ArtifactRecord>, i: nat): ArtifactRecord
    requires HasArtifacts(records) && i < |RUNTIME_ARTIFACT_NAMES|
  {
    records[[RUNTIME_ARTIFACT_NAMES[i]]]
  }

  lemma NoArtifacts(records: map<Key, ArtifactRecord>)
    requires HasArtifacts(records)
    ensures ArtifactsLines(records, 0) == []
  {
  }

  lemma {:induction false} ArtifactsLinesApart(a: map<Key, ArtifactRecord>, b: map<Key, ArtifactRecord>, count: nat)
    requires HasArtifacts(a) && HasArtifacts(b) && count <= |RUNTIME_ARTIFACT_NAMES|
    ensures |ArtifactsLines(a, count)| == 3 * count == |ArtifactsLines(b, count)|
    ensures forall i :: 0 <= i < |ArtifactsLines(a, count)| ==> Lacks(ArtifactsLines(a, count)[i], '\n')
    ensures ArtifactsLines(a, count) == ArtifactsLines(b, count) ==>
              forall i :: 0 <= i < count ==> ArtifactOf(a, i) == ArtifactOf(b, i)
    decreases count
  {
    hide ValidArtifact, Lacks, ArtifactLines, ArtifactsLines, ArtifactOf, HasArtifacts;
    if count == 0 {
      NoArtifacts(a);
      NoArtifacts(b);
    } else {
      var n := count - 1;
      ArtifactsLinesApart(a, b, n);
      OneMoreArtifact(a, n);
      OneMoreArtifact(b, n);
      ArtifactHasNoBreaks(ArtifactOf(a, n));
      ThreeLines(ArtifactOf(a, n));
      ThreeLines(ArtifactOf(b, n));
      if ArtifactsLines(a, count) == ArtifactsLines(b, count) {
        SameParts(ArtifactsLines(a, n), ArtifactLines(ArtifactOf(a, n)), ArtifactsLines(b, n), ArtifactLines(ArtifactOf(b, n)));
        SameArtifactLines(ArtifactOf(a, n), ArtifactOf(b, n));
      }
    }
  }

  lemma ThreeLines(r: ArtifactRecord)
    ensures |ArtifactLines(r)| == 3
  {
  }

  lemma ArtifactHasNoBreaks(r: ArtifactRecord)
    requires ValidArtifact(r)
    ensures forall i :: 0 <= i < |ArtifactLines(r)| ==> Lacks(ArtifactLines(r)[i], '\n')
  {
  }

  lemma SameArtifactLines(a: ArtifactRecord, b: ArtifactRecord)
    requires ArtifactLines(a) == ArtifactLines(b)
    ensures a == b
  {
    var la, lb := ArtifactLines(a), ArtifactLines(b);
    assert la[0] == lb[0] && la[1] == lb[1] && la[2] == lb[2];
    NumberOfDecimal(a.length);
    NumberOfDecimal(b.length);
  }

  /** Equal identity texts come from the same Command Runtime and equal artifacts. */
  lemma ReleaseIdentityIsInjective(runtimeA: string, a: map<Key, ArtifactRecord>, runtimeB: string, b: map<Key, ArtifactRecord>)
    requires IsSha256(runtimeA) && IsSha256(runtimeB) && HasArtifacts(a) && HasArtifacts(b)
    requires JoinOn(ReleaseLines(runtimeA, a), '\n') == JoinOn(ReleaseLines(runtimeB, b), '\n')
    ensures runtimeA == runtimeB && a == b
  {
    hide ValidArtifact, JoinOn, ArtifactsLines;
    var n := |RUNTIME_ARTIFACT_NAMES|;
    var la, lb := ReleaseLines(runtimeA, a), ReleaseLines(runtimeB, b);
    ArtifactsLinesApart(a, b, n);
    ArtifactsLinesApart(b, a, n);
    SchemaIsOneLine();
    ShaIsOneLine(runtimeA);
    ShaIsOneLine(runtimeB);
    JoinIsInjective(la, lb, '\n');
    assert la[1] == runtimeA && lb[1] == runtimeB;
    assert la[2..] == ArtifactsLines(a, n) && lb[2..] == ArtifactsLines(b, n);
    SameArtifacts(a, b);
  }

  lemma ShaIsOneLine(value: string)
    requires IsSha256(value)
    ensures Lacks(value, '\n')
  {
  }

  lemma SameArtifacts(a: map<Key, ArtifactRecord>, b: map<Key, ArtifactRecord>)
    requires HasArtifacts(a) && HasArtifacts(b)
    requires forall i :: 0 <= i < |RUNTIME_ARTIFACT_NAMES| ==> ArtifactOf(a, i) == ArtifactOf(b, i)
    ensures a == b
  {
    forall k | k in a ensures k in b && a[k] == b[k] {
      var i :| 0 <= i < |RUNTIME_ARTIFACT_NAMES| && RUNTIME_ARTIFACT_NAMES[i] == a[k].name;
      assert ArtifactOf(a, i) == ArtifactOf(b, i);
    }
    forall k | k in b ensures k in a {
      var i :| 0 <= i < |RUNTIME_ARTIFACT_NAMES| && RUNTIME_ARTIFACT_NAMES[i] == b[k].name;
      assert ArtifactOf(a, i) == ArtifactOf(b, i);
    }
  }

  lemma ReleaseOrderIsIrrelevant(a: seq<ArtifactRecord>, b: seq<ArtifactRecord>)
    requires multiset(a) == multiset(b)
    ensures Artifacts(a) == Artifacts(b)
  {
    hide ValidArtifact, DistinctKeys;
    CollectedInAnyOrder(ArtifactKey, (r: ArtifactRecord) => ValidArtifact(r), a, b);
  }

  // ---------------------------------------------------------------- the texts, line by line

  /** A decimal has no leading zero unless it is zero. */
  lemma {:induction false} DecimalIsShortest(n: nat)
    ensures Decimal(n)[0] == '0' <==> n == 0
    ensures n == 0 ==> Decimal(n) == "0"
  {
    if n >= 10 { DecimalIsShortest(n / 10); }
  }

  /** The runtime's identity lists the schema and then name, version, path, length and hash of either tool. */
  lemma RuntimeLinesAre(tools: map<Key, ToolRecord>)
    requires HasTools(tools)
    ensures var (bun, pwsh) := (tools[["bun"]], tools[["pwsh"]]);
            RuntimeLines(tools)
            == ["swawkit.proj-command-runtime/v1",
                "bun", bun.version, bun.path, Decimal(bun.length), bun.sha256,
                "pwsh", pwsh.version, pwsh.path, Decimal(pwsh.length), pwsh.sha256]
  {
    hide ValidTool;
    var (bun, pwsh) := (tools[["bun"]], tools[["pwsh"]]);
    assert [bun.name][0] == "bun" && [pwsh.name][0] == "pwsh";
  }

  /** What the identity says of the artifact of this name. */
  ghost function LinesOf(records: map<Key, ArtifactRecord>, name: string): seq<string>
    requires [name] in records
  {
    [name, Decimal(records[[name]].length), records[[name]].sha256]
  }

  /** The release's identity lists the schema, its runtime, and name, length and hash of each artifact. */
  lemma ReleaseLinesAre(commandRuntimeId: string, records: map<Key, ArtifactRecord>)
    requires HasArtifacts(records)
    ensures {["swawkit-proj-dev.exe"], ["swawkit-proj-host.exe"], ["swawkit-proj-module.exe"], ["swawkit-proj.exe"]} <= records.Keys
    ensures ReleaseLines(commandRuntimeId, records)
            == ["swawkit.proj-release-set/v4", commandRuntimeId]
               + (LinesOf(records, "swawkit-proj-dev.exe") + LinesOf(records, "swawkit-proj-host.exe")
                  + LinesOf(records, "swawkit-proj-module.exe") + LinesOf(records, "swawkit-proj.exe"))
  {
    hide ValidArtifact, LinesOf, ArtifactsLines;
    NextArtifact(records, 0);
    NextArtifact(records, 1);
    NextArtifact(records, 2);
    NextArtifact(records, 3);
    NoArtifacts(records);
    assert [] + LinesOf(records, RUNTIME_ARTIFACT_NAMES[0]) == LinesOf(records, RUNTIME_ARTIFACT_NAMES[0]);
  }

  lemma NextArtifact(records: map<Key, ArtifactRecord>, i: nat)
    requires HasArtifacts(records) && i < 4
    ensures [RUNTIME_ARTIFACT_NAMES[i]] in records
    ensures ArtifactsLines(records, i + 1) == ArtifactsLines(records, i) + LinesOf(records, RUNTIME_ARTIFACT_NAMES[i])
  {
    hide ValidArtifact, Decimal;
    OneMoreArtifact(records, i);
    var name := RUNTIME_ARTIFACT_NAMES[i];
    assert name in RUNTIME_ARTIFACT_NAMES && [ArtifactOf(records, i).name][0] == [name][0];
  }

  // ---------------------------------------------------------------- which manifests are accepted

  lemma {:induction false} CollectedSize<T>(key: T -> Key, valid: T -> bool, records: seq<T>)
    requires Collected(key, valid, records).Some?
    ensures |Collected(key, valid, records).value| == |records|
  {
    if records != [] { CollectedSize(key, valid, records[..|records| - 1]); }
  }

  /** A tool of the runtime: its name, a version, a place in the runtime, a length up to 512 MiB and a hash. */
  ghost predicate GoodTool(r: ToolRecord) {
    r.name in {"bun", "pwsh"} && ValidVersion(r.version) && ValidRelativePath(r.path)
    && 1 <= r.length <= 536870912 && IsSha256(r.sha256)
  }

  /** A manifest's tools are accepted exactly when they are two good ones, one of each name. */
  lemma ToolsExactlyWhen(records: seq<ToolRecord>)
    ensures Tools(records).Some? <==>
            |records| == 2 && GoodTool(records[0]) && GoodTool(records[1]) && records[0].name != records[1].name
    ensures Tools(records).Some? ==> forall r :: r in records ==> [r.name] in Tools(records).value && Tools(records).value[[r.name]] == r
  {
    hide ValidTool, GoodTool, Tools;
    if |records| == 2 && GoodTool(records[0]) && GoodTool(records[1]) && records[0].name != records[1].name {
      GoodToolsAccepted(records);
    }
    if Tools(records).Some? { AcceptedToolsGood(records); }
  }

  lemma ToolIsGood(r: ToolRecord)
    ensures ValidTool(r) <==> GoodTool(r)
  {
    hide ValidVersion, ValidRelativePath, IsSha256;
  }

  lemma GoodToolsAccepted(records: seq<ToolRecord>)
    requires |records| == 2 && GoodTool(records[0]) && GoodTool(records[1]) && records[0].name != records[1].name
    ensures Tools(records).Some?
  {
    hide ValidTool, DistinctKeys, Collected;
    ToolIsGood(records[0]);
    ToolIsGood(records[1]);
    NamesDiffer(records);
    CollectedExactlyWhen(ToolKey, (r: ToolRecord) => ValidTool(r), records);
    NamesOfTwo(Collected(ToolKey, (r: ToolRecord) => ValidTool(r), records).value, records);
  }

  lemma AcceptedToolsGood(records: seq<ToolRecord>)
    requires Tools(records).Some?
    ensures |records| == 2 && GoodTool(records[0]) && GoodTool(records[1]) && records[0].name != records[1].name
    ensures forall r :: r in records ==> [r.name] in Tools(records).value && Tools(records).value[[r.name]] == r
  {
    hide ValidTool, GoodTool, DistinctKeys, Collected;
    CollectedExactlyWhen(ToolKey, (r: ToolRecord) => ValidTool(r), records);
    CollectedSize(ToolKey, (r: ToolRecord) => ValidTool(r), records);
    TwoTools(Tools(records).value);
    ToolIsGood(records[0]);
    ToolIsGood(records[1]);
    NamesDiffer(records);
    assert records[0] in records && records[1] in records;
    assert forall r :: r in records ==> ToolKey(r) == [r.name];
  }

  lemma TwoTools(tools: map<Key, ToolRecord>)
    requires tools.Keys == {[TOOL_NAMES[0]], [TOOL_NAMES[1]]}
    ensures |tools| == 2
  {
    assert "bun"[0] != "pwsh"[0] && ["bun"][0] != ["pwsh"][0];
    assert |tools.Keys| == 2 && |tools| == |tools.Keys|;
  }

  lemma NamesDiffer(records: seq<ToolRecord>)
    requires |records| == 2
    ensures DistinctKeys(ToolKey, records) <==> records[0].name != records[1].name
  {
    assert [records[0].name] == [records[1].name] ==> [records[0].name][0] == [records[1].name][0];
  }

  lemma NamesOfTwo(tools: map<Key, ToolRecord>, records: seq<ToolRecord>)
    requires |records| == 2 && Holds(ToolKey, tools, records) && records[0].name != records[1].name
    requires GoodTool(records[0]) && GoodTool(records[1])
    ensures tools.Keys == {["bun"], ["pwsh"]}
  {
    hide ValidVersion, ValidRelativePath, IsSha256;
    assert records[0] in records && records[1] in records;
    assert ToolKey(records[0]) in tools && ToolKey(records[1]) in tools;
    forall k ensures k in tools.Keys <==> k in {["bun"], ["pwsh"]} {
      if k in tools { assert k == ToolKey(tools[k]); }
    }
  }

  ghost predicate GoodArtifact(r: ArtifactRecord) {
    r.name in {"swawkit-proj-dev.exe", "swawkit-proj-host.exe", "swawkit-proj-module.exe", "swawkit-proj.exe"}
    && 1 <= r.length <= 536870912 && IsSha256(r.sha256)
  }

  /** A manifest's artifacts are accepted exactly when they are four good ones of different names. */
  lemma ArtifactsExactlyWhen(records: seq<ArtifactRecord>)
    ensures Artifacts(records).Some? <==>
            && |records| == 4 && (forall r :: r in records ==> GoodArtifact(r))
            && forall i, j :: 0 <= i < j < 4 ==> records[i].name != records[j].name
    ensures Artifacts(records).Some? ==>
              forall r :: r in records ==> [r.name] in Artifacts(records).value && Artifacts(records).value[[r.name]] == r
  {
    hide DistinctKeys, Collected, IsSha256;
    CollectedExactlyWhen(ArtifactKey, (r: ArtifactRecord) => ValidArtifact(r), records);
    ArtifactNamesDiffer(records);
    if Collected(ArtifactKey, (r: ArtifactRecord) => ValidArtifact(r), records).Some? {
      CollectedSize(ArtifactKey, (r: ArtifactRecord) => ValidArtifact(r), records);
    }
  }

  lemma ArtifactNamesDiffer(records: seq<ArtifactRecord>)
    ensures DistinctKeys(ArtifactKey, records) <==> forall i, j :: 0 <= i < j < |records| ==> records[i].name != records[j].name
  {
    forall i, j | 0 <= i < j < |records| ensures ArtifactKey(records[i]) == ArtifactKey(records[j]) <==> records[i].name == records[j].name {
      assert [records[i].name] == [records[j].name] ==> [records[i].name][0] == [records[j].name][0];
    }
  }
}
