/** Splitting text at a separator and joining it again. */
module TextSplit {
  import opened Wrappers

  predicate Lacks(s: string, separator: char) {
    separator !in s
  }

  /** The first separator at or after `from`. */
  function FindChar(s: string, separator: char, from: nat): (index: Option<nat>)
    requires from <= |s| && Lacks(s[..from], separator)
    ensures index.None? ==> Lacks(s, separator)
    ensures index.Some? ==> index.value < |s| && s[index.value] == separator && Lacks(s[..index.value], separator)
    decreases |s| - from
  {
    if from == |s| then assert s[..from] == s; None
    else if s[from] == separator then Some(from)
    else assert s[..from + 1] == s[..from] + [s[from]]; FindChar(s, separator, from + 1)
  }

  /** `str::split`: never empty. */
  function SplitOn(s: string, separator: char): (parts: seq<string>)
    ensures parts != []
    decreases |s|
  {
    match FindChar(s, separator, 0)
    case None => [s]
    case Some(n) => [s[..n]] + SplitOn(s[n + 1..], separator)
  }

  /** `[String]::join`. */
  function JoinOn(parts: seq<string>, separator: char): string {
    if parts == [] then ""
    else if |parts| == 1 then parts[0]
    else parts[0] + [separator] + JoinOn(parts[1..], separator)
  }

  lemma JoinOnCons(head: string, tail: seq<string>, separator: char)
    requires tail != []
    ensures JoinOn([head] + tail, separator) == head + [separator] + JoinOn(tail, separator)
  {
    assert ([head] + tail)[1..] == tail;
  }

  lemma {:induction false} JoinOfSplit(s: string, separator: char)
    ensures JoinOn(SplitOn(s, separator), separator) == s
    decreases |s|
  {
    match FindChar(s, separator, 0)
    case None =>
    case Some(n) =>
      JoinOfSplit(s[n + 1..], separator);
      JoinOnCons(s[..n], SplitOn(s[n + 1..], separator), separator);
      assert s == s[..n] + [separator] + s[n + 1..];
  }

  lemma FoundAt(head: string, separator: char, rest: string)
    requires Lacks(head, separator)
    ensures FindChar(head + [separator] + rest, separator, 0) == Some(|head|)
  {
    var s := head + [separator] + rest;
    assert s[|head|] == separator;
  }

  lemma {:induction false} SplitOfJoin(parts: seq<string>, separator: char)
    requires parts != [] && forall i :: 0 <= i < |parts| ==> Lacks(parts[i], separator)
    ensures SplitOn(JoinOn(parts, separator), separator) == parts
  {
    if |parts| > 1 {
      var rest := JoinOn(parts[1..], separator);
      SplitOfJoin(parts[1..], separator);
      FoundAt(parts[0], separator, rest);
      var s := parts[0] + [separator] + rest;
      assert s[..|parts[0]|] == parts[0] && s[|parts[0]| + 1..] == rest;
    }
  }

  /** Joined lists of parts without the separator tell the parts apart. */
  lemma JoinIsInjective(a: seq<string>, b: seq<string>, separator: char)
    requires a != [] && b != [] && JoinOn(a, separator) == JoinOn(b, separator)
    requires forall i :: 0 <= i < |a| ==> Lacks(a[i], separator)
    requires forall i :: 0 <= i < |b| ==> Lacks(b[i], separator)
    ensures a == b
  {
    hide *;
    SplitOfJoin(a, separator);
    SplitOfJoin(b, separator);
  }
}
