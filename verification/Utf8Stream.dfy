/**
 What a stream of reads into the UTF-8 decoder means.

 `Replaced` is the reference: the substitution of maximal subparts recommended in section 3.9
 of the Unicode Standard, stated from the grammar alone.
 */
module Utf8Stream {
  import opened ByteStrings
  import opened Utf8Output

  // ---------------------------------------------------------------- a validation step and the grammar

  /** A step is `Good(n)` exactly when a well-formed character of length `n` stands there. */
  lemma GoodIsWellFormed(s: Text, n: nat)
    requires s != []
    ensures FirstStep(s) == Good(n) <==> 1 <= n <= |s| && WellFormed(s[..n])
  {
  }

  /** A first byte, and a fitting second one, can be completed. */
  lemma Completion(s: Text)
    requires s != [] && FirstStep(s) == Incomplete
    ensures Initial(s)
  {
    var w := Width(s[0]);
    var second: Byte := if s[0] == 0xE0 then 0xA0 else if s[0] == 0xF0 then 0x90 else 0x80;
    var fill: Text := [second, 0x80, 0x80];
    assert WellFormed(s + fill[|s| - 1..w - 1]);
  }

  /** Ill-formed bytes cannot be completed once the decoder has called them bad. */
  lemma NoCompletion(s: Text, n: nat, j: nat)
    requires s != [] && FirstStep(s) == Bad(n) && n < j <= |s|
    ensures !Initial(s[..j])
  {
    forall rest ensures !WellFormed(s[..j] + rest) {
      var c := s[..j] + rest;
      assert c[0] == s[0] && (j > 1 ==> c[1] == s[1]) && (j > 2 ==> c[2] == s[2]) && (j > 3 ==> c[3] == s[3]);
    }
  }

  /**
   Definition D93b: the longest subsequence at an unconvertible offset that starts a well-formed
   sequence, or else one code unit.
   */
  ghost predicate MaximalSubpart(s: Text, k: nat) {
    && 1 <= k <= |s| && (k == 1 || Initial(s[..k]))
    && forall j :: k < j <= |s| ==> !Initial(s[..j])
  }

  lemma BadStart(s: Text)
    requires s != [] && FirstStep(s).Bad? && FirstStep(s).length > 1
    ensures Initial(s[..FirstStep(s).length])
  {
    Completion(s[..FirstStep(s).length]);
  }

  /** Where no character stands, the step spans the maximal subpart; it waits exactly when more input could help. */
  lemma StepIsMaximalSubpart(s: Text)
    requires s != [] && !FirstStep(s).Good?
    ensures MaximalSubpart(s, if FirstStep(s).Bad? then FirstStep(s).length else |s|)
    ensures FirstStep(s) == Incomplete <==> Initial(s)
  {
    assert s[..|s|] == s;
    if FirstStep(s).Bad? {
      var n := FirstStep(s).length;
      forall j | n < j <= |s| ensures !Initial(s[..j]) { NoCompletion(s, n, j); }
      if n > 1 { BadStart(s); }
      if n == |s| {
        BadWhole(s);
      }
    } else {
      Completion(s);
    }
  }

  /** A text that is bad to its last byte is a single byte that starts no character. */
  lemma BadWhole(s: Text)
    requires s != [] && FirstStep(s) == Bad(|s|)
    ensures !Initial(s)
  {
    forall rest ensures !WellFormed(s + rest) {
      assert (s + rest)[0] == s[0];
    }
  }

  ghost predicate CharacterAt(s: Text, n: nat) {
    1 <= n <= |s| && WellFormed(s[..n])
  }

  /** Well-formed characters kept, each maximal subpart of an ill-formed subsequence replaced. */
  ghost function Replaced(s: Text): Text
    decreases |s|
  {
    if s == [] then []
    else if exists n: nat :: CharacterAt(s, n) then
      var n: nat :| CharacterAt(s, n);
      s[..n] + Replaced(s[n..])
    else
      StepWithoutCharacter(s);
      var k: nat :| MaximalSubpart(s, k);
      REPLACEMENT + Replaced(s[k..])
  }

  lemma StepWithoutCharacter(s: Text)
    requires s != [] && !exists n: nat :: CharacterAt(s, n)
    ensures !FirstStep(s).Good? && exists k: nat :: MaximalSubpart(s, k)
  {
    if FirstStep(s).Good? {
      GoodIsWellFormed(s, FirstStep(s).width);
      assert CharacterAt(s, FirstStep(s).width);
    } else {
      StepIsMaximalSubpart(s);
    }
  }

  /** The decoder's one-pass reading is the standard's. */
  lemma {:induction false} LossyIsReplaced(s: Text)
    ensures Lossy(s) == Replaced(s)
    decreases |s|
  {
    if s != [] {
      if n: nat :| CharacterAt(s, n) {
        LossyCharacter(s);
      } else {
        LossySubpart(s);
      }
    }
  }

  lemma LossyCharacter(s: Text)
    requires s != [] && exists n: nat :: CharacterAt(s, n)
    ensures Lossy(s) == Replaced(s)
    decreases |s|, 0
  {
    hide WellFormed, FirstStep;
    var n: nat :| CharacterAt(s, n) && Replaced(s) == s[..n] + Replaced(s[n..]);
    GoodIsWellFormed(s, n);
    LossyIsReplaced(s[n..]);
    LossyStep(s, n, s[..n]);
  }

  /** Reading one step first does not change what is shown. */
  lemma LossyStep(s: Text, n: nat, shown: Text)
    requires s != [] && n <= |s|
    requires (FirstStep(s) == Good(n) && shown == s[..n]) || (FirstStep(s) == Bad(n) && shown == REPLACEMENT)
    ensures Lossy(s) == shown + Lossy(s[n..])
  {
    hide FirstStep;
    Associative(shown, Scan(s[n..]).text, REPLACEMENT);
  }

  lemma MaximalSubpartIsUnique(s: Text, k: nat, m: nat)
    requires MaximalSubpart(s, k) && MaximalSubpart(s, m)
    ensures k == m
  {
  }

  lemma LossySubpart(s: Text)
    requires s != [] && !exists n: nat :: CharacterAt(s, n)
    ensures Lossy(s) == Replaced(s)
    decreases |s|, 0
  {
    hide WellFormed, FirstStep;
    StepWithoutCharacter(s);
    StepIsMaximalSubpart(s);
    var k: nat :| MaximalSubpart(s, k) && Replaced(s) == REPLACEMENT + Replaced(s[k..]);
    MaximalSubpartIsUnique(s, k, if FirstStep(s).Bad? then FirstStep(s).length else |s|);
    if FirstStep(s).Bad? {
      LossyIsReplaced(s[k..]);
      LossyStep(s, k, REPLACEMENT);
    }
  }

  // ---------------------------------------------------------------- cutting the input

  lemma StepIsStable(s: Text, t: Text)
    requires s != [] && FirstStep(s) != Incomplete
    ensures FirstStep(s + t) == FirstStep(s)
  {
  }

  /** Reading on from what is pending is reading the whole. */
  lemma {:induction false} ScanConcat(s: Text, t: Text)
    ensures Scan(s + t) == After(Scan(s).text, Scan(Scan(s).pending + t))
    decreases |s|
  {
    hide FirstStep;
    if s == [] {
      assert [] + t == t;
    } else if FirstStep(s) != Incomplete {
      StepIsStable(s, t);
      var n := if FirstStep(s).Good? then FirstStep(s).width else FirstStep(s).length;
      ScanConcat(s[n..], t);
      ConcatSlices(s, t, n);
      var rest := Scan(s[n..]);
      Associative(if FirstStep(s).Good? then s[..n] else REPLACEMENT, rest.text, Scan(rest.pending + t).text);
    }
  }

  lemma ConcatSlices(s: Text, t: Text, n: nat)
    requires n <= |s|
    ensures (s + t)[n..] == s[n..] + t && (s + t)[..n] == s[..n]
  {
  }

  /** The texts of successive reads, the last one ending the input. */
  function DecodeAll(pending: Text, chunks: seq<Text>, last: Text): Text
    decreases |chunks|
  {
    if chunks == [] then Decode(pending, last, true).text
    else
      var d := Decode(pending, chunks[0], false);
      d.text + DecodeAll(d.pending, chunks[1..], last)
  }

  /** However the input is cut, the text shown is the one-pass reading of all of it. */
  lemma {:induction false} ChunkingIsIrrelevant(pending: Text, chunks: seq<Text>, last: Text)
    ensures DecodeAll(pending, chunks, last) == Lossy(pending + Concat(chunks) + last)
    decreases |chunks|
  {
    if chunks == [] {
      assert pending + [] == pending;
      ScanPending(pending + last);
    } else {
      var d := Decode(pending, chunks[0], false);
      ChunkingIsIrrelevant(d.pending, chunks[1..], last);
      var t := Concat(chunks[1..]) + last;
      Associative(d.pending, Concat(chunks[1..]), last);
      Associative(pending, chunks[0], t);
      Associative(pending, chunks[0], Concat(chunks[1..]));
      Associative(pending + chunks[0], Concat(chunks[1..]), last);
      ScanConcat(pending + chunks[0], t);
    }
  }

  /** What stays pending is the unfinished start of one character, at most three bytes. */
  lemma {:induction false} ScanPending(s: Text)
    ensures var p := Scan(s).pending;
            && |p| <= 3 && |p| <= |s| && p == s[|s| - |p|..]
            && (p != [] ==> Initial(p) && FirstStep(p) == Incomplete)
    decreases |s|
  {
    if s != [] {
      match FirstStep(s)
      case Good(n) => ScanPending(s[n..]);
      case Bad(n) => ScanPending(s[n..]);
      case Incomplete => Completion(s);
    }
  }

  // ---------------------------------------------------------------- validity

  lemma ValidFirst(s: Text)
    requires s != []
    ensures ValidUtf8(s) <==> FirstStep(s).Good? && ValidUtf8(s[FirstStep(s).width..])
  {
    if ValidUtf8(s) {
      var n :| 1 <= n <= |s| && WellFormed(s[..n]) && ValidUtf8(s[n..]);
      GoodIsWellFormed(s, n);
    } else if FirstStep(s).Good? {
      GoodIsWellFormed(s, FirstStep(s).width);
    }
  }

  lemma ValidCharacter(c: Text, rest: Text)
    requires WellFormed(c) && ValidUtf8(rest)
    ensures ValidUtf8(c + rest)
  {
    var s := c + rest;
    assert s[..|c|] == c && s[|c|..] == rest;
  }

  lemma {:induction false} ValidConcat(a: Text, b: Text)
    requires ValidUtf8(a) && ValidUtf8(b)
    ensures ValidUtf8(a + b)
    decreases |a|
  {
    if a == [] {
      assert a + b == b;
    } else {
      hide WellFormed, FirstStep;
      var n :| 1 <= n <= |a| && WellFormed(a[..n]) && ValidUtf8(a[n..]);
      ValidConcat(a[n..], b);
      ValidCharacter(a[..n], a[n..] + b);
      assert a == a[..n] + a[n..];
      Associative(a[..n], a[n..], b);
    }
  }

  lemma {:induction false} ScanIsValid(s: Text)
    ensures ValidUtf8(Scan(s).text)
    decreases |s|
  {
    if s != [] {
      match FirstStep(s)
      case Good(n) =>
        GoodIsWellFormed(s, n);
        ScanIsValid(s[n..]);
        ValidCharacter(s[..n], Scan(s[n..]).text);
      case Bad(n) =>
        ScanIsValid(s[n..]);
        ValidCharacter(REPLACEMENT, Scan(s[n..]).text);
      case Incomplete =>
    }
  }

  lemma {:induction false} ValidScansWhole(s: Text)
    requires ValidUtf8(s)
    ensures Scan(s) == Decoded(s, [])
    decreases |s|
  {
    if s != [] {
      ValidFirst(s);
      var n := FirstStep(s).width;
      ValidScansWhole(s[n..]);
      assert s == s[..n] + s[n..];
    }
  }

  /** The output is always valid, and valid input is exactly what passes unchanged. */
  lemma LossyKeepsExactlyTheValid(s: Text)
    ensures ValidUtf8(Lossy(s))
    ensures Lossy(s) == s <==> ValidUtf8(s)
  {
    ScanIsValid(s);
    ValidCharacter(REPLACEMENT, []);
    assert REPLACEMENT + [] == REPLACEMENT;
    ValidConcat(Scan(s).text, REPLACEMENT);
    if ValidUtf8(s) { ValidScansWhole(s); }
  }

  // ---------------------------------------------------------------- the replacement character

  /** The character number that a well-formed sequence encodes, by section 3 of RFC 3629. */
  ghost function CharacterNumber(s: Text): nat
    requires WellFormed(s)
  {
    if |s| == 1 then s[0]
    else if |s| == 2 then (s[0] as int - 0xC0) * 64 + (s[1] as int - 0x80)
    else if |s| == 3 then (s[0] as int - 0xE0) * 4096 + (s[1] as int - 0x80) * 64 + (s[2] as int - 0x80)
    else (s[0] as int - 0xF0) * 262144 + (s[1] as int - 0x80) * 4096 + (s[2] as int - 0x80) * 64 + (s[3] as int - 0x80)
  }

  /** What replaces an ill-formed subsequence is the encoding of U+FFFD, and of no other character. */
  lemma ReplacementIsFFFD(s: Text)
    requires WellFormed(s)
    ensures CharacterNumber(s) == 0xFFFD <==> s == REPLACEMENT
  {
    if CharacterNumber(s) == 0xFFFD {
      assert |s| == 3 && s[0] == 0xEF && s[1] == 0xBF && s[2] == 0xBD;
    }
  }
}
