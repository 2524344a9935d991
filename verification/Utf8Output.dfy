/**
 The decoder that turns a process's raw output bytes into valid UTF-8 text, replacing what is
 ill-formed and holding back a sequence that a read may have cut in two.

 Well-formedness follows the UTF8-octets grammar of section 4 of RFC 3629.
 */
module Utf8Output {
  import opened ByteStrings
  import opened Wrappers

  /** U+FFFD REPLACEMENT CHARACTER. */
  const REPLACEMENT: Text := [0xEF, 0xBF, 0xBD]

  // ---------------------------------------------------------------- the grammar

  predicate IsTail(b: Byte) { 0x80 <= b <= 0xBF }

  /** UTF8-3 up to its last byte. */
  predicate ThreeByteLead(first: Byte, second: Byte) {
    || (first == 0xE0 && 0xA0 <= second <= 0xBF)
    || (0xE1 <= first <= 0xEC && IsTail(second))
    || (first == 0xED && 0x80 <= second <= 0x9F)
    || (0xEE <= first <= 0xEF && IsTail(second))
  }

  /** UTF8-4 up to its last two bytes. */
  predicate FourByteLead(first: Byte, second: Byte) {
    || (first == 0xF0 && 0x90 <= second <= 0xBF)
    || (0xF1 <= first <= 0xF3 && IsTail(second))
    || (first == 0xF4 && 0x80 <= second <= 0x8F)
  }

  /** UTF8-char. */
  predicate WellFormed(s: Text) {
    || (|s| == 1 && s[0] <= 0x7F)
    || (|s| == 2 && 0xC2 <= s[0] <= 0xDF && IsTail(s[1]))
    || (|s| == 3 && ThreeByteLead(s[0], s[1]) && IsTail(s[2]))
    || (|s| == 4 && FourByteLead(s[0], s[1]) && IsTail(s[2]) && IsTail(s[3]))
  }

  /** A well-formed text is a run of well-formed characters. */
  predicate ValidUtf8(s: Text)
    decreases |s|
  {
    s == [] || exists n :: 1 <= n <= |s| && WellFormed(s[..n]) && ValidUtf8(s[n..])
  }

  /** `s` can be completed to a well-formed character. */
  ghost predicate Initial(s: Text) {
    exists rest :: WellFormed(s + rest)
  }

  // ---------------------------------------------------------------- one step of validation

  /** What stands at the start of a nonempty text. */
  datatype Step = Good(width: nat) | Bad(length: nat) | Incomplete

  /** The length a first byte announces, 0 when no character starts with it. */
  function Width(first: Byte): nat {
    if first <= 0x7F then 1
    else if 0xC2 <= first <= 0xDF then 2
    else if 0xE0 <= first <= 0xEF then 3
    else if 0xF0 <= first <= 0xF4 then 4
    else 0
  }

  predicate SecondFits(first: Byte, second: Byte) {
    if first == 0xE0 then 0xA0 <= second <= 0xBF
    else if first == 0xED then 0x80 <= second <= 0x9F
    else if first == 0xF0 then 0x90 <= second <= 0xBF
    else if first == 0xF4 then 0x80 <= second <= 0x8F
    else IsTail(second)
  }

  function FirstStep(s: Text): (step: Step)
    requires s != []
    ensures match step
            case Good(n) => 1 <= n <= |s| && n <= 4
            case Bad(n) => 1 <= n <= |s| && n <= 3
            case Incomplete => |s| <= 3
  {
    var width := Width(s[0]);
    if width == 0 then Bad(1)
    else if width == 1 then Good(1)
    else if |s| < 2 then Incomplete
    else if !SecondFits(s[0], s[1]) then Bad(1)
    else if width == 2 then Good(2)
    else if |s| < 3 then Incomplete
    else if !IsTail(s[2]) then Bad(2)
    else if width == 3 then Good(3)
    else if |s| < 4 then Incomplete
    else if !IsTail(s[3]) then Bad(3)
    else Good(4)
  }

  // ---------------------------------------------------------------- std::str::from_utf8

  /** `Utf8Error`: where the valid prefix ends, and how long the invalid sequence is unless input ran out. */
  datatype Validation = Valid | Invalid(validUpTo: nat, errorLength: Option<nat>)

  function FromUtf8(s: Text): (v: Validation)
    ensures v.Invalid? ==> v.validUpTo < |s|
    ensures v.Invalid? && v.errorLength.Some? ==> 1 <= v.errorLength.value <= |s| - v.validUpTo
    decreases |s|
  {
    if s == [] then Valid
    else
      match FirstStep(s)
      case Bad(n) => Invalid(0, Some(n))
      case Incomplete => Invalid(0, None)
      case Good(n) =>
        match FromUtf8(s[n..])
        case Valid => Valid
        case Invalid(validUpTo, errorLength) => Invalid(n + validUpTo, errorLength)
  }

  // ---------------------------------------------------------------- the decoder as a function

  datatype Decoded = Decoded(text: Text, pending: Text)

  /** Reads as far as the input decides, leaving an unfinished character pending. */
  function Scan(s: Text): Decoded
    decreases |s|
  {
    if s == [] then Decoded([], [])
    else
      match FirstStep(s)
      case Good(n) => var rest := Scan(s[n..]); Decoded(s[..n] + rest.text, rest.pending)
      case Bad(n) => var rest := Scan(s[n..]); Decoded(REPLACEMENT + rest.text, rest.pending)
      case Incomplete => Decoded([], s)
  }

  /** `String::from_utf8_lossy`: an unfinished character at the end is one replacement. */
  function Lossy(s: Text): Text {
    var d := Scan(s);
    if d.pending == [] then d.text else d.text + REPLACEMENT
  }

  /** One call of `decode`. */
  function Decode(pending: Text, bytes: Text, eof: bool): Decoded {
    var d := Scan(pending + bytes);
    if eof then Decoded(if d.pending == [] then d.text else d.text + Lossy(d.pending), []) else d
  }

  function Visible(text: Text): Option<Text> {
    if text == [] then None else Some(text)
  }

  /** `text` has already been read. */
  function After(text: Text, d: Decoded): Decoded {
    Decoded(text + d.text, d.pending)
  }

  /** What a validation outcome says about reading `s`. */
  function Resume(s: Text, v: Validation): Decoded
    requires v.Invalid? ==> v.validUpTo <= |s|
    requires v.Invalid? && v.errorLength.Some? ==> v.validUpTo + v.errorLength.value <= |s|
  {
    if v.Valid? then Decoded(s, [])
    else if v.errorLength.None? then Decoded(s[..v.validUpTo], s[v.validUpTo..])
    else After(s[..v.validUpTo] + REPLACEMENT, Scan(s[v.validUpTo + v.errorLength.value..]))
  }

  lemma SliceTwice(s: Text, w: nat, n: nat)
    requires w + n <= |s|
    ensures s[..w] + s[w..][..n] == s[..w + n] && s[w..][n..] == s[w + n..]
    ensures s[w..][..n] == s[w..w + n]
  {
  }

  /** `FromUtf8` splits a text where `Scan` first has to replace or stop. */
  lemma {:induction false} ValidationScans(s: Text)
    ensures Scan(s) == Resume(s, FromUtf8(s))
    decreases |s|
  {
    if s != [] && FirstStep(s).Good? {
      var w := FirstStep(s).width;
      ValidationScans(s[w..]);
      GoodThenResume(s, w, s[w..]);
    }
  }

  /** A character at the start of a text is read as it is. */
  lemma GoodIsRead(s: Text, w: nat)
    requires s != [] && FirstStep(s) == Good(w)
    ensures Scan(s) == After(s[..w], Scan(s[w..]))
    ensures FromUtf8(s) == match FromUtf8(s[w..])
                           case Valid => Valid
                           case Invalid(validUpTo, errorLength) => Invalid(w + validUpTo, errorLength)
  {
    hide FirstStep;
  }

  lemma AfterTwice(a: Text, b: Text, d: Decoded)
    ensures After(a, After(b, d)) == After(a + b, d)
  {
    Associative(a, b, d.text);
  }

  /** Validation goes on to the first error behind a valid start. */
  function Shifted(v: Validation, w: nat): Validation {
    match v
    case Valid => Valid
    case Invalid(validUpTo, errorLength) => Invalid(w + validUpTo, errorLength)
  }

  lemma ResumeShifted(s: Text, w: nat, v: Validation)
    requires w <= |s|
    requires v.Invalid? ==> v.validUpTo <= |s| - w
    requires v.Invalid? && v.errorLength.Some? ==> v.validUpTo + v.errorLength.value <= |s| - w
    ensures After(s[..w], Resume(s[w..], v)) == Resume(s, Shifted(v, w))
  {
    hide Scan, FirstStep, REPLACEMENT;
    if v.Valid? {
      assert s == s[..w] + s[w..];
    } else if v.errorLength == None {
      SliceTwice(s, w, v.validUpTo);
    } else {
      ReplaceShifted(s, w, v.validUpTo, v.errorLength.value);
    }
  }

  lemma ReplaceShifted(s: Text, w: nat, n: nat, length: nat)
    requires w + n + length <= |s|
    ensures s[w..][..n] == s[w..w + n] && s[w..][n + length..] == s[w + n + length..]
    ensures After(s[..w], After(s[w..w + n] + REPLACEMENT, Scan(s[w + n + length..])))
            == After(s[..w + n] + REPLACEMENT, Scan(s[w + n + length..]))
  {
    hide Scan, FirstStep, After, REPLACEMENT;
    AfterTwice(s[..w], s[w..w + n] + REPLACEMENT, Scan(s[w + n + length..]));
    SliceTwice(s, w, n);
    SliceTwice(s, w, n + length);
    Associative(s[..w], s[w..w + n], REPLACEMENT);
  }

  lemma GoodThenResume(s: Text, w: nat, rest: Text)
    requires s != [] && FirstStep(s) == Good(w) && rest == s[w..] && Scan(rest) == Resume(rest, FromUtf8(rest))
    ensures Scan(s) == Resume(s, FromUtf8(s))
  {
    hide FirstStep, Scan, FromUtf8, Resume, After, REPLACEMENT;
    GoodIsRead(s, w);
    ResumeShifted(s, w, FromUtf8(rest));
  }

  /** One turn of the loop in `decode`, with `text` already produced. */
  lemma LoopTurn(text: Text, rest: Text)
    ensures var v := FromUtf8(rest);
            After(text, Scan(rest))
            == if v.Valid? then Decoded(text + rest, [])
               else if v.errorLength.None? then Decoded(text + rest[..v.validUpTo], rest[v.validUpTo..])
               else After(text + rest[..v.validUpTo] + REPLACEMENT, Scan(rest[v.validUpTo + v.errorLength.value..]))
  {
    hide FirstStep, Scan, FromUtf8;
    ValidationScans(rest);
    var v := FromUtf8(rest);
    if v.Invalid? && v.errorLength.Some? {
      var n, length := v.validUpTo, v.errorLength.value;
      Associative(text, rest[..n], REPLACEMENT);
      Associative(text, rest[..n] + REPLACEMENT, Scan(rest[n + length..]).text);
    }
  }

  /** The same, inside the input. */
  lemma TurnAt(text: Text, input: Text, cursor: nat)
    requires cursor <= |input|
    ensures var v, rest := FromUtf8(input[cursor..]), Scan(input[cursor..]);
            match v
            case Valid => After(text, rest) == Decoded(text + input[cursor..], [])
            case Invalid(n, None) => cursor + n <= |input| && After(text, rest) == Decoded(text + input[cursor..cursor + n], input[cursor + n..])
            case Invalid(n, Some(length)) =>
              && cursor + n + length <= |input|
              && After(text, rest) == After(text + input[cursor..cursor + n] + REPLACEMENT, Scan(input[cursor + n + length..]))
  {
    hide FirstStep, Scan, FromUtf8, After;
    LoopTurn(text, input[cursor..]);
    match FromUtf8(input[cursor..])
    case Valid =>
    case Invalid(n, errorLength) =>
      SliceTwice(input, cursor, n);
      if errorLength.Some? { SliceTwice(input, cursor, n + errorLength.value); }
  }

  lemma ScanEnds(text: Text, input: Text)
    ensures After(text, Scan(input[|input|..])) == Decoded(text, [])
  {
  }

  // ---------------------------------------------------------------- the decoder

  class Utf8LossyDecoder {
    var pending: Text

    constructor ()
      ensures pending == []
    {
      pending := [];
    }

    method DecodeBytes(bytes: Text, eof: bool) returns (visible: Option<Text>)
      modifies this
      ensures var d := Decode(old(pending), bytes, eof);
              pending == d.pending && visible == if d.text == [] then None else Some(d.text)
    {
      hide Scan, FromUtf8, Lossy, FirstStep, ValidUtf8, After;
      var input := pending + bytes;
      pending := [];
      var text := [];
      var cursor := 0;
      ghost var scanned := Scan(input);
      ScanStarts(input);
      ScanEnds([], input);
      while cursor < |input|
        invariant cursor <= |input|
        invariant if cursor < |input|
                  then pending == [] && After(text, Scan(input[cursor..])) == scanned
                  else Decoded(text, pending) == scanned
        decreases |input| - cursor
      {
        TurnAt(text, input, cursor);
        match FromUtf8(input[cursor..])
        case Valid =>
          text := text + input[cursor..];
          cursor := |input|;
        case Invalid(validUpTo, errorLength) =>
          var validEnd := cursor + validUpTo;
          text := text + input[cursor..validEnd];
          match errorLength
          case Some(length) =>
            text := text + REPLACEMENT;
            cursor := validEnd + length;
            ScanEnds(text, input);
          case None =>
            pending := pending + input[validEnd..];
            cursor := |input|;
      }
      if eof && pending != [] {
        text := text + Lossy(pending);
        pending := [];
      }
      return Visible(text);
    }
  }

  lemma ScanStarts(input: Text)
    ensures After([], Scan(input[0..])) == Scan(input)
  {
    hide Scan;
    assert input[0..] == input;
  }
}
