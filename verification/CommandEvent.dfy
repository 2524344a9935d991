/**
 The streaming decoder that separates progress frames from ordinary command output.

 Text is its UTF-8 bytes.  JSON decoding is a parameter: every statement below holds for
 every parser `parse` and every progress type `P`.
 */
module CommandEvent {
  import opened ByteStrings
  import opened Wrappers

  const NEWLINE: Byte := 10
  const CARRIAGE_RETURN: Byte := 13

  /** The record separator 0x1e followed by "swawkit-event-v1 ". */
  const FRAME_PREFIX: Text :=
    [0x1e, 115, 119, 97, 119, 107, 105, 116, 45, 101, 118, 101, 110, 116, 45, 118, 49, 32]

  const PREFIX_LENGTH: nat := 18

  const MAX_FRAME_BYTES: nat := 16 * 1024

  datatype Event<+P> = Output(text: Text) | Progress(progress: P)

  // ---------------------------------------------------------------- searching

  /** The frame prefix, from its byte `k` on, continues `s` at `i + k`. */
  predicate MatchesPrefix(s: Text, i: nat, k: nat)
    requires k <= PREFIX_LENGTH && i + PREFIX_LENGTH <= |s|
    decreases PREFIX_LENGTH - k
  {
    k == PREFIX_LENGTH || (s[i + k] == FRAME_PREFIX[k] && MatchesPrefix(s, i, k + 1))
  }

  /** The frame prefix occurs in `s` at position `i`. */
  predicate PrefixAt(s: Text, i: nat) {
    i + PREFIX_LENGTH <= |s| && MatchesPrefix(s, i, 0)
  }

  lemma {:induction false} MatchesBytes(s: Text, i: nat, k: nat)
    requires k <= PREFIX_LENGTH && i + PREFIX_LENGTH <= |s|
    ensures MatchesPrefix(s, i, k) <==> forall j :: k <= j < PREFIX_LENGTH ==> s[i + j] == FRAME_PREFIX[j]
    decreases PREFIX_LENGTH - k
  {
    if k < PREFIX_LENGTH {
      MatchesBytes(s, i, k + 1);
    }
  }

  lemma PrefixBytes(s: Text, i: nat)
    ensures PrefixAt(s, i) <==>
            i + PREFIX_LENGTH <= |s| && forall j :: 0 <= j < PREFIX_LENGTH ==> s[i + j] == FRAME_PREFIX[j]
  {
    if i + PREFIX_LENGTH <= |s| { MatchesBytes(s, i, 0); }
  }

  lemma PrefixAtSuffix(s: Text, i: nat, j: nat)
    requires i <= |s|
    ensures PrefixAt(s[i..], j) <==> PrefixAt(s, i + j)
  {
    PrefixBytes(s[i..], j);
    PrefixBytes(s, i + j);
  }

  lemma PrefixAtTake(s: Text, n: nat, i: nat)
    requires n <= |s| && i + PREFIX_LENGTH <= n
    ensures PrefixAt(s[..n], i) <==> PrefixAt(s, i)
  {
    PrefixBytes(s[..n], i);
    PrefixBytes(s, i);
  }

  /** `str::find` with the frame prefix: the first occurrence at or after `from`. */
  function FindPrefixFrom(s: Text, from: nat): (index: Option<nat>)
    requires from <= |s|
    ensures index.None? ==> forall i :: from <= i ==> !PrefixAt(s, i)
    ensures index.Some? ==> from <= index.value && PrefixAt(s, index.value)
    ensures index.Some? ==> forall i :: from <= i < index.value ==> !PrefixAt(s, i)
    decreases |s| - from
  {
    if PrefixAt(s, from) then Some(from)
    else if from == |s| then None
    else FindPrefixFrom(s, from + 1)
  }

  function FindPrefix(s: Text): (index: Option<nat>)
    ensures index.None? ==> forall i: nat :: !PrefixAt(s, i)
    ensures index.Some? ==> PrefixAt(s, index.value) && forall i :: 0 <= i < index.value ==> !PrefixAt(s, i)
  {
    FindPrefixFrom(s, 0)
  }

  function FindNewlineFrom(s: Text, from: nat): (index: Option<nat>)
    requires from <= |s|
    requires forall i :: 0 <= i < from ==> s[i] != NEWLINE
    ensures index.None? ==> NEWLINE !in s
    ensures index.Some? ==> index.value < |s| && s[index.value] == NEWLINE
    ensures index.Some? ==> forall i :: 0 <= i < index.value ==> s[i] != NEWLINE
    decreases |s| - from
  {
    if from == |s| then None
    else if s[from] == NEWLINE then Some(from)
    else FindNewlineFrom(s, from + 1)
  }

  /** `str::find` with the newline pattern. */
  function FindNewline(s: Text): (index: Option<nat>)
    ensures index.None? ==> NEWLINE !in s
    ensures index.Some? ==> index.value < |s| && s[index.value] == NEWLINE
    ensures index.Some? ==> forall i :: 0 <= i < index.value ==> s[i] != NEWLINE
  {
    FindNewlineFrom(s, 0)
  }

  predicate EndsWith(s: Text, t: Text) {
    |t| <= |s| && s[|s| - |t|..] == t
  }

  /** The longest proper prefix of the frame prefix, at most `length` long, that ends `s`. */
  function LongestHeldBack(s: Text, length: nat): (n: nat)
    requires length <= |s| && length < PREFIX_LENGTH
    ensures n <= length && EndsWith(s, FRAME_PREFIX[..n])
    ensures forall k :: n < k <= length ==> !EndsWith(s, FRAME_PREFIX[..k])
  {
    if length == 0 || EndsWith(s, FRAME_PREFIX[..length]) then length
    else LongestHeldBack(s, length - 1)
  }

  function MatchingPrefixSuffix(s: Text): (n: nat)
    ensures n <= |s| && n < PREFIX_LENGTH && EndsWith(s, FRAME_PREFIX[..n])
  {
    LongestHeldBack(s, if |s| < PREFIX_LENGTH - 1 then |s| else PREFIX_LENGTH - 1)
  }

  lemma MatchingPrefixSuffixIsLongest(s: Text)
    ensures forall k :: MatchingPrefixSuffix(s) < k <= |s| && k < PREFIX_LENGTH ==> !EndsWith(s, FRAME_PREFIX[..k])
  {
  }

  // ---------------------------------------------------------------- one record

  function TrimLineEnd(s: Text): Text {
    if s != [] && (s[|s| - 1] == NEWLINE || s[|s| - 1] == CARRIAGE_RETURN)
    then TrimLineEnd(s[..|s| - 1])
    else s
  }

  /** The bytes handed to the JSON parser for a record. */
  function Payload(record: Text): Text
    requires PrefixAt(record, 0)
  {
    TrimLineEnd(record[PREFIX_LENGTH..])
  }

  function RecordEvent<P>(parse: Text -> Option<P>, record: Text): Event<P>
    requires PrefixAt(record, 0)
  {
    if |record| > MAX_FRAME_BYTES then Output(record)
    else match parse(Payload(record))
         case Some(progress) => Progress(progress)
         case None => Output(record)
  }

  /** The frame prefix holds no newline, so a record found at its start keeps all of it. */
  lemma PrefixHasNoNewline(s: Text, n: nat)
    requires PrefixAt(s, 0) && n < |s| && s[n] == NEWLINE
    ensures n >= PREFIX_LENGTH && PrefixAt(s[..n + 1], 0)
  {
    PrefixBytes(s, 0);
    if n < PREFIX_LENGTH {
      assert s[0 + n] == FRAME_PREFIX[n];
    }
    PrefixAtTake(s, n + 1, 0);
  }

  // ---------------------------------------------------------------- the drain loop as a function

  /** One turn of the drain loop: nothing to say, or an event, what it leaves, and whether to go on. */
  datatype Turn<+P> = Quiet | Emit(event: Event<P>, rest: Text, more: bool)

  function NextTurn<P>(parse: Text -> Option<P>, pending: Text, eof: bool): (turn: Turn<P>)
    ensures turn.Emit? ==> |turn.rest| < |pending|
  {
    match FindPrefix(pending)
    case None =>
      var retained := if eof then 0 else MatchingPrefixSuffix(pending);
      var outputLength := |pending| - retained;
      if outputLength > 0 then Emit(Output(pending[..outputLength]), pending[outputLength..], false) else Quiet
    case Some(prefixIndex) =>
      if prefixIndex > 0 then Emit(Output(pending[..prefixIndex]), pending[prefixIndex..], true)
      else
        match FindNewline(pending)
        case None =>
          if eof || |pending| > MAX_FRAME_BYTES then Emit(Output(pending), [], false) else Quiet
        case Some(newlineIndex) =>
          PrefixHasNoNewline(pending, newlineIndex);
          Emit(RecordEvent(parse, pending[..newlineIndex + 1]), pending[newlineIndex + 1..], true)
  }

  datatype Drained<+P> = Drained(events: seq<Event<P>>, pending: Text)

  function Drain<P>(parse: Text -> Option<P>, pending: Text, eof: bool): Drained<P>
    decreases |pending|
  {
    match NextTurn(parse, pending, eof)
    case Quiet => Drained([], pending)
    case Emit(event, rest, more) =>
      if more then
        var later := Drain(parse, rest, eof);
        Drained([event] + later.events, later.pending)
      else Drained([event], rest)
  }

  // ---------------------------------------------------------------- what a frame is read as

  /** Trimming takes a run of line-end bytes off and stops at the first other byte from the end. */
  lemma {:induction false} TrimmedIs(json: Text, lineEnd: Text)
    requires json == [] || (json[|json| - 1] != NEWLINE && json[|json| - 1] != CARRIAGE_RETURN)
    requires forall i :: 0 <= i < |lineEnd| ==> lineEnd[i] == NEWLINE || lineEnd[i] == CARRIAGE_RETURN
    ensures TrimLineEnd(json + lineEnd) == json
    decreases |lineEnd|
  {
    if lineEnd == [] {
      assert json + lineEnd == json;
    } else {
      var shorter := lineEnd[..|lineEnd| - 1];
      assert (json + lineEnd)[..|json + lineEnd| - 1] == json + shorter;
      assert (json + lineEnd)[|json + lineEnd| - 1] == lineEnd[|lineEnd| - 1];
      TrimmedIs(json, shorter);
    }
  }

  /** The text of a frame on a line of its own: `json` behind the prefix, carriage returns, a newline. */
  function FrameLine(json: Text, crs: nat): Text {
    FRAME_PREFIX + json + seq(crs, _ => CARRIAGE_RETURN) + [NEWLINE]
  }

  lemma StartsAtOnce(text: Text)
    requires PrefixAt(text, 0)
    ensures FindPrefix(text) == Some(0)
  {
  }

  lemma FirstNewline(before: Text, after: Text)
    requires NEWLINE !in before
    ensures FindNewline(before + [NEWLINE] + after) == Some(|before|)
  {
    var text := before + [NEWLINE] + after;
    assert text[|before|] == NEWLINE;
    forall i | 0 <= i < |before| ensures text[i] != NEWLINE { assert text[i] == before[i]; }
  }

  lemma PrefixStarts(rest: Text)
    ensures PrefixAt(FRAME_PREFIX + rest, 0)
  {
    PrefixBytes(FRAME_PREFIX + rest, 0);
  }

  lemma FrameLineStarts(json: Text, crs: nat, after: Text)
    requires NEWLINE !in json
    ensures PrefixAt(FrameLine(json, crs), 0)
    ensures FindPrefix(FrameLine(json, crs) + after) == Some(0)
    ensures FindNewline(FrameLine(json, crs) + after) == Some(|FrameLine(json, crs)| - 1)
  {
    var rest := json + seq(crs, _ => CARRIAGE_RETURN);
    assert FrameLine(json, crs) == FRAME_PREFIX + (rest + [NEWLINE]);
    assert FrameLine(json, crs) + after == FRAME_PREFIX + (rest + [NEWLINE] + after);
    assert FrameLine(json, crs) + after == (FRAME_PREFIX + rest) + [NEWLINE] + after;
    PrefixStarts(rest + [NEWLINE]);
    PrefixStarts(rest + [NEWLINE] + after);
    StartsAtOnce(FrameLine(json, crs) + after);
    FirstNewline(FRAME_PREFIX + rest, after);
  }

  lemma RecordIsJson<P>(parse: Text -> Option<P>, json: Text, crs: nat)
    requires NEWLINE !in json && (json == [] || json[|json| - 1] != CARRIAGE_RETURN)
    requires PrefixAt(FrameLine(json, crs), 0)
    ensures RecordEvent(parse, FrameLine(json, crs)) ==
            if |FrameLine(json, crs)| <= MAX_FRAME_BYTES && parse(json).Some?
            then Progress(parse(json).value) else Output(FrameLine(json, crs))
  {
    var line := FrameLine(json, crs);
    var lineEnd := seq(crs, _ => CARRIAGE_RETURN) + [NEWLINE];
    assert line[PREFIX_LENGTH..] == json + lineEnd;
    TrimmedIs(json, lineEnd);
  }

  /**
   A frame at the start of what is pending is read as the progress its JSON stands for.  The parser is
   handed the JSON and nothing of the prefix or the line end, whatever follows; a frame it refuses, or
   one beyond the cap, is shown as the ordinary text it is.
   */
  lemma FrameIsDelivered<P>(parse: Text -> Option<P>, json: Text, crs: nat, after: Text, eof: bool)
    requires NEWLINE !in json && (json == [] || json[|json| - 1] != CARRIAGE_RETURN)
    ensures var line := FRAME_PREFIX + json + seq(crs, _ => CARRIAGE_RETURN) + [NEWLINE];
            var event := if |line| <= MAX_FRAME_BYTES && parse(json).Some?
                         then Progress(parse(json).value) else Output(line);
            Drain(parse, line + after, eof)
            == Drained([event] + Drain(parse, after, eof).events, Drain(parse, after, eof).pending)
  {
    var line := FrameLine(json, crs);
    FrameLineStarts(json, crs, after);
    RecordIsJson(parse, json, crs);
    assert (line + after)[..|line|] == line && (line + after)[|line|..] == after;
  }

  lemma NothingToDrain<P>(parse: Text -> Option<P>)
    ensures Drain(parse, [], false) == Drained([], [])
  {
    assert !PrefixAt([], 0);
  }

  /** A frame within the cap that ends in a newline, pushed by itself, is one event and leaves nothing. */
  lemma NewlineFrame<P>(parse: Text -> Option<P>, json: Text)
    requires NEWLINE !in json && (json == [] || json[|json| - 1] != CARRIAGE_RETURN)
    requires |FRAME_PREFIX + json + [NEWLINE]| <= MAX_FRAME_BYTES
    ensures Drain(parse, FRAME_PREFIX + json + [NEWLINE], false)
            == Drained([match parse(json)
                        case Some(progress) => Progress(progress)
                        case None => Output(FRAME_PREFIX + json + [NEWLINE])], [])
  {
    hide Drain, FRAME_PREFIX;
    NothingToDrain(parse);
    var line := FRAME_PREFIX + json + seq(0, _ => CARRIAGE_RETURN) + [NEWLINE];
    assert line == FRAME_PREFIX + json + [NEWLINE] && line + [] == line;
    FrameIsDelivered(parse, json, 0, [], false);
  }

  /** The same with a carriage return before the newline. */
  lemma CarriageReturnFrame<P>(parse: Text -> Option<P>, json: Text)
    requires NEWLINE !in json && (json == [] || json[|json| - 1] != CARRIAGE_RETURN)
    requires |FRAME_PREFIX + json + [CARRIAGE_RETURN, NEWLINE]| <= MAX_FRAME_BYTES
    ensures Drain(parse, FRAME_PREFIX + json + [CARRIAGE_RETURN, NEWLINE], false)
            == Drained([match parse(json)
                        case Some(progress) => Progress(progress)
                        case None => Output(FRAME_PREFIX + json + [CARRIAGE_RETURN, NEWLINE])], [])
  {
    hide Drain, FRAME_PREFIX;
    NothingToDrain(parse);
    var line := FRAME_PREFIX + json + seq(1, _ => CARRIAGE_RETURN) + [NEWLINE];
    assert line == FRAME_PREFIX + json + [CARRIAGE_RETURN, NEWLINE] && line + [] == line;
    FrameIsDelivered(parse, json, 1, [], false);
  }

  // ---------------------------------------------------------------- the decoder

  class CommandEventFrameDecoder<P> {
    const parse: Text -> Option<P>
    var pending: Text

    constructor (parse: Text -> Option<P>)
      ensures this.parse == parse && pending == []
    {
      this.parse := parse;
      pending := [];
    }

    method Push(text: Text) returns (events: seq<Event<P>>)
      modifies this
      ensures Drained(events, pending) == Drain(parse, old(pending) + text, false)
    {
      if text != [] {
        pending := pending + text;
      }
      assert pending == old(pending) + text;
      events := DrainPending(false);
    }

    method Finish() returns (events: seq<Event<P>>)
      modifies this
      ensures Drained(events, pending) == Drain(parse, old(pending), true)
    {
      events := DrainPending(true);
    }

    method DrainPending(eof: bool) returns (events: seq<Event<P>>)
      modifies this
      ensures Drained(events, pending) == Drain(parse, old(pending), eof)
    {
      ghost var drained := Drain(parse, pending, eof);
      events := [];
      var more := true;
      while more
        invariant if more
                  then drained.events == events + Drain(parse, pending, eof).events
                       && drained.pending == Drain(parse, pending, eof).pending
                  else drained == Drained(events, pending)
        decreases more, |pending|
      {
        ghost var done := events;
        var event;
        event, more := TakeTurn(eof);
        if event.Some? {
          events := events + [event.value];
        }
        assert more ==> forall later :: done + ([event.value] + later) == events + later;
      }
    }

    /** One turn of the loop in `drain`. */
    method TakeTurn(eof: bool) returns (event: Option<Event<P>>, more: bool)
      modifies this
      ensures match NextTurn(parse, old(pending), eof)
              case Quiet => event == None && !more && pending == old(pending)
              case Emit(e, rest, m) => event == Some(e) && more == m && pending == rest
    {
      var prefixIndex := FindPrefix(pending);
      if prefixIndex.None? {
        var retained := if eof then 0 else MatchingPrefixSuffix(pending);
        var outputLength := |pending| - retained;
        if outputLength == 0 { return None, false; }
        event := Some(Output(pending[..outputLength]));
        pending := pending[outputLength..];
        return event, false;
      }
      if prefixIndex.value > 0 {
        event := Some(Output(pending[..prefixIndex.value]));
        pending := pending[prefixIndex.value..];
        return event, true;
      }
      var newlineIndex := FindNewline(pending);
      if newlineIndex.None? {
        if !eof && |pending| <= MAX_FRAME_BYTES { return None, false; }
        event := Some(Output(pending));
        pending := [];
        return event, false;
      }
      PrefixHasNoNewline(pending, newlineIndex.value);
      var record := pending[..newlineIndex.value + 1];
      pending := pending[newlineIndex.value + 1..];
      return Some(RecordEvent(parse, record)), true;
    }
  }
}
