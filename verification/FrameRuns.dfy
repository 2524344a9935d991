/**
 The exact reading of a stream of pushes, and the readings that different runs of pushes can yield.

 Where a push ends matters only inside an over-long record: the first push that ends beyond the cap decides.
 If it ends inside the record, the decoder gives up there and reads on afresh.  Places in a text are counted
 by the bytes that are still to come.
 */
module FrameRuns {
  import opened ByteStrings
  import opened CommandEvent
  import opened FrameScan
  import opened FrameStream
  import opened OutputMerging
  import opened Wrappers
  import FrameConservation

  // ---------------------------------------------------------------- how a record ends

  /** What becomes of a line: shown as it is, or its last `length` bytes are accepted as a frame. */
  datatype Ending<+P> = Plain | Accepted(length: nat, progress: P)

  /** What is still to come after the first push that leaves fewer than `bound` bytes to come. */
  function RestAfter(chunks: seq<Text>, bound: nat): (rest: nat)
    ensures bound > 0 ==> rest < bound
  {
    if chunks == [] then 0
    else if |Concat(chunks[1..])| < bound then |Concat(chunks[1..])|
    else RestAfter(chunks[1..], bound)
  }

  /** A record within the cap. */
  function RecordEnding<P>(parse: Text -> Option<P>, record: Text): Ending<P>
    requires PrefixAt(record, 0)
  {
    match RecordEvent(parse, record)
    case Progress(progress) => Accepted(|record|, progress)
    case Output(_) => Plain
  }

  function Tail(s: Text, length: nat): (tail: Text)
    requires length <= |s|
    ensures |tail| == length
  {
    s[|s| - length..]
  }

  /** The record that starts at the first frame prefix of a line. */
  function FirstRecordOf(line: Text): (record: Option<Text>)
    ensures record.Some? ==> PrefixAt(record.value, 0) && |record.value| <= |line|
  {
    match FindPrefix(line)
    case None => None
    case Some(q) =>
      PrefixAtSuffix(line, q, 0);
      Some(line[q..])
  }

  /** How a line ends when reading starts afresh at it, with `after` bytes behind it. */
  function LineEnding<P>(parse: Text -> Option<P>, line: Text, after: nat, chunks: seq<Text>): (ending: Ending<P>)
    ensures ending.Accepted? ==> 0 < ending.length <= |line|
    decreases |line|
  {
    match FirstRecordOf(line)
    case None => Plain
    case Some(record) =>
      if |record| <= MAX_FRAME_BYTES then RecordEnding(parse, record)
      else
        var rest := RestAfter(chunks, |record| + after - MAX_FRAME_BYTES);
        if rest <= after then Plain
        else LineEnding(parse, Tail(line, rest - after), after, chunks)
  }

  function LineAtoms<P>(line: Text, ending: Ending<P>): seq<Atom<P>>
    requires ending.Accepted? ==> ending.length <= |line|
  {
    match ending
    case Plain => Bytes(line)
    case Accepted(length, progress) => Bytes(line[..|line| - length]) + [Reported(progress)]
  }

  /** The reading of what is still to come, by a run that ends its pushes where `chunks` end. */
  function Reading<P>(parse: Text -> Option<P>, s: Text, chunks: seq<Text>): seq<Atom<P>>
    decreases |s|
  {
    if s == [] then []
    else if PrefixAt(s, 0) then
      match FindNewline(s)
      case None => Bytes(s)
      case Some(n) =>
        LineAtoms(s[..n + 1], LineEnding(parse, s[..n + 1], |s| - n - 1, chunks)) + Reading(parse, s[n + 1..], chunks)
    else [Shown(s[0])] + Reading(parse, s[1..], chunks)
  }

  // ---------------------------------------------------------------- reading on

  lemma ReadingByte<P>(parse: Text -> Option<P>, s: Text, chunks: seq<Text>)
    requires s != [] && !PrefixAt(s, 0)
    ensures Reading(parse, s, chunks) == [Shown(s[0])] + Reading(parse, s[1..], chunks)
  {
  }

  lemma ReadingAtLine<P>(parse: Text -> Option<P>, s: Text, n: nat, chunks: seq<Text>)
    requires PrefixAt(s, 0) && FindNewline(s) == Some(n)
    ensures Reading(parse, s, chunks)
            == LineAtoms(s[..n + 1], LineEnding(parse, s[..n + 1], |s| - n - 1, chunks)) + Reading(parse, s[n + 1..], chunks)
  {
    hide MatchesPrefix, LineAtoms, LineEnding;
  }

  lemma {:induction false} ReadingSkip<P>(parse: Text -> Option<P>, s: Text, m: nat, chunks: seq<Text>)
    requires m <= |s| && forall i :: 0 <= i < m ==> !PrefixAt(s, i)
    ensures Reading(parse, s, chunks) == Bytes(s[..m]) + Reading(parse, s[m..], chunks)
    decreases m
  {
    hide Reading, PrefixAt, Bytes;
    if m == 0 {
      assert s[0..] == s;
      NoBytes(s[..0], Reading(parse, s, chunks));
    } else {
      forall i | 0 <= i < m - 1 ensures !PrefixAt(s[1..], i) { PrefixAtSuffix(s, 1, i); }
      ReadingSkip(parse, s[1..], m - 1, chunks);
      ReadingByte(parse, s, chunks);
      assert s[1..][m - 1..] == s[m..];
      BytesFirst(s, m, Reading(parse, s[m..], chunks));
    }
  }

  lemma NothingIsRead<P>(parse: Text -> Option<P>, chunks: seq<Text>)
    ensures Reading(parse, [], chunks) == []
  {
  }

  lemma ReadingUnended<P>(parse: Text -> Option<P>, s: Text, chunks: seq<Text>)
    requires PrefixAt(s, 0) && NEWLINE !in s
    ensures Reading(parse, s, chunks) == Bytes(s)
  {
    hide MatchesPrefix, Bytes, LineAtoms, LineEnding;
  }

  lemma ReadingWithoutNewline<P>(parse: Text -> Option<P>, s: Text, chunks: seq<Text>)
    requires NEWLINE !in s
    ensures Reading(parse, s, chunks) == Bytes(s)
  {
    hide MatchesPrefix, Reading, Bytes;
    match FindPrefix(s)
    case None =>
      ReadingSkip(parse, s, |s|, chunks);
      assert s[..|s|] == s && s[|s|..] == [];
      NothingIsRead(parse, chunks);
    case Some(i) =>
      ReadingSkip(parse, s, i, chunks);
      PrefixAtSuffix(s, i, 0);
      var tail := s[i..];
      ReadingUnended(parse, tail, chunks);
      assert s == s[..i] + tail;
      BytesConcat<P>(s[..i], tail);
  }

  lemma ReadingRecord<P>(parse: Text -> Option<P>, record: Text, u: Text, chunks: seq<Text>)
    requires Line(record) && PrefixAt(record, 0)
    ensures Reading(parse, record + u, chunks)
            == LineAtoms(record, LineEnding(parse, record, |u|, chunks)) + Reading(parse, u, chunks)
  {
    hide LineEnding, LineAtoms;
    PrefixWithin(record, u, 0);
    RecordFound(record, u);
    assert (record + u)[..|record|] == record && (record + u)[|record|..] == u;
  }

  lemma LongEnding<P>(parse: Text -> Option<P>, line: Text, record: Text, after: nat, chunks: seq<Text>)
    requires FirstRecordOf(line) == Some(record) && |record| > MAX_FRAME_BYTES
    ensures var rest := RestAfter(chunks, |record| + after - MAX_FRAME_BYTES);
            && rest < |record| + after - MAX_FRAME_BYTES
            && LineEnding(parse, line, after, chunks)
               == if rest <= after then Plain else LineEnding(parse, Tail(line, rest - after), after, chunks)
  {
    hide FirstRecordOf, RecordEnding, RestAfter, Tail, PrefixAt;
  }

  /** A line without an over-long record. */
  lemma PlainEnding<P>(parse: Text -> Option<P>, line: Text, after: nat, chunks: seq<Text>)
    requires FirstRecordOf(line).Some? ==> |FirstRecordOf(line).value| <= MAX_FRAME_BYTES
    ensures LineEnding(parse, line, after, chunks)
            == match FirstRecordOf(line) case None => Plain case Some(record) => RecordEnding(parse, record)
  {
    hide FirstRecordOf, RecordEnding, RestAfter, Tail;
  }

  lemma FirstRecordAt(line: Text, q: nat)
    requires FindPrefix(line) == Some(q)
    ensures FirstRecordOf(line) == Some(line[q..]) && FirstRecordOf(line[q..]) == Some(line[q..])
  {
    PrefixAtSuffix(line, q, 0);
    assert line[q..][0..] == line[q..];
  }

  /** What stands before the first record changes nothing. */
  lemma EndingOfRecord<P>(parse: Text -> Option<P>, line: Text, q: nat, after: nat, chunks: seq<Text>)
    requires FindPrefix(line) == Some(q)
    ensures LineEnding(parse, line, after, chunks) == LineEnding(parse, line[q..], after, chunks)
    ensures LineAtoms(line, LineEnding(parse, line, after, chunks))
            == Bytes(line[..q]) + LineAtoms(line[q..], LineEnding(parse, line[q..], after, chunks))
  {
    hide FindPrefix, RecordEnding, Bytes, LineAtoms;
    var record := line[q..];
    FirstRecordAt(line, q);
    SameRecord(parse, line, record, after, chunks);
    AtomsBehind(line, q, LineEnding(parse, record, after, chunks));
  }

  lemma SameLongRecord<P>(parse: Text -> Option<P>, line: Text, record: Text, after: nat, chunks: seq<Text>)
    requires FirstRecordOf(line) == Some(record) && FirstRecordOf(record) == Some(record)
    requires MAX_FRAME_BYTES < |record| <= |line| && record == Tail(line, |record|)
    ensures LineEnding(parse, line, after, chunks) == LineEnding(parse, record, after, chunks)
  {
    hide FirstRecordOf, RestAfter, PrefixAt, LineEnding, Tail, Concat;
    LongEnding(parse, line, record, after, chunks);
    LongEnding(parse, record, record, after, chunks);
    var rest := RestAfter(chunks, |record| + after - MAX_FRAME_BYTES);
    if rest > after { TailOfTail(line, |record|, rest - after); }
  }

  lemma SameRecord<P>(parse: Text -> Option<P>, line: Text, record: Text, after: nat, chunks: seq<Text>)
    requires FirstRecordOf(line) == Some(record) && FirstRecordOf(record) == Some(record)
    requires |record| <= |line| && record == Tail(line, |record|)
    ensures LineEnding(parse, line, after, chunks) == LineEnding(parse, record, after, chunks)
  {
    hide FirstRecordOf, RecordEnding, RestAfter, PrefixAt, LineEnding, Tail;
    if |record| > MAX_FRAME_BYTES {
      SameLongRecord(parse, line, record, after, chunks);
    } else {
      PlainEnding(parse, line, after, chunks);
      PlainEnding(parse, record, after, chunks);
    }
  }

  lemma TailOfTail(s: Text, length: nat, less: nat)
    requires less <= length <= |s|
    ensures Tail(Tail(s, length), less) == Tail(s, less)
  {
  }

  lemma AtomsBehind<P>(line: Text, q: nat, ending: Ending<P>)
    requires q <= |line| && (ending.Accepted? ==> ending.length <= |line| - q)
    ensures LineAtoms(line, ending) == Bytes(line[..q]) + LineAtoms(line[q..], ending)
  {
    hide Bytes;
    match ending
    case Plain =>
      assert line == line[..q] + line[q..];
      BytesConcat<P>(line[..q], line[q..]);
    case Accepted(length, progress) =>
      var k := |line| - length;
      assert line[q..][..k - q] == line[q..k] && line[..k] == line[..q] + line[q..k];
      BytesConcat<P>(line[..q], line[q..k]);
      Associative(Bytes<P>(line[..q]), Bytes<P>(line[q..k]), [Reported(progress)]);
  }

  lemma ReadingLine<P>(parse: Text -> Option<P>, line: Text, u: Text, chunks: seq<Text>)
    requires Line(line)
    ensures Reading(parse, line + u, chunks)
            == LineAtoms(line, LineEnding(parse, line, |u|, chunks)) + Reading(parse, u, chunks)
  {
    hide Reading, MatchesPrefix, Bytes;
    match FindPrefix(line)
    case None =>
      FirstPrefixInLine(line, u, |line|);
      ReadingSkip(parse, line + u, |line|, chunks);
      assert (line + u)[..|line|] == line && (line + u)[|line|..] == u;
    case Some(q) =>
      var record := line[q..];
      FirstPrefixInLine(line, u, q);
      ReadingSkip(parse, line + u, q, chunks);
      SliceConcat(line, u, q);
      PrefixAtSuffix(line, q, 0);
      ReadingRecord(parse, record, u, chunks);
      EndingOfRecord(parse, line, q, |u|, chunks);
      Associative(Bytes<P>(line[..q]), LineAtoms(record, LineEnding(parse, record, |u|, chunks)), Reading(parse, u, chunks));
  }

  // ---------------------------------------------------------------- a push

  /** Giving up on an over-long record, where the first of the pushes ends. */
  lemma FlushReading<P>(parse: Text -> Option<P>, s: Text, t: Text, chunks: seq<Text>)
    requires PrefixAt(s, 0) && NEWLINE !in s && |s| > MAX_FRAME_BYTES
    requires chunks != [] && t == Concat(chunks[1..])
    ensures Bytes(s) + Reading(parse, t, chunks) == Reading(parse, s + t, chunks)
  {
    hide Reading, PrefixAt, Bytes;
    match FindNewline(t)
    case None =>
      ReadingWithoutNewline(parse, s + t, chunks);
      ReadingWithoutNewline(parse, t, chunks);
      BytesConcat<P>(s, t);
    case Some(n) =>
      var tail, u := t[..n + 1], t[n + 1..];
      assert s + t == (s + tail) + u && t == tail + u;
      LineFound(t, n);
      assert forall i :: 0 <= i < |s| ==> s[i] != NEWLINE;
      LineAfter(s, tail);
      FlushLine(parse, s, tail, u, chunks);
  }

  lemma FlushLine<P>(parse: Text -> Option<P>, s: Text, tail: Text, u: Text, chunks: seq<Text>)
    requires PrefixAt(s, 0) && |s| > MAX_FRAME_BYTES && Line(tail) && Line(s + tail)
    requires chunks != [] && tail + u == Concat(chunks[1..])
    ensures Bytes(s) + Reading(parse, tail + u, chunks) == Reading(parse, (s + tail) + u, chunks)
  {
    hide Reading, LineAtoms, LineEnding, MatchesPrefix, Bytes, Line, Concat;
    var record := s + tail;
    PrefixWithin(s, tail, 0);
    ReadingRecord(parse, record, u, chunks);
    ReadingLine(parse, tail, u, chunks);
    NotNothing(tail);
    GivenUp(parse, s, tail, |u|, chunks);
    assert record[|s|..] == tail && record[..|s|] == s;
    AtomsBehind(record, |s|, LineEnding(parse, tail, |u|, chunks));
    Associative(Bytes<P>(s), LineAtoms(tail, LineEnding(parse, tail, |u|, chunks)), Reading(parse, u, chunks));
  }

  lemma NotNothing(line: Text)
    requires Line(line)
    ensures line != []
  {
  }

  lemma GivenUp<P>(parse: Text -> Option<P>, s: Text, tail: Text, after: nat, chunks: seq<Text>)
    requires PrefixAt(s + tail, 0) && |s| > MAX_FRAME_BYTES && tail != []
    requires chunks != [] && |tail| + after == |Concat(chunks[1..])|
    ensures LineEnding(parse, s + tail, after, chunks) == LineEnding(parse, tail, after, chunks)
  {
    hide PrefixAt, RecordEnding;
    var record := s + tail;
    assert record[0..] == record && record[|s|..] == tail;
    WholeRecord(record);
    assert RestAfter(chunks, |record| + after - MAX_FRAME_BYTES) == |tail| + after;
  }

  lemma WholeRecord(record: Text)
    requires PrefixAt(record, 0)
    ensures FirstRecordOf(record) == Some(record)
  {
    assert record[0..] == record;
  }

  /** A record that is complete when a push ends is read as it is. */
  lemma CompleteReading<P>(parse: Text -> Option<P>, s: Text, t: Text, n: nat, chunks: seq<Text>)
    requires PrefixAt(s, 0) && FindNewline(s) == Some(n) && chunks != [] && t == Concat(chunks[1..])
    ensures PrefixAt(s[..n + 1], 0)
    ensures EventAtoms(RecordEvent(parse, s[..n + 1])) + Reading(parse, s[n + 1..] + t, chunks) == Reading(parse, s + t, chunks)
  {
    hide Reading, MatchesPrefix, Bytes, LineEnding;
    LineFound(s, n);
    PrefixHasNoNewline(s, n);
    var record, u := s[..n + 1], s[n + 1..] + t;
    assert s + t == record + u;
    ReadingRecord(parse, record, u, chunks);
    CompleteEnding(parse, record, |u|, chunks);
  }

  lemma CompleteEnding<P>(parse: Text -> Option<P>, record: Text, after: nat, chunks: seq<Text>)
    requires PrefixAt(record, 0) && chunks != [] && |Concat(chunks[1..])| <= after
    ensures LineAtoms(record, LineEnding(parse, record, after, chunks)) == EventAtoms(RecordEvent(parse, record))
  {
    hide PrefixAt, Payload;
    WholeRecord(record);
    assert record[..0] == [];
  }

  lemma OutputReading<P>(parse: Text -> Option<P>, s: Text, t: Text, n: nat, chunks: seq<Text>)
    requires n <= |s| && forall i :: 0 <= i < n ==> !PrefixAt(s + t, i)
    ensures Bytes(s[..n]) + Reading(parse, s[n..] + t, chunks) == Reading(parse, s + t, chunks)
  {
    ReadingSkip(parse, s + t, n, chunks);
    assert (s + t)[..n] == s[..n];
    assert (s + t)[n..] == s[n..] + t;
  }

  lemma HeldBackReading<P>(parse: Text -> Option<P>, s: Text, t: Text, n: nat, chunks: seq<Text>)
    requires FindPrefix(s) == None && n == |s| - MatchingPrefixSuffix(s)
    ensures Bytes(s[..n]) + Reading(parse, s[n..] + t, chunks) == Reading(parse, s + t, chunks)
  {
    hide Reading, PrefixAt, Bytes, MatchingPrefixSuffix;
    forall i | 0 <= i < n ensures !PrefixAt(s + t, i) { HeldBackEnough(s, t, i); }
    OutputReading(parse, s, t, n, chunks);
  }

  lemma BeforeFrameReading<P>(parse: Text -> Option<P>, s: Text, t: Text, p: nat, chunks: seq<Text>)
    requires FindPrefix(s) == Some(p) && p < |s|
    ensures Bytes(s[..p]) + Reading(parse, s[p..] + t, chunks) == Reading(parse, s + t, chunks)
  {
    hide Reading, MatchesPrefix, Bytes;
    forall i | 0 <= i < p ensures !PrefixAt(s + t, i) { PrefixWithin(s, t, i); }
    OutputReading(parse, s, t, p, chunks);
  }

  lemma GiveUpReading<P>(parse: Text -> Option<P>, s: Text, t: Text, chunks: seq<Text>)
    requires FindPrefix(s) == Some(0) && FindNewline(s) == None && |s| > MAX_FRAME_BYTES
    requires chunks != [] && t == Concat(chunks[1..])
    ensures Bytes(s) + Reading(parse, [] + t, chunks) == Reading(parse, s + t, chunks)
  {
    hide Reading, MatchesPrefix, Bytes;
    FlushReading(parse, s, t, chunks);
    assert [] + t == t;
  }

  /** A turn keeps the reading of everything pushed and still to come. */
  lemma TurnReading<P>(parse: Text -> Option<P>, s: Text, t: Text, chunks: seq<Text>)
    requires chunks != [] && t == Concat(chunks[1..])
    ensures var turn := NextTurn(parse, s, false);
            turn.Emit? ==> EventAtoms(turn.event) + Reading(parse, turn.rest + t, chunks) == Reading(parse, s + t, chunks)
  {
    hide Reading, RecordEvent, MatchesPrefix, Bytes, MatchingPrefixSuffix, Concat;
    match FindPrefix(s)
    case None => HeldBackReading(parse, s, t, |s| - MatchingPrefixSuffix(s), chunks);
    case Some(p) =>
      if p > 0 {
        BeforeFrameReading(parse, s, t, p, chunks);
      } else {
        match FindNewline(s)
        case None => if |s| > MAX_FRAME_BYTES { GiveUpReading(parse, s, t, chunks); }
        case Some(n) => CompleteReading(parse, s, t, n, chunks);
      }
  }

  lemma {:induction false} DrainReading<P>(parse: Text -> Option<P>, s: Text, t: Text, chunks: seq<Text>)
    requires chunks != [] && t == Concat(chunks[1..])
    ensures var d := Drain(parse, s, false);
            Atoms(d.events) + Reading(parse, d.pending + t, chunks) == Reading(parse, s + t, chunks)
    decreases |s|
  {
    hide Reading, NextTurn;
    TurnReading(parse, s, t, chunks);
    match NextTurn(parse, s, false)
    case Quiet =>
    case Emit(event, rest, more) =>
      if more {
        DrainReading(parse, rest, t, chunks);
        var later := Drain(parse, rest, false);
        AtomsCons(event, later.events);
        Associative(EventAtoms(event), Atoms(later.events), Reading(parse, later.pending + t, chunks));
      } else {
        AtomsCons(event, []);
      }
  }

  // ---------------------------------------------------------------- whole runs

  /** Two runs cross every bound up to `most` at the same places. */
  ghost predicate Agree(a: seq<Text>, b: seq<Text>, most: int) {
    forall bound: nat :: 0 < bound <= most ==> RestAfter(a, bound) == RestAfter(b, bound)
  }

  lemma AgreeAt(a: seq<Text>, b: seq<Text>, most: int, bound: nat)
    requires Agree(a, b, most) && 0 < bound <= most
    ensures RestAfter(a, bound) == RestAfter(b, bound)
  {
  }

  lemma AgreeBelow(a: seq<Text>, b: seq<Text>, most: int, less: int)
    requires Agree(a, b, most) && less <= most
    ensures Agree(a, b, less)
  {
    hide RestAfter;
  }

  /** Two runs that cross every bound inside the line at the same places end it alike. */
  lemma {:induction false} SameEnding<P>(parse: Text -> Option<P>, line: Text, after: nat, a: seq<Text>, b: seq<Text>)
    requires Agree(a, b, |line| + after - MAX_FRAME_BYTES)
    ensures LineEnding(parse, line, after, a) == LineEnding(parse, line, after, b)
    decreases |line|
  {
    hide RestAfter, FirstRecordOf, RecordEnding, Agree, LineEnding, Tail;
    match FirstRecordOf(line)
    case None =>
      PlainEnding(parse, line, after, a);
      PlainEnding(parse, line, after, b);
    case Some(record) =>
      if |record| <= MAX_FRAME_BYTES {
        PlainEnding(parse, line, after, a);
        PlainEnding(parse, line, after, b);
      } else {
        LongEnding(parse, line, record, after, a);
        LongEnding(parse, line, record, after, b);
        var bound := |record| + after - MAX_FRAME_BYTES;
        AgreeAt(a, b, |line| + after - MAX_FRAME_BYTES, bound);
        var rest := RestAfter(a, bound);
        if rest > after {
          AgreeBelow(a, b, |line| + after - MAX_FRAME_BYTES, rest - MAX_FRAME_BYTES);
          SameEnding(parse, Tail(line, rest - after), after, a, b);
        }
      }
  }

  lemma NextAgrees(chunks: seq<Text>, most: int)
    requires chunks != [] && most <= |Concat(chunks[1..])|
    ensures Agree(chunks, chunks[1..], most)
  {
  }

  /** A push that leaves no more than the cap pending crosses no later bound. */
  lemma {:induction false} ReadingSkipsPush<P>(parse: Text -> Option<P>, s: Text, chunks: seq<Text>)
    requires chunks != [] && |s| <= MAX_FRAME_BYTES + |Concat(chunks[1..])|
    ensures Reading(parse, s, chunks) == Reading(parse, s, chunks[1..])
    decreases |s|
  {
    hide LineEnding, LineAtoms, PrefixAt;
    if s != [] {
      if PrefixAt(s, 0) {
        match FindNewline(s)
        case None =>
        case Some(n) =>
          NextAgrees(chunks, |s| - MAX_FRAME_BYTES);
          SameEnding(parse, s[..n + 1], |s| - n - 1, chunks, chunks[1..]);
          ReadingSkipsPush(parse, s[n + 1..], chunks);
      } else {
        ReadingSkipsPush(parse, s[1..], chunks);
      }
    }
  }

  lemma ShortEnding<P>(parse: Text -> Option<P>, record: Text, after: nat, chunks: seq<Text>)
    requires PrefixAt(record, 0) && |record| <= MAX_FRAME_BYTES
    ensures LineAtoms(record, LineEnding(parse, record, after, chunks)) == RecordAtoms(parse, record)
  {
    hide PrefixAt, Payload;
    WholeRecord(record);
    assert record[..0] == [];
  }

  lemma ScanFirst<P>(parse: Text -> Option<P>, s: Text, n: nat)
    requires PrefixAt(s, 0) && FindNewline(s) == Some(n)
    ensures PrefixAt(s[..n + 1], 0) && Scan(parse, s) == RecordAtoms(parse, s[..n + 1]) + Scan(parse, s[n + 1..])
  {
    hide MatchesPrefix, RecordAtoms;
    PrefixHasNoNewline(s, n);
  }

  lemma NothingScans<P>(parse: Text -> Option<P>)
    ensures Scan(parse, []) == []
  {
  }

  lemma ScanUnended<P>(parse: Text -> Option<P>, s: Text)
    requires PrefixAt(s, 0) && FindNewline(s) == None
    ensures Scan(parse, s) == Bytes(s)
  {
    hide MatchesPrefix, Bytes;
  }

  /** A text within the cap is read as one pass reads it. */
  lemma {:induction false} ShortReading<P>(parse: Text -> Option<P>, s: Text, chunks: seq<Text>)
    requires |s| <= MAX_FRAME_BYTES
    ensures Reading(parse, s, chunks) == Scan(parse, s)
    decreases |s|
  {
    hide LineEnding, LineAtoms, RecordAtoms, PrefixAt, Scan, Bytes;
    if s != [] {
      if PrefixAt(s, 0) {
        match FindNewline(s)
        case None => ScanUnended(parse, s);
        case Some(n) =>
          ScanFirst(parse, s, n);
          ShortEnding(parse, s[..n + 1], |s| - n - 1, chunks);
          ShortReading(parse, s[n + 1..], chunks);
      } else {
        ScanByte(parse, s, iset{});
        ShortReading(parse, s[1..], chunks);
      }
    } else {
      NothingScans(parse);
    }
  }

  /** However a stream is cut, and with no condition, its events are exactly its run's reading. */
  lemma {:induction false} DecodeIsReading<P>(parse: Text -> Option<P>, pending: Text, chunks: seq<Text>)
    requires |pending| <= MAX_FRAME_BYTES
    ensures Atoms(Decode(parse, pending, chunks)) == Reading(parse, pending + Concat(chunks), chunks)
    decreases |chunks|
  {
    hide Reading, Scan, Drain;
    if chunks == [] {
      FinishDrain(parse, pending);
      assert pending + [] == pending;
      ShortReading(parse, pending, chunks);
    } else {
      var s, t := pending + chunks[0], Concat(chunks[1..]);
      assert s + t == pending + Concat(chunks);
      var pushed := Drain(parse, s, false);
      DrainReading(parse, s, t, chunks);
      FrameConservation.PushSettles(parse, s);
      ReadingSkipsPush(parse, pushed.pending + t, chunks);
      DecodeIsReading(parse, pushed.pending, chunks[1..]);
      AtomsConcat(pushed.events, Decode(parse, pushed.pending, chunks[1..]));
    }
  }

  // ---------------------------------------------------------------- the runs that are possible

  /** How a line can end when the pushes that cross a bound can leave the given rests. */
  ghost predicate CanEnd<P>(parse: Text -> Option<P>, line: Text, after: nat, crossings: iset<(nat, nat)>, ending: Ending<P>)
    decreases |line|
  {
    match FirstRecordOf(line)
    case None => ending == Plain
    case Some(record) =>
      if |record| <= MAX_FRAME_BYTES then ending == RecordEnding(parse, record)
      else
        var bound := |record| + after - MAX_FRAME_BYTES;
        exists c ::
          && c in crossings && c.0 == bound && c.1 < bound
          && if c.1 <= after then ending == Plain
             else CanEnd(parse, Tail(line, c.1 - after), after, crossings, ending)
  }

  /** The line has one ending. */
  ghost predicate EndsOneWay<P(!new)>(parse: Text -> Option<P>, line: Text, after: nat, crossings: iset<(nat, nat)>) {
    forall a, b :: CanEnd(parse, line, after, crossings, a) && CanEnd(parse, line, after, crossings, b) ==> a == b
  }

  /** Every record of the one-pass reading has one ending. */
  ghost predicate Steady<P(!new)>(parse: Text -> Option<P>, s: Text, crossings: iset<(nat, nat)>)
    decreases |s|
  {
    if s == [] then true
    else if PrefixAt(s, 0) then
      match FindNewline(s)
      case None => true
      case Some(n) => EndsOneWay(parse, s[..n + 1], |s| - n - 1, crossings) && Steady(parse, s[n + 1..], crossings)
    else Steady(parse, s[1..], crossings)
  }

  /** Every bound above `least` is crossed by the run as the crossings allow. */
  ghost predicate CrossesWithin(chunks: seq<Text>, least: nat, most: nat, crossings: iset<(nat, nat)>) {
    forall bound: nat :: least < bound <= most ==> (bound, RestAfter(chunks, bound)) in crossings
  }

  lemma CanEndBy<P>(
    parse: Text -> Option<P>, line: Text, record: Text, after: nat, rest: nat, crossings: iset<(nat, nat)>, ending: Ending<P>)
    requires FirstRecordOf(line) == Some(record) && |record| > MAX_FRAME_BYTES
    requires rest < |record| + after - MAX_FRAME_BYTES && (|record| + after - MAX_FRAME_BYTES, rest) in crossings
    requires if rest <= after then ending == Plain
             else CanEnd(parse, Tail(line, rest - after), after, crossings, ending)
    ensures CanEnd(parse, line, after, crossings, ending)
  {
    hide FirstRecordOf, RecordEnding, Tail;
    assert (|record| + after - MAX_FRAME_BYTES, rest) in crossings;
  }

  lemma {:induction false} RunCanEnd<P>(
    parse: Text -> Option<P>, line: Text, after: nat, chunks: seq<Text>, least: nat, most: nat, crossings: iset<(nat, nat)>)
    requires CrossesWithin(chunks, least, most, crossings) && least <= after && |line| + after <= most
    ensures CanEnd(parse, line, after, crossings, LineEnding(parse, line, after, chunks))
    decreases |line|
  {
    hide RestAfter, FirstRecordOf, RecordEnding, LineEnding, Tail;
    match FirstRecordOf(line)
    case None => PlainEnding(parse, line, after, chunks);
    case Some(record) =>
      if |record| <= MAX_FRAME_BYTES {
        PlainEnding(parse, line, after, chunks);
      } else {
        LongEnding(parse, line, record, after, chunks);
        var bound := |record| + after - MAX_FRAME_BYTES;
        var rest := RestAfter(chunks, bound);
        assert (bound, rest) in crossings;
        if rest > after { RunCanEnd(parse, Tail(line, rest - after), after, chunks, least, most, crossings); }
        CanEndBy(parse, line, record, after, rest, crossings, LineEnding(parse, line, after, chunks));
      }
  }

  /** The last `least` bytes of a text hold no newline, so every line has them behind it. */
  predicate QuietEnd(s: Text, least: nat) {
    least <= |s| && forall i :: |s| - least <= i < |s| ==> s[i] != NEWLINE
  }

  lemma QuietEndBehind(s: Text, n: nat, least: nat)
    requires QuietEnd(s, least) && n < |s| && s[n] == NEWLINE
    ensures least <= |s| - n - 1 && QuietEnd(s[n + 1..], least)
  {
  }

  lemma QuietEndNext(s: Text, least: nat)
    requires QuietEnd(s, least) && |s| > least
    ensures QuietEnd(s[1..], least)
  {
  }

  /** Runs that cross as the crossings allow read a steady text alike. */
  lemma {:induction false} SteadyReadsAlike<P(!new)>(
    parse: Text -> Option<P>, s: Text, a: seq<Text>, b: seq<Text>, least: nat, most: nat, crossings: iset<(nat, nat)>)
    requires Steady(parse, s, crossings) && QuietEnd(s, least) && |s| <= most
    requires CrossesWithin(a, least, most, crossings) && CrossesWithin(b, least, most, crossings)
    ensures Reading(parse, s, a) == Reading(parse, s, b)
    decreases |s|
  {
    hide LineEnding, LineAtoms, PrefixAt, CrossesWithin, CanEnd, QuietEnd, Reading;
    if s == [] {
      NothingIsRead(parse, a);
      NothingIsRead(parse, b);
    } else {
      if PrefixAt(s, 0) {
        match FindNewline(s)
        case None =>
          ReadingWithoutNewline(parse, s, a);
          ReadingWithoutNewline(parse, s, b);
        case Some(n) =>
          ReadingAtLine(parse, s, n, a);
          ReadingAtLine(parse, s, n, b);
          QuietEndBehind(s, n, least);
          RunCanEnd(parse, s[..n + 1], |s| - n - 1, a, least, most, crossings);
          RunCanEnd(parse, s[..n + 1], |s| - n - 1, b, least, most, crossings);
          SteadyReadsAlike(parse, s[n + 1..], a, b, least, most, crossings);
      } else if |s| > least {
        QuietEndNext(s, least);
        ReadingByte(parse, s, a);
        ReadingByte(parse, s, b);
        SteadyReadsAlike(parse, s[1..], a, b, least, most, crossings);
      } else {
        QuietWhole(s, least);
        ReadingWithoutNewline(parse, s, a);
        ReadingWithoutNewline(parse, s, b);
      }
    }
  }

  lemma QuietWhole(s: Text, least: nat)
    requires QuietEnd(s, least) && |s| <= least
    ensures NEWLINE !in s
  {
  }

  // ---------------------------------------------------------------- different endings show

  /** Two endings of a line show before the line is over. */
  lemma EndingsShow<P>(line: Text, a: Ending<P>, b: Ending<P>, restA: seq<Atom<P>>, restB: seq<Atom<P>>)
    requires a != b && (a.Accepted? ==> 0 < a.length <= |line|) && (b.Accepted? ==> 0 < b.length <= |line|)
    ensures LineAtoms(line, a) + restA != LineAtoms(line, b) + restB
  {
    if a.Accepted? && (b.Plain? || a.length > b.length) {
      EarlierShows(line, a, b, restA, restB);
    } else if b.Accepted? && (a.Plain? || b.length > a.length) {
      EarlierShows(line, b, a, restB, restA);
    } else {
      var k := |line| - a.length;
      assert (LineAtoms(line, a) + restA)[k] == Reported(a.progress) && (LineAtoms(line, b) + restB)[k] == Reported(b.progress);
    }
  }

  lemma EarlierShows<P>(line: Text, a: Ending<P>, b: Ending<P>, restA: seq<Atom<P>>, restB: seq<Atom<P>>)
    requires a.Accepted? && 0 < a.length <= |line| && (b.Accepted? ==> b.length < a.length)
    ensures LineAtoms(line, a) + restA != LineAtoms(line, b) + restB
  {
    var k := |line| - a.length;
    assert (LineAtoms(line, a) + restA)[k] == Reported(a.progress);
    var shown := if b.Plain? then line else line[..|line| - b.length];
    BytesAt<P>(shown, k);
    assert (LineAtoms(line, b) + restB)[k] == Bytes<P>(shown)[k];
  }
}
