/** One frame hidden in an over-long record: exactly when its reading depends on the reads. */
module HiddenFrame {
  import opened BoundedReads
  import opened ByteStrings
  import opened CommandEvent
  import opened FrameRuns
  import opened FrameScan
  import opened Wrappers
  import FrameStream

  /** An over-long record of ASCII bytes that holds one acceptable frame, at its end. */
  predicate HoldsOneFrame<P(==)>(parse: Text -> Option<P>, front: Text, frame: Text) {
    && Ascii(front + frame) && Line(front + frame) && PrefixAt(front + frame, 0) && |front + frame| > MAX_FRAME_BYTES
    && PrefixAt(frame, 0) && |frame| <= MAX_FRAME_BYTES && parse(Payload(frame)) != None
    && forall i :: 0 < i < |front + frame| && i != |front| ==> !PrefixAt(front + frame, i)
  }

  /** How the record ends when the decoder gives up on it after `j` bytes. */
  function EndingAt<P>(parse: Text -> Option<P>, front: Text, frame: Text, j: nat): Ending<P>
    requires PrefixAt(frame, 0)
  {
    if j <= |front| then RecordEnding(parse, frame) else Plain
  }

  lemma {:induction false} FirstPrefixIs(s: Text, q: nat)
    requires PrefixAt(s, q) && forall i :: 0 <= i < q ==> !PrefixAt(s, i)
    ensures FindPrefix(s) == Some(q)
  {
  }

  lemma NoPrefixIn(s: Text)
    requires forall i :: 0 <= i < |s| ==> !PrefixAt(s, i)
    ensures FindPrefix(s) == None
  {
  }

  lemma TailRecord<P>(parse: Text -> Option<P>, front: Text, frame: Text, j: nat)
    requires HoldsOneFrame(parse, front, frame) && 0 < j <= |front + frame|
    ensures FirstRecordOf(Tail(front + frame, |front + frame| - j)) == if j <= |front| then Some(frame) else None
  {
    hide PrefixAt;
    var record := front + frame;
    var tail := record[j..];
    forall i: nat ensures PrefixAt(tail, i) <==> PrefixAt(record, j + i) { PrefixAtSuffix(record, j, i); }
    if j <= |front| {
      PrefixAtSuffix(record, |front|, 0);
      assert record[|front|..] == frame && tail[|front| - j..] == frame;
      FirstPrefixIs(tail, |front| - j);
    } else {
      NoPrefixIn(tail);
    }
  }

  lemma TailCanEnd<P>(parse: Text -> Option<P>, front: Text, frame: Text, j: nat, crossings: iset<(nat, nat)>, ending: Ending<P>)
    requires HoldsOneFrame(parse, front, frame) && 0 < j <= |front + frame|
    ensures CanEnd(parse, Tail(front + frame, |front + frame| - j), 0, crossings, ending)
            <==> ending == EndingAt(parse, front, frame, j)
  {
    hide FirstRecordOf, Tail, RecordEnding, PrefixAt;
    TailRecord(parse, front, frame, j);
  }

  /** The reads that take the record beyond the cap are those that end at most one buffer beyond it. */
  lemma CrossesExactlyWhen(bytes: Text, rest: nat)
    requires Ascii(bytes) && |bytes| > MAX_FRAME_BYTES
    ensures CanCross(bytes, |bytes| - MAX_FRAME_BYTES, rest)
            <==> rest <= |bytes| && MAX_FRAME_BYTES < |bytes| - rest <= MAX_FRAME_BYTES + OUTPUT_READ_BUFFER_SIZE
  {
    hide Left, Ascii;
    if CanCross(bytes, |bytes| - MAX_FRAME_BYTES, rest) {
      var j :| 0 <= j <= |bytes| && Left(bytes, j) == rest < |bytes| - MAX_FRAME_BYTES <= Left(bytes, Before(j));
      AsciiLeft(bytes, j);
      AsciiLeft(bytes, Before(j));
    }
    if rest <= |bytes| && MAX_FRAME_BYTES < |bytes| - rest <= MAX_FRAME_BYTES + OUTPUT_READ_BUFFER_SIZE {
      AsciiLeft(bytes, |bytes| - rest);
      AsciiLeft(bytes, Before(|bytes| - rest));
    }
  }

  /** The record can end as giving up at `j` makes it end. */
  lemma RecordCanEnd<P>(parse: Text -> Option<P>, front: Text, frame: Text, j: nat)
    requires HoldsOneFrame(parse, front, frame) && j <= |front + frame|
    requires MAX_FRAME_BYTES < j <= MAX_FRAME_BYTES + OUTPUT_READ_BUFFER_SIZE
    ensures CanEnd(parse, front + frame, 0, Crossings(front + frame), EndingAt(parse, front, frame, j))
  {
    hide FirstRecordOf, Tail, RecordEnding, PrefixAt, CanCross, Ascii, CanEnd;
    var record := front + frame;
    FrameOf(parse, front, frame);
    WholeRecord(record);
    CrossesExactlyWhen(record, |record| - j);
    assert (|record| - MAX_FRAME_BYTES, |record| - j) in Crossings(record);
    TailCanEnd(parse, front, frame, j, Crossings(record), EndingAt(parse, front, frame, j));
    CanEndBy(parse, record, record, 0, |record| - j, Crossings(record), EndingAt(parse, front, frame, j));
  }

  /** The record ends in no other way. */
  lemma RecordEndsOnlyAt<P>(parse: Text -> Option<P>, front: Text, frame: Text, ending: Ending<P>) returns (j: nat)
    requires HoldsOneFrame(parse, front, frame) && CanEnd(parse, front + frame, 0, Crossings(front + frame), ending)
    ensures j <= |front + frame| && MAX_FRAME_BYTES < j <= MAX_FRAME_BYTES + OUTPUT_READ_BUFFER_SIZE
    ensures ending == EndingAt(parse, front, frame, j)
  {
    hide FirstRecordOf, Tail, RecordEnding, PrefixAt, CanCross, Ascii;
    var record := front + frame;
    FrameOf(parse, front, frame);
    WholeRecord(record);
    var c :| && c in Crossings(record) && c.0 == |record| - MAX_FRAME_BYTES && c.1 < c.0
             && if c.1 <= 0 then ending == Plain else CanEnd(parse, Tail(record, c.1 - 0), 0, Crossings(record), ending);
    CrossesExactlyWhen(record, c.1);
    j := |record| - c.1;
    TailCanEnd(parse, front, frame, j, Crossings(record), ending);
  }

  lemma SteadyRecord<P(!new)>(parse: Text -> Option<P>, record: Text, crossings: iset<(nat, nat)>)
    requires Line(record) && PrefixAt(record, 0)
    ensures Steady(parse, record, crossings) <==> EndsOneWay(parse, record, 0, crossings)
  {
    hide EndsOneWay, MatchesPrefix;
    assert record + [] == record && record[..|record|] == record;
    RecordFound(record, []);
  }

  lemma FrameIsAccepted<P>(parse: Text -> Option<P>, frame: Text)
    requires PrefixAt(frame, 0) && |frame| <= MAX_FRAME_BYTES && parse(Payload(frame)) != None
    ensures RecordEnding(parse, frame).Accepted?
  {
  }

  lemma OneFrameIsSteady<P(!new)>(parse: Text -> Option<P>, front: Text, frame: Text)
    requires HoldsOneFrame(parse, front, frame)
    ensures EndsOneWay(parse, front + frame, 0, Crossings(front + frame))
            <==> |front| <= MAX_FRAME_BYTES || MAX_FRAME_BYTES + OUTPUT_READ_BUFFER_SIZE <= |front|
  {
    hide CanEnd, RecordEnding, PrefixAt, Crossings, HoldsOneFrame;
    var record := front + frame;
    FrameOf(parse, front, frame);
    if |front| <= MAX_FRAME_BYTES || MAX_FRAME_BYTES + OUTPUT_READ_BUFFER_SIZE <= |front| {
      forall a, b | CanEnd(parse, record, 0, Crossings(record), a) && CanEnd(parse, record, 0, Crossings(record), b) ensures a == b {
        var i := RecordEndsOnlyAt(parse, front, frame, a);
        var j := RecordEndsOnlyAt(parse, front, frame, b);
      }
    } else {
      RecordCanEnd(parse, front, frame, |front|);
      RecordCanEnd(parse, front, frame, |front| + 1);
    }
  }

  lemma FrameOf<P>(parse: Text -> Option<P>, front: Text, frame: Text)
    requires HoldsOneFrame(parse, front, frame)
    ensures PrefixAt(frame, 0) && RecordEnding(parse, frame).Accepted? && frame != []
  {
    FrameIsAccepted(parse, frame);
  }

  /**
   The events depend on how the reads fall exactly when the hidden frame starts beyond the cap by less than one buffer:
   a nearer frame is never reached, and a later one is always accepted.
   */
  lemma ReadsMatterExactlyWhen<P(!new)>(parse: Text -> Option<P>, front: Text, frame: Text)
    requires HoldsOneFrame(parse, front, frame)
    ensures (exists a, b :: ReadsDiffer(parse, front + frame, a, b))
            <==> MAX_FRAME_BYTES < |front| < MAX_FRAME_BYTES + OUTPUT_READ_BUFFER_SIZE
  {
    hide PrefixAt, Crossings, EndsOneWay, Steady, ReadsDiffer, Ascii, Line;
    var record := front + frame;
    AsciiLeft(record, 0);
    ReadsAreIrrelevantExactlyWhen(parse, record);
    SteadyRecord(parse, record, Crossings(record));
    OneFrameIsSteady(parse, front, frame);
  }

  // ---------------------------------------------------------------- such records exist

  function Front(length: nat): Text {
    FRAME_PREFIX + seq(length, _ => FrameStream.FILLER)
  }

  lemma FrontIs(length: nat)
    ensures PrefixAt(Front(length), 0) && Ascii(Front(length)) && |Front(length)| == PREFIX_LENGTH + length
    ensures forall i :: 0 <= i < |Front(length)| ==> Front(length)[i] != NEWLINE
    ensures forall i :: 0 < i < |Front(length)| ==> Front(length)[i] != FRAME_PREFIX[0]
  {
    hide PrefixAt;
    FrameStream.PrefixItself();
    MarkStandsFirst();
    var filler := seq(length, _ => FrameStream.FILLER);
    PrefixWithin(FRAME_PREFIX, filler, 0);
    forall i | 0 <= i < |Front(length)|
      ensures Front(length)[i] < 128 && Front(length)[i] != NEWLINE && (i > 0 ==> Front(length)[i] != FRAME_PREFIX[0])
    {
      assert Front(length)[i] == if i < PREFIX_LENGTH then FRAME_PREFIX[i] else FrameStream.FILLER;
    }
  }

  lemma MarkStandsFirst()
    ensures forall i :: 0 <= i < PREFIX_LENGTH ==> FRAME_PREFIX[i] < 128 && (i > 0 ==> FRAME_PREFIX[i] != FRAME_PREFIX[0])
    ensures FRAME_PREFIX[0] != FrameStream.FILLER
  {
  }

  /** Any acceptable frame of ASCII bytes can stand behind any amount of filler. */
  lemma FillerHoldsOneFrame<P>(parse: Text -> Option<P>, length: nat, frame: Text)
    requires Ascii(frame) && Line(frame) && PrefixAt(frame, 0) && |frame| <= MAX_FRAME_BYTES && parse(Payload(frame)) != None
    requires forall i :: 0 < i < |frame| ==> frame[i] != FRAME_PREFIX[0]
    requires length + |frame| > MAX_FRAME_BYTES
    ensures HoldsOneFrame(parse, Front(length), frame)
  {
    hide PrefixAt, Front, Payload;
    var front, record := Front(length), Front(length) + frame;
    FrontIs(length);
    PrefixWithin(front, frame, 0);
    FrameStream.LineAfter(front, frame);
    forall i | 0 < i < |record| && i != |front| ensures !PrefixAt(record, i) {
      PrefixBytes(record, i);
      assert record[i] == if i < |front| then front[i] else frame[i - |front|];
      StartsWithMark(record, i);
    }
  }

  lemma StartsWithMark(s: Text, i: nat)
    requires i < |s| && s[i] != FRAME_PREFIX[0]
    ensures !PrefixAt(s, i)
  {
  }

  /** Far behind the cap the hidden frame is accepted however the reads fall, although one push would not show it. */
  lemma FarFrameReadsAlike<P(!new)>(parse: Text -> Option<P>, frame: Text)
    requires Ascii(frame) && Line(frame) && PrefixAt(frame, 0) && |frame| <= MAX_FRAME_BYTES && parse(Payload(frame)) != None
    requires forall i :: 0 < i < |frame| ==> frame[i] != FRAME_PREFIX[0]
    ensures var record := Front(MAX_FRAME_BYTES + OUTPUT_READ_BUFFER_SIZE) + frame;
            FrameStream.Resynchronizing(parse, record) && forall a, b :: !ReadsDiffer(parse, record, a, b)
  {
    hide PrefixAt, Front, Payload, Ascii, Line, FrameStream.Resynchronizing, ReadsDiffer, HoldsOneFrame;
    var length := MAX_FRAME_BYTES + OUTPUT_READ_BUFFER_SIZE;
    FrontIs(length);
    FillerHoldsOneFrame(parse, length, frame);
    ReadsMatterExactlyWhen(parse, Front(length), frame);
    FrameStream.FrameBehindOverlongFront(parse, Front(length), frame);
    assert !exists a, b :: ReadsDiffer(parse, Front(length) + frame, a, b);
    forall a, b ensures !ReadsDiffer(parse, Front(length) + frame, a, b) {
    }
  }
}
