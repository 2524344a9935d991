/**
 What a stream of pushes into the frame decoder means.

 The decoder, however its input was cut, agrees with the one-pass reading up to merging adjacent
 outputs, unless the text is `Resynchronizing`: that condition is exact.
 */
module FrameStream {
  import opened ByteStrings
  import opened CommandEvent
  import opened FrameScan
  import opened OutputMerging
  import opened Wrappers

  // ---------------------------------------------------------------- whole streams

  /** The events of pushing `chunks` one after another and finishing. */
  function Decode<P>(parse: Text -> Option<P>, pending: Text, chunks: seq<Text>): seq<Event<P>>
    decreases |chunks|
  {
    if chunks == [] then Drain(parse, pending, true).events
    else
      var pushed := Drain(parse, pending + chunks[0], false);
      pushed.events + Decode(parse, pushed.pending, chunks[1..])
  }

  /** Every cut between chunks, and the end, leaves one of the given numbers of bytes to come. */
  predicate CutsWithin(chunks: seq<Text>, cuts: iset<nat>) {
    chunks == [] || (|Concat(chunks[1..])| in cuts && CutsWithin(chunks[1..], cuts))
  }

  /** However a text is cut, the decoder reads it as one pass over the whole does, if no cut exposes a hidden frame. */
  lemma {:induction false} DecodeIsScan<P>(parse: Text -> Option<P>, pending: Text, chunks: seq<Text>, cuts: iset<nat>)
    requires CutsWithin(chunks, cuts) && !Exposed(parse, pending + Concat(chunks), cuts)
    ensures Atoms(Decode(parse, pending, chunks)) == Scan(parse, pending + Concat(chunks))
    decreases |chunks|
  {
    hide Exposed, Scan, Drain;
    if chunks == [] {
      FinishDrain(parse, pending);
      assert pending + [] == pending;
    } else {
      var s, t := pending + chunks[0], Concat(chunks[1..]);
      assert s + t == pending + Concat(chunks);
      PushDrain(parse, s, t, cuts);
      var pushed := Drain(parse, s, false);
      DecodeIsScan(parse, pushed.pending, chunks[1..], cuts);
      AtomsConcat(pushed.events, Decode(parse, pushed.pending, chunks[1..]));
    }
  }

  /** A cut with less than a frame prefix to come exposes nothing. */
  lemma {:induction false} LateCutsExposeNothing<P>(parse: Text -> Option<P>, s: Text, cuts: iset<nat>)
    requires forall e :: e in cuts ==> e < PREFIX_LENGTH
    ensures !Exposed(parse, s, cuts)
    decreases |s|
  {
    hide MatchesPrefix;
    if s != [] {
      if PrefixAt(s, 0) {
        match FindNewline(s)
        case None =>
        case Some(n) =>
          LateCutsExposeNothing(parse, s[n + 1..], cuts);
          assert !HidesFrame(parse, s[..n + 1], |s| - n - 1, cuts);
      } else {
        LateCutsExposeNothing(parse, s[1..], cuts);
      }
    }
  }

  /** Reading a text that arrives in one piece is the one-pass reading, with no condition on the text. */
  lemma OneShotIsScan<P>(parse: Text -> Option<P>, text: Text)
    ensures Atoms(Decode(parse, [], [text])) == Scan(parse, text)
  {
    hide Exposed, Scan, Decode;
    assert [] + Concat([text]) == text;
    LateCutsExposeNothing(parse, text, iset{0});
    assert [text][1..] == [];
    DecodeIsScan(parse, [], [text], iset{0});
  }

  // ---------------------------------------------------------------- exactly when cutting can matter

  /** Cutting at `k` makes the decoder give up on a record and then accept a frame inside it, `i` bytes on. */
  predicate CutChangesReading<P(!new)>(parse: Text -> Option<P>, s: Text, k: nat, i: nat) {
    && MAX_FRAME_BYTES < k < |s|
    && var pushed := Drain(parse, s[..k], false);
    && var n := |Atoms(pushed.events)| + i;
    && pushed.pending == []
    && n < |Scan(parse, s)| && Scan(parse, s)[n].Shown?
    && i < |Scan(parse, s[k..])| && Scan(parse, s[k..])[i].Reported?
  }

  lemma FlushedFront<P(!new)>(parse: Text -> Option<P>, front: Text)
    requires PrefixAt(front, 0) && NEWLINE !in front && |front| > MAX_FRAME_BYTES
    ensures Drain(parse, front, false) == Drained([Output(front)], [])
    ensures Atoms(Drain(parse, front, false).events) == Bytes(front)
  {
    AtomsCons<P>(Output(front), []);
  }

  lemma OverlongRecordIsShown<P(!new)>(parse: Text -> Option<P>, r: Text, u: Text, q: nat)
    requires Line(r) && PrefixAt(r, 0) && MAX_FRAME_BYTES < q < |r|
    ensures q < |Scan(parse, r + u)| && Scan(parse, r + u)[q].Shown?
  {
    ScanRecord(parse, r, u, iset{});
    BytesAt<P>(r, q);
  }

  lemma InnerFrameIsReported<P(!new)>(parse: Text -> Option<P>, tail: Text, u: Text, i: nat)
    requires Line(tail) && FindPrefix(tail) == Some(i) && FrameInside(parse, tail, i)
    ensures i < |Scan(parse, tail + u)| && Scan(parse, tail + u)[i].Reported?
  {
    hide Scan, MatchesPrefix, Exposed;
    var record := tail[i..];
    ScanSkipInLine(parse, tail, u, i, iset{});
    ScanRecord(parse, record, u, iset{});
    assert |Bytes<P>(tail[..i])| == i;
    assert record[0..] == record;
  }

  lemma CutInsideRecord<P(!new)>(parse: Text -> Option<P>, r: Text, u: Text, c: nat, s: Text) returns (i: nat)
    requires Line(r) && PrefixAt(r, 0) && MAX_FRAME_BYTES < c <= |r| && RestartsAtFrame(parse, r, c)
    requires s == r + u
    ensures CutChangesReading(parse, s, c, i)
  {
    hide Scan, MatchesPrefix, Drain, FrameInside;
    var tail := r[c..];
    assert r[c..][0..] == tail;
    RestartsInTail(parse, r, c, 0);
    i := FindPrefix(tail).value;
    assert s[..c] == r[..c] && s[c..] == tail + u;
    PrefixAtTake(r, c, 0);
    FlushedFront(parse, s[..c]);
    FrameIsInside(parse, tail, i);
    assert Line(tail);
    OverlongRecordIsShown(parse, r, u, c + i);
    InnerFrameIsReported(parse, tail, u, i);
  }

  lemma FrameIsInside<P(!new)>(parse: Text -> Option<P>, r: Text, q: nat)
    requires FrameInside(parse, r, q)
    ensures q < |r|
  {
  }

  /** A cut found after the decoder's first turn is a cut of the whole. */
  lemma CutAfterTurn<P(!new)>(parse: Text -> Option<P>, s: Text, event: Event<P>, u: Text, later: nat, k: nat, i: nat)
    requires later <= |u| && CutChangesReading(parse, u, later, i)
    requires later <= k < |s| && s[k..] == u[later..]
    requires NextTurn(parse, s[..k], false) == Emit(event, u[..later], true)
    requires Scan(parse, s) == EventAtoms(event) + Scan(parse, u)
    ensures CutChangesReading(parse, s, k, i)
  {
    hide Scan, NextTurn;
    AtomsCons(event, Drain(parse, u[..later], false).events);
  }

  lemma SliceAfter(s: Text, p: nat, later: nat, k: nat)
    requires k == p + later && k <= |s|
    ensures s[..k][p..] == s[p..][..later] && s[..k][..p] == s[..p] && s[k..] == s[p..][later..]
  {
  }

  lemma FrontKeepsFirstPrefix(s: Text, p: nat, k: nat, front: Text)
    requires FindPrefix(s) == Some(p) && p + PREFIX_LENGTH <= k <= |s| && front == s[..k]
    ensures FindPrefix(front) == Some(p)
  {
    forall i | 0 <= i < p ensures !PrefixAt(front, i) {
      if i + PREFIX_LENGTH <= k { PrefixAtTake(s, k, i); }
    }
    PrefixAtTake(s, k, p);
  }

  lemma CutAfterOutput<P(!new)>(parse: Text -> Option<P>, s: Text, p: nat, later: nat, k: nat, i: nat)
    requires FindPrefix(s) == Some(p) && p > 0 && CutChangesReading(parse, s[p..], later, i)
    requires k == p + later
    ensures CutChangesReading(parse, s, k, i)
  {
    hide Scan, Exposed, MatchesPrefix;
    var front, u := s[..k], s[p..];
    FrontKeepsFirstPrefix(s, p, k, front);
    SliceAfter(s, p, later, k);
    ScanSkip(parse, s, p, iset{});
    CutAfterTurn(parse, s, Output(s[..p]), u, later, k, i);
  }

  lemma RecordTurnOfFront<P(!new)>(parse: Text -> Option<P>, r: Text, u: Text)
    requires Line(r) && PrefixAt(r, 0)
    ensures NextTurn(parse, r + u, false) == Emit(RecordEvent(parse, r), u, true)
  {
    PrefixWithin(r, u, 0);
    RecordFound(r, u);
    assert (r + u)[..|r|] == r && (r + u)[|r|..] == u;
  }

  lemma CutAfterRecord<P(!new)>(parse: Text -> Option<P>, r: Text, u: Text, later: nat, s: Text, k: nat, i: nat)
    requires Line(r) && PrefixAt(r, 0) && later <= |u| && CutChangesReading(parse, u, later, i)
    requires s == r + u && k == |r| + later
    ensures CutChangesReading(parse, s, k, i)
  {
    hide Scan, Exposed, NextTurn, Drain, MatchesPrefix;
    assert s[..k] == r + u[..later] && s[k..] == u[later..];
    RecordTurnOfFront(parse, r, u[..later]);
    ScanRecord(parse, r, u, iset{});
    CutAfterTurn(parse, s, RecordEvent(parse, r), u, later, k, i);
  }

  lemma FirstRecord<P(!new)>(parse: Text -> Option<P>, s: Text, cuts: iset<nat>) returns (r: Text, u: Text)
    requires Exposed(parse, s, cuts) && FindPrefix(s) == Some(0)
    ensures s == r + u && Line(r) && PrefixAt(r, 0)
    ensures HidesFrame(parse, r, |u|, cuts) || Exposed(parse, u, cuts)
  {
    hide HidesFrame;
    var n := FindNewline(s).value;
    r, u := s[..n + 1], s[n + 1..];
    LineFound(s, n);
    PrefixHasNoNewline(s, n);
    assert s == r + u;
    ScanRecord(parse, r, u, cuts);
  }

  lemma {:induction false} ExposingCut<P(!new)>(parse: Text -> Option<P>, s: Text, cuts: iset<nat>) returns (k: nat, i: nat)
    requires Exposed(parse, s, cuts)
    ensures k <= |s| && |s| - k in cuts && CutChangesReading(parse, s, k, i)
    decreases |s|
  {
    hide Scan, MatchesPrefix, Drain, CutChangesReading, RestartsAtFrame;
    var p := match FindPrefix(s) case None => |s| case Some(p) => p;
    if p > 0 {
      var later;
      ScanSkip(parse, s, p, cuts);
      later, i := ExposingCut(parse, s[p..], cuts);
      k := p + later;
      CutAfterOutput(parse, s, p, later, k, i);
      return;
    }
    var r, u := FirstRecord(parse, s, cuts);
    if HidesFrame(parse, r, |u|, cuts) {
      k :| MAX_FRAME_BYTES < k <= |r| && |r| - k + |u| in cuts && RestartsAtFrame(parse, r, k);
      i := CutInsideRecord(parse, r, u, k, s);
    } else {
      var later;
      later, i := ExposingCut(parse, u, cuts);
      k := |r| + later;
      CutAfterRecord(parse, r, u, later, s, k, i);
    }
  }

  /** Cut in two at an exposing cut, in front of a text with no more exposed frames, the text does not read as the whole. */
  lemma ExposedReadsDifferently<P(!new)>(parse: Text -> Option<P>, s: Text, k: nat, i: nat, chunks: seq<Text>, cuts: iset<nat>)
    requires CutChangesReading(parse, s, k, i)
    requires Concat(chunks) == s[k..] && CutsWithin(chunks, cuts) && !Exposed(parse, s[k..], cuts)
    ensures Atoms(Decode(parse, [], [s[..k]] + chunks)) != Scan(parse, s)
  {
    hide Scan, Exposed, Drain;
    var pushed := Drain(parse, s[..k], false);
    assert [] + s[..k] == s[..k];
    assert ([s[..k]] + chunks)[1..] == chunks;
    assert [] + Concat(chunks) == s[k..];
    DecodeIsScan(parse, [], chunks, cuts);
    AtomsConcat(pushed.events, Decode(parse, [], chunks));
    var n := |Atoms(pushed.events)| + i;
    assert (Atoms(pushed.events) + Scan(parse, s[k..]))[n] == Scan(parse, s[k..])[i];
  }

  predicate Differs<P(==)>(parse: Text -> Option<P>, chunks: seq<Text>, text: Text) {
    Concat(chunks) == text && Merge(Decode(parse, [], chunks)) != Merge(Decode(parse, [], [text]))
  }

  lemma CalmTextReadsAlike<P(!new)>(parse: Text -> Option<P>, chunks: seq<Text>, cuts: iset<nat>)
    requires CutsWithin(chunks, cuts) && !Exposed(parse, Concat(chunks), cuts)
    ensures !Differs(parse, chunks, Concat(chunks))
  {
    hide Scan, Exposed, Decode;
    var text := Concat(chunks);
    OneShotIsScan(parse, text);
    assert [] + text == text;
    DecodeIsScan(parse, [], chunks, cuts);
    SameAtomsSameMerge(Decode(parse, [], chunks), Decode(parse, [], [text]));
  }

  /** The two halves of a text. */
  lemma Halves(text: Text, k: nat, cuts: iset<nat>)
    requires k <= |text| && |text| - k in cuts && 0 in cuts
    ensures Concat([text[k..]]) == text[k..] && Concat([text[..k], text[k..]]) == text
    ensures CutsWithin([text[k..]], cuts) && CutsWithin([text[..k], text[k..]], cuts)
  {
    assert [text[..k], text[k..]][1..] == [text[k..]] && [text[k..]][1..] == [];
  }

  lemma HalvesDiffer<P(!new)>(parse: Text -> Option<P>, text: Text, k: nat, i: nat)
    requires CutChangesReading(parse, text, k, i)
    ensures Atoms(Decode(parse, [], [text[..k], text[k..]])) != Scan(parse, text)
  {
    hide Scan, Exposed, Decode, Drain, CutsWithin, Concat;
    Halves(text, k, iset{0, |text| - k});
    Halves(text[k..], 0, iset{0, |text[k..]|});
    LastPiece(text[k..]);
    LateCutsExposeNothing(parse, text[k..], iset{0});
    assert [text[..k]] + [text[k..]] == [text[..k], text[k..]];
    ExposedReadsDifferently(parse, text, k, i, [text[k..]], iset{0});
  }

  lemma LastPiece(text: Text)
    ensures CutsWithin([text], iset{0})
  {
    assert [text][1..] == [];
  }

  lemma ExposedTextCanDiffer<P(!new)>(parse: Text -> Option<P>, text: Text, cuts: iset<nat>) returns (chunks: seq<Text>)
    requires Exposed(parse, text, cuts) && 0 in cuts
    ensures CutsWithin(chunks, cuts) && Differs(parse, chunks, text)
  {
    hide Scan, Exposed, Decode, CutChangesReading, CutsWithin, Concat;
    var k, i := ExposingCut(parse, text, cuts);
    chunks := [text[..k], text[k..]];
    Halves(text, k, cuts);
    HalvesDiffer(parse, text, k, i);
    OneShotIsScan(parse, text);
    SameAtomsSameMerge(Decode(parse, [], chunks), Decode(parse, [], [text]));
  }

  /**
   Where a stream can be cut only at certain places, every way of cutting it there yields the events of the one-piece
   run, adjacent outputs merged, exactly when no such cut exposes a frame hidden in an over-long record.
   */
  lemma CutsAreIrrelevantExactlyWhen<P(!new)>(parse: Text -> Option<P>, text: Text, cuts: iset<nat>)
    requires 0 in cuts
    ensures (forall chunks :: CutsWithin(chunks, cuts) ==> !Differs(parse, chunks, text)) <==> !Exposed(parse, text, cuts)
  {
    hide Exposed, Decode;
    if Exposed(parse, text, cuts) {
      var chunks := ExposedTextCanDiffer(parse, text, cuts);
    } else {
      forall chunks | CutsWithin(chunks, cuts) ensures !Differs(parse, chunks, text) {
        if Concat(chunks) == text { CalmTextReadsAlike(parse, chunks, cuts); }
      }
    }
  }

  // ---------------------------------------------------------------- cutting anywhere

  /** An over-long record holds an acceptable frame beyond the point where the decoder may give up on it. */
  predicate HoldsFrame<P(==)>(parse: Text -> Option<P>, record: Text) {
    exists q :: MAX_FRAME_BYTES < q < |record| && FrameInside(parse, record, q)
  }

  /** Some over-long record of the text holds such a frame. */
  predicate Resynchronizing<P(==)>(parse: Text -> Option<P>, s: Text)
    decreases |s|
  {
    if s == [] then false
    else if PrefixAt(s, 0) then
      match FindNewline(s)
      case None => false
      case Some(n) => HoldsFrame(parse, s[..n + 1]) || Resynchronizing(parse, s[n + 1..])
    else Resynchronizing(parse, s[1..])
  }

  ghost const ANYWHERE := iset e: nat | true

  lemma FrameStarts<P>(parse: Text -> Option<P>, record: Text, q: nat)
    requires FrameInside(parse, record, q)
    ensures q < |record| && PrefixAt(record, q) && FindPrefixFrom(record, q) == Some(q)
  {
  }

  /** Every frame prefix has a cut in front of it. */
  ghost predicate CutsAtFrames(s: Text, cuts: iset<nat>) {
    forall k: nat :: PrefixAt(s, k) ==> k <= |s| && |s| - k in cuts
  }

  lemma CutsAtLaterFrames(s: Text, m: nat, cuts: iset<nat>)
    requires m <= |s| && CutsAtFrames(s, cuts)
    ensures CutsAtFrames(s[m..], cuts)
  {
    hide PrefixAt;
    var rest := s[m..];
    forall k: nat | PrefixAt(rest, k) ensures k <= |rest| && |rest| - k in cuts {
      PrefixAtSuffix(s, m, k);
      assert |s| - (m + k) == |rest| - k;
    }
  }

  /** Cuts in front of every frame prefix are as good as cuts anywhere. */
  lemma {:induction false} ExposedAtFrames<P>(parse: Text -> Option<P>, s: Text, cuts: iset<nat>)
    requires CutsAtFrames(s, cuts)
    ensures Exposed(parse, s, cuts) <==> Resynchronizing(parse, s)
    decreases |s|
  {
    hide HidesFrame, HoldsFrame, PrefixAt, CutsAtFrames;
    if s != [] {
      if PrefixAt(s, 0) {
        match FindNewline(s)
        case None =>
        case Some(n) =>
          CutsAtLaterFrames(s, n + 1, cuts);
          ExposedAtFrames(parse, s[n + 1..], cuts);
          HidesAtFrames(parse, s, n, cuts);
      } else {
        CutsAtLaterFrames(s, 1, cuts);
        ExposedAtFrames(parse, s[1..], cuts);
      }
    }
  }

  lemma HidesAtFrames<P>(parse: Text -> Option<P>, s: Text, n: nat, cuts: iset<nat>)
    requires n < |s| && CutsAtFrames(s, cuts)
    ensures HidesFrame(parse, s[..n + 1], |s| - n - 1, cuts) <==> HoldsFrame(parse, s[..n + 1])
  {
    hide FrameInside;
    var record := s[..n + 1];
    if q :| MAX_FRAME_BYTES < q < |record| && FrameInside(parse, record, q) {
      FrameStarts(parse, record, q);
      PrefixAtTake(s, n + 1, q);
      assert RestartsAtFrame(parse, record, q) && |record| - q + (|s| - n - 1) in cuts;
    }
    if c :| MAX_FRAME_BYTES < c <= |record| && |record| - c + (|s| - n - 1) in cuts && RestartsAtFrame(parse, record, c) {
      var q := FindPrefixFrom(record, c).value;
      FrameStarts(parse, record, q);
      assert FrameInside(parse, record, q);
    }
  }

  lemma ExposedAnywhere<P>(parse: Text -> Option<P>, s: Text)
    ensures Exposed(parse, s, ANYWHERE) <==> Resynchronizing(parse, s)
  {
    hide Exposed, Resynchronizing, PrefixAt;
    forall k: nat | PrefixAt(s, k) ensures k <= |s| { PrefixBytes(s, k); }
    ExposedAtFrames(parse, s, ANYWHERE);
  }

  lemma {:induction false} CutsAnywhere(chunks: seq<Text>)
    ensures CutsWithin(chunks, ANYWHERE)
  {
    if chunks != [] { CutsAnywhere(chunks[1..]); }
  }

  /**
   Every way of cutting a text yields the events of the one-piece run, adjacent outputs merged,
   exactly when no over-long record of the text hides a frame.
   */
  lemma ChunkingIsIrrelevantExactlyWhen<P(!new)>(parse: Text -> Option<P>, text: Text)
    ensures (forall chunks :: !Differs(parse, chunks, text)) <==> !Resynchronizing(parse, text)
  {
    hide Exposed, Resynchronizing, Differs;
    CutsAreIrrelevantExactlyWhen(parse, text, ANYWHERE);
    ExposedAnywhere(parse, text);
    forall chunks ensures CutsWithin(chunks, ANYWHERE) { CutsAnywhere(chunks); }
  }

  /** A resynchronizing text has a cut in two that does not read as the whole. */
  lemma ResynchronizingReadsDifferently<P(!new)>(parse: Text -> Option<P>, s: Text) returns (k: nat)
    requires Resynchronizing(parse, s)
    ensures k < |s| && Atoms(Decode(parse, [], [s[..k], s[k..]])) != Scan(parse, s)
  {
    hide Exposed, Resynchronizing, Scan, Decode, Drain;
    var i;
    ExposedAnywhere(parse, s);
    k, i := ExposingCut(parse, s, ANYWHERE);
    HalvesDiffer(parse, s, k, i);
  }

  /** No record of the text, ended or not, is longer than the cap. */
  predicate RecordsFit(s: Text)
    decreases |s|
  {
    if s == [] then true
    else if PrefixAt(s, 0) then
      match FindNewline(s)
      case None => |s| <= MAX_FRAME_BYTES
      case Some(n) => n + 1 <= MAX_FRAME_BYTES && RecordsFit(s[n + 1..])
    else RecordsFit(s[1..])
  }

  /** Records within the cap never hide a frame. */
  lemma {:induction false} FittingRecordsNeverResynchronize<P>(parse: Text -> Option<P>, s: Text)
    requires RecordsFit(s)
    ensures !Resynchronizing(parse, s)
    decreases |s|
  {
    if s != [] {
      if PrefixAt(s, 0) {
        match FindNewline(s)
        case None =>
        case Some(n) => FittingRecordsNeverResynchronize(parse, s[n + 1..]);
      } else {
        FittingRecordsNeverResynchronize(parse, s[1..]);
      }
    }
  }

  lemma LineAfter(front: Text, line: Text)
    requires Line(line) && forall i :: 0 <= i < |front| ==> front[i] != NEWLINE
    ensures Line(front + line)
  {
  }

  lemma FrameBehindOverlongFront<P>(parse: Text -> Option<P>, front: Text, frame: Text)
    requires PrefixAt(front, 0) && |front| > MAX_FRAME_BYTES && forall i :: 0 <= i < |front| ==> front[i] != NEWLINE
    requires Line(frame) && PrefixAt(frame, 0) && |frame| <= MAX_FRAME_BYTES && parse(Payload(frame)).Some?
    ensures Resynchronizing(parse, front + frame)
  {
    var r := front + frame;
    LineAfter(front, frame);
    PrefixAtSuffix(r, |front|, 0);
    assert r[|front|..] == frame && r + [] == r && r[..|r|] == r;
    PrefixWithin(front, frame, 0);
    assert FrameInside(parse, r, |front|);
    RecordFound(r, []);
  }

  lemma PrefixItself()
    ensures PrefixAt(FRAME_PREFIX, 0) && |FRAME_PREFIX| == PREFIX_LENGTH
    ensures forall i :: 0 <= i < PREFIX_LENGTH ==> FRAME_PREFIX[i] != NEWLINE
  {
    hide MatchesPrefix, PrefixAt;
    PrefixBytes(FRAME_PREFIX, 0);
  }

  const FILLER: Byte := 120

  /** The cap is needed: any acceptable frame can be hidden in an over-long record. */
  lemma OverlongRecordCanResynchronize<P>(parse: Text -> Option<P>, frame: Text)
    requires Line(frame) && PrefixAt(frame, 0) && |frame| <= MAX_FRAME_BYTES && parse(Payload(frame)).Some?
    ensures Resynchronizing(parse, (FRAME_PREFIX + seq(MAX_FRAME_BYTES, _ => FILLER)) + frame)
  {
    var filler := seq(MAX_FRAME_BYTES, _ => FILLER);
    var front := FRAME_PREFIX + filler;
    PrefixItself();
    PrefixWithin(FRAME_PREFIX, filler, 0);
    FrameBehindOverlongFront(parse, front, frame);
  }
}
