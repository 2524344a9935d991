/** Which events a process's output can be read as, when no read exceeds the read buffer. */
module BoundedReads {
  import opened ByteStrings
  import opened CommandEvent
  import opened FrameRuns
  import opened OutputReader
  import opened Wrappers
  import FrameScan
  import FrameStream
  import OutputMerging
  import Utf8Output
  import Utf8Stream

  const OUTPUT_READ_BUFFER_SIZE: nat := 8192

  predicate Bounded(pieces: seq<Text>) {
    forall piece :: piece in pieces ==> 0 < |piece| <= OUTPUT_READ_BUFFER_SIZE
  }

  /** The reads of a stream of `bytes`, in order. */
  predicate Reads(bytes: Text, pieces: seq<Text>) {
    Concat(pieces) == bytes && Bounded(pieces)
  }

  // ---------------------------------------------------------------- what is still to be shown

  /** What the byte decoder holds back when `j` bytes have been read. */
  function Held(bytes: Text, j: nat): Text
    requires j <= |bytes|
  {
    Utf8Output.Scan(bytes[..j]).pending
  }

  /** How much of the lossy text is still to come when `j` bytes have been read. */
  function Left(bytes: Text, j: nat): nat
    requires j <= |bytes|
  {
    |Utf8Output.Lossy(Held(bytes, j) + bytes[j..])|
  }

  lemma LeftIs(bytes: Text, j: nat)
    requires j <= |bytes|
    ensures |Utf8Output.Lossy(bytes)| == |Utf8Output.Scan(bytes[..j]).text| + Left(bytes, j)
  {
    CutOfRead(bytes, j);
  }

  /** What one read adds. */
  lemma ReadAdds(bytes: Text, j: nat, k: nat)
    requires j <= k <= |bytes|
    ensures var d := Utf8Output.Decode(Held(bytes, j), bytes[j..k], false);
            d.pending == Held(bytes, k) && Left(bytes, j) == |d.text| + Left(bytes, k)
  {
    hide Utf8Output.Scan, Utf8Output.Lossy, Left;
    assert bytes[..k] == bytes[..j] + bytes[j..k];
    Utf8Stream.ScanConcat(bytes[..j], bytes[j..k]);
    LeftIs(bytes, j);
    LeftIs(bytes, k);
  }

  lemma LeftFalls(bytes: Text, j: nat, k: nat)
    requires j <= k <= |bytes|
    ensures Left(bytes, k) <= Left(bytes, j)
  {
    hide Left, Held, Utf8Output.Decode;
    ReadAdds(bytes, j, k);
  }

  lemma LeftAtStart(bytes: Text)
    ensures Held(bytes, 0) == [] && Left(bytes, 0) == |Utf8Output.Lossy(bytes)|
  {
    assert bytes[..0] == [] && [] + bytes[0..] == bytes;
  }

  /** What is left when everything has been read is at most one replacement. */
  lemma LeftAtEnd(bytes: Text)
    ensures QuietEnd(Utf8Output.Lossy(bytes), Left(bytes, |bytes|))
  {
    hide Utf8Output.Scan, Utf8Output.Lossy;
    var d := Utf8Output.Scan(bytes);
    assert bytes[..|bytes|] == bytes && bytes[|bytes|..] == [] && d.pending + [] == d.pending;
    Utf8Stream.ScanPending(bytes);
    LossyOfHeld(bytes);
  }

  lemma LossyOfHeld(bytes: Text)
    requires var p := Utf8Output.Scan(bytes).pending; p != [] ==> Utf8Output.FirstStep(p) == Utf8Output.Incomplete
    ensures var d := Utf8Output.Scan(bytes);
            var rest := if d.pending == [] then [] else Utf8Output.REPLACEMENT;
            Utf8Output.Lossy(d.pending) == rest && Utf8Output.Lossy(bytes) == d.text + rest
  {
    hide Utf8Output.FirstStep;
    if Utf8Output.Scan(bytes).pending == [] { assert Utf8Output.Scan(bytes).text + [] == Utf8Output.Scan(bytes).text; }
  }

  // ---------------------------------------------------------------- where a read can cross a bound

  /** The earliest place where a read that ends at `j` can start. */
  function Before(j: nat): nat {
    if j < OUTPUT_READ_BUFFER_SIZE then 0 else j - OUTPUT_READ_BUFFER_SIZE
  }

  /** A read can take what is left from at least `bound` to `rest`, below it. */
  ghost predicate CanCross(bytes: Text, bound: nat, rest: nat) {
    exists j :: 0 <= j <= |bytes| && Left(bytes, j) == rest < bound <= Left(bytes, Before(j))
  }

  ghost function Crossings(bytes: Text): iset<(nat, nat)> {
    iset c: (nat, nat) | CanCross(bytes, c.0, c.1)
  }

  /** The pushes of a run, from where `j` bytes have been read. */
  function Run(bytes: Text, j: nat, pieces: seq<Text>): seq<Text>
    requires j <= |bytes|
  {
    PushedTexts(Held(bytes, j), pieces)
  }

  /** The first read of a run crosses the bound, or the rest of the run does. */
  lemma FirstRead(bytes: Text, j: nat, piece: Text, later: seq<Text>, bound: nat)
    requires j + |piece| <= |bytes| && bytes[j..] == piece + Concat(later) && 0 < bound <= Left(bytes, j)
    ensures var k := j + |piece|;
            RestAfter(Run(bytes, j, [piece] + later), bound)
            == if Left(bytes, k) < bound then Left(bytes, k) else RestAfter(Run(bytes, k, later), bound)
  {
    hide Utf8Output.Decode, Utf8Output.Scan, Utf8Output.Lossy;
    var k := j + |piece|;
    assert bytes[j..k] == piece && bytes[k..] == Concat(later);
    ReadAdds(bytes, j, k);
    var d := Utf8Output.Decode(Held(bytes, j), piece, false);
    PushedTextsAreLossyFrom(Held(bytes, k), later);
    assert ([piece] + later)[1..] == later;
    var run := Run(bytes, k, later);
    if d.text == [] {
      assert [] + run == run;
    } else {
      assert ([d.text] + run)[1..] == run;
    }
  }

  /** A run of bounded reads crosses every bound as some read can. */
  lemma {:induction false} RunCrosses(bytes: Text, j: nat, pieces: seq<Text>, bound: nat)
    requires j <= |bytes| && bytes[j..] == Concat(pieces) && Bounded(pieces)
    requires Left(bytes, |bytes|) < bound <= Left(bytes, j)
    ensures CanCross(bytes, bound, RestAfter(Run(bytes, j, pieces), bound))
    decreases |pieces|
  {
    hide Left, Run, RestAfter;
    if pieces != [] {
      var piece, later := pieces[0], pieces[1..];
      var k := j + |piece|;
      assert pieces == [piece] + later && bytes[k..] == Concat(later);
      FirstRead(bytes, j, piece, later, bound);
      if Left(bytes, k) < bound {
        LeftFalls(bytes, Before(k), j);
      } else {
        RunCrosses(bytes, k, later, bound);
      }
    }
  }

  lemma RunCrossesWithin(bytes: Text, pieces: seq<Text>)
    requires Reads(bytes, pieces)
    ensures CrossesWithin(PushedTexts([], pieces), Left(bytes, |bytes|), |Utf8Output.Lossy(bytes)|, Crossings(bytes))
  {
    hide Left, RestAfter, CanCross, PushedTexts, Utf8Output.Lossy;
    LeftAtStart(bytes);
    assert bytes[0..] == bytes;
    var run := Run(bytes, 0, pieces);
    forall bound: nat | Left(bytes, |bytes|) < bound <= |Utf8Output.Lossy(bytes)| ensures (bound, RestAfter(run, bound)) in Crossings(bytes) {
      RunCrosses(bytes, 0, pieces, bound);
    }
  }

  // ---------------------------------------------------------------- the reading of the reads

  /** However the reads fall, and with no condition, the events are the reading of the lossy text by their run. */
  lemma ReadIsReading<P>(parse: Text -> Option<P>, pieces: seq<Text>)
    ensures OutputMerging.Atoms(ReadEvents(parse, [], [], pieces))
            == Reading(parse, Utf8Output.Lossy(Concat(pieces)), PushedTexts([], pieces))
  {
    hide ReadEvents, PushedTexts, Utf8Output.Lossy, Reading, FrameStream.Decode;
    ReadIsDecodeOfPushes(parse, [], [], pieces);
    PushedTextsAreLossy(pieces);
    var texts := PushedTexts([], pieces);
    assert [] + Concat(texts) == Concat(texts);
    DecodeIsReading(parse, [], texts);
  }

  // ---------------------------------------------------------------- a run for every ending

  function Singles(text: Text): (pieces: seq<Text>) {
    if text == [] then [] else [[text[0]]] + Singles(text[1..])
  }

  lemma {:induction false} SinglesRead(text: Text)
    ensures Reads(text, Singles(text))
  {
    if text != [] {
      SinglesRead(text[1..]);
      var pieces := Singles(text);
      assert pieces[1..] == Singles(text[1..]) && pieces[0] == [text[0]];
      assert text == [text[0]] + text[1..];
    }
  }

  lemma {:induction false} ReadsConcat(s: Text, front: seq<Text>, t: Text, pieces: seq<Text>)
    requires Reads(s, front) && Reads(t, pieces)
    ensures Reads(s + t, front + pieces)
    decreases |front|
  {
    if front == [] {
      assert front + pieces == pieces && s + t == t;
    } else {
      var piece, later := front[0], front[1..];
      assert (front + pieces)[1..] == later + pieces && (front + pieces)[0] == piece;
      ReadsConcat(Concat(later), later, t, pieces);
      Associative(piece, Concat(later), t);
      assert forall p :: p in front + pieces ==> p in front || p in pieces;
    }
  }

  /** Reads that do not cross the bound change nothing. */
  lemma {:induction false} PassingRun(bytes: Text, j: nat, k: nat, front: seq<Text>, pieces: seq<Text>, bound: nat)
    requires j <= k <= |bytes| && bytes[j..k] == Concat(front) && bytes[k..] == Concat(pieces)
    requires 0 < bound <= Left(bytes, k)
    ensures RestAfter(Run(bytes, j, front + pieces), bound) == RestAfter(Run(bytes, k, pieces), bound)
    decreases |front|
  {
    hide Left, Run, RestAfter;
    if front == [] {
      assert front + pieces == pieces && j == k;
    } else {
      var piece, later := front[0], front[1..];
      var next := j + |piece|;
      assert front + pieces == [piece] + (later + pieces);
      ConcatOfBoth(later, pieces);
      SliceApart(bytes, j, k, piece, Concat(later), Concat(pieces));
      LeftFalls(bytes, j, k);
      LeftFalls(bytes, next, k);
      FirstRead(bytes, j, piece, later + pieces, bound);
      PassingRun(bytes, next, k, later, pieces, bound);
    }
  }

  lemma {:induction false} ConcatOfBoth(a: seq<Text>, b: seq<Text>)
    ensures Concat(a + b) == Concat(a) + Concat(b)
  {
    if a == [] {
      assert a + b == b;
    } else {
      assert (a + b)[1..] == a[1..] + b;
      ConcatOfBoth(a[1..], b);
      Associative(a[0], Concat(a[1..]), Concat(b));
    }
  }

  lemma SliceApart(bytes: Text, j: nat, k: nat, piece: Text, middle: Text, end: Text)
    requires j <= k <= |bytes| && bytes[j..k] == piece + middle && bytes[k..] == end
    ensures j + |piece| <= k && bytes[j + |piece|..k] == middle && bytes[j..] == piece + (middle + end)
  {
    assert bytes[j..] == bytes[j..k] + bytes[k..];
    assert bytes[j..k][|piece|..] == bytes[j + |piece|..k];
    Associative(piece, middle, end);
  }

  /** Where to start the read that crosses the bound, when `j` bytes have been read before. */
  lemma CrossingRead(bytes: Text, j: nat, bound: nat, rest: nat) returns (start: nat, k: nat)
    requires j <= |bytes| && bound <= Left(bytes, j) && CanCross(bytes, bound, rest)
    ensures j <= start < k <= |bytes| && k - start <= OUTPUT_READ_BUFFER_SIZE
    ensures Left(bytes, k) == rest < bound <= Left(bytes, start)
  {
    hide Left;
    k :| 0 <= k <= |bytes| && Left(bytes, k) == rest < bound <= Left(bytes, Before(k));
    start := if Before(k) < j then j else Before(k);
    if k <= start { LeftFalls(bytes, k, start); }
  }

  /** One byte at a time up to the read that crosses the bound, and from there as `later` reads. */
  lemma CrossingRun(bytes: Text, j: nat, start: nat, k: nat, later: seq<Text>, bound: nat) returns (pieces: seq<Text>)
    requires j <= start < k <= |bytes| && k - start <= OUTPUT_READ_BUFFER_SIZE && Reads(bytes[k..], later)
    requires Left(bytes, k) < bound <= Left(bytes, start)
    ensures Reads(bytes[j..], pieces) && RestAfter(Run(bytes, j, pieces), bound) == Left(bytes, k)
    ensures Agree(Run(bytes, j, pieces), Run(bytes, k, later), Left(bytes, k))
  {
    hide Left, Run, RestAfter, Reads;
    var front, piece := Singles(bytes[j..start]), bytes[start..k];
    SinglesRead(bytes[j..start]);
    OneRead(piece);
    ReadsConcat(piece, [piece], bytes[k..], later);
    assert piece + bytes[k..] == bytes[start..] && bytes[j..start] + bytes[start..] == bytes[j..];
    ReadsConcat(bytes[j..start], front, bytes[start..], [piece] + later);
    pieces := front + ([piece] + later);
    ConcatOfReads(bytes[j..start], front);
    ConcatOfReads(bytes[k..], later);
    ConcatOfReads(bytes[start..], [piece] + later);
    PassingRun(bytes, j, start, front, [piece] + later, bound);
    FirstRead(bytes, start, piece, later, bound);
    ConcatOfBoth(front, [piece]);
    ConcatOfReads(piece, [piece]);
    assert bytes[j..start] + piece == bytes[j..k];
    assert (front + [piece]) + later == pieces;
    forall b: nat | 0 < b <= Left(bytes, k) ensures RestAfter(Run(bytes, j, pieces), b) == RestAfter(Run(bytes, k, later), b) {
      PassingRun(bytes, j, k, front + [piece], later, b);
    }
  }

  lemma OneRead(piece: Text)
    requires 0 < |piece| <= OUTPUT_READ_BUFFER_SIZE
    ensures Reads(piece, [piece])
  {
    assert [piece][1..] == [];
  }

  lemma ConcatOfReads(bytes: Text, pieces: seq<Text>)
    requires Reads(bytes, pieces)
    ensures Concat(pieces) == bytes
  {
  }

  /** Every way a line can end is the way it ends in some run of bounded reads. */
  lemma {:induction false} EndingIsRun<P(!new)>(parse: Text -> Option<P>, bytes: Text, j: nat, line: Text, after: nat, ending: Ending<P>)
    returns (pieces: seq<Text>)
    requires j <= |bytes| && |line| + after <= Left(bytes, j) + MAX_FRAME_BYTES
    requires CanEnd(parse, line, after, Crossings(bytes), ending)
    ensures Reads(bytes[j..], pieces) && LineEnding(parse, line, after, Run(bytes, j, pieces)) == ending
    decreases |line|
  {
    hide Left, Run, RestAfter, Reads, LineEnding, FirstRecordOf, RecordEnding, Agree, CanCross, Tail;
    var record := FirstRecordOf(line);
    if record.None? || |record.value| <= MAX_FRAME_BYTES {
      pieces := Singles(bytes[j..]);
      SinglesRead(bytes[j..]);
      PlainEnding(parse, line, after, Run(bytes, j, pieces));
      return;
    }
    var bound := |record.value| + after - MAX_FRAME_BYTES;
    var c :| && c in Crossings(bytes) && c.0 == bound && c.1 < bound
             && if c.1 <= after then ending == Plain else CanEnd(parse, Tail(line, c.1 - after), after, Crossings(bytes), ending);
    var rest := c.1;
    var start, k := CrossingRead(bytes, j, bound, rest);
    var later := Singles(bytes[k..]);
    SinglesRead(bytes[k..]);
    if rest > after { later := EndingIsRun(parse, bytes, k, Tail(line, rest - after), after, ending); }
    pieces := CrossingRun(bytes, j, start, k, later, bound);
    LongEnding(parse, line, record.value, after, Run(bytes, j, pieces));
    if rest > after {
      AgreeBelow(Run(bytes, j, pieces), Run(bytes, k, later), rest, rest - MAX_FRAME_BYTES);
      SameEnding(parse, Tail(line, rest - after), after, Run(bytes, j, pieces), Run(bytes, k, later));
    }
  }

  // ---------------------------------------------------------------- exactly when the reads matter

  lemma WholeRun(bytes: Text, pieces: seq<Text>)
    ensures Run(bytes, 0, pieces) == PushedTexts([], pieces) && bytes[0..] == bytes
  {
    hide PushedTexts;
    LeftAtStart(bytes);
  }

  /** A line that can end in two ways does so in two runs. */
  lemma TwoEndings<P(!new)>(parse: Text -> Option<P>, bytes: Text, line: Text, after: nat) returns (a: seq<Text>, b: seq<Text>)
    requires |line| + after <= |Utf8Output.Lossy(bytes)| && !EndsOneWay(parse, line, after, Crossings(bytes))
    ensures Reads(bytes, a) && Reads(bytes, b)
    ensures LineEnding(parse, line, after, PushedTexts([], a)) != LineEnding(parse, line, after, PushedTexts([], b))
  {
    hide Left, Run, Reads, LineEnding, CanEnd, PushedTexts, Utf8Output.Lossy, Crossings;
    var x, y :| CanEnd(parse, line, after, Crossings(bytes), x) && CanEnd(parse, line, after, Crossings(bytes), y) && x != y;
    LeftAtStart(bytes);
    a := EndingIsRun(parse, bytes, 0, line, after, x);
    b := EndingIsRun(parse, bytes, 0, line, after, y);
    WholeRun(bytes, a);
    WholeRun(bytes, b);
  }

  lemma QuietIsSteady<P(!new)>(parse: Text -> Option<P>, s: Text, crossings: iset<(nat, nat)>)
    requires NEWLINE !in s
    ensures Steady(parse, s, crossings)
    decreases |s|
  {
    hide MatchesPrefix, EndsOneWay;
    if s != [] && !PrefixAt(s, 0) { QuietIsSteady(parse, s[1..], crossings); }
  }

  lemma StillDiffer<T>(front: seq<T>, a: seq<T>, b: seq<T>)
    requires a != b
    ensures front + a != front + b
  {
    assert (front + a)[|front|..] == a && (front + b)[|front|..] == b;
  }

  /** A text that is not steady is read differently by two runs. */
  lemma {:induction false} UnsteadyReadsDiffer<P(!new)>(parse: Text -> Option<P>, bytes: Text, s: Text)
    returns (a: seq<Text>, b: seq<Text>)
    requires |s| <= |Utf8Output.Lossy(bytes)| && QuietEnd(s, Left(bytes, |bytes|)) && !Steady(parse, s, Crossings(bytes))
    ensures Reads(bytes, a) && Reads(bytes, b)
    ensures Reading(parse, s, PushedTexts([], a)) != Reading(parse, s, PushedTexts([], b))
    decreases |s|
  {
    hide Left, Reads, LineEnding, LineAtoms, CanEnd, PushedTexts, Utf8Output.Lossy, Crossings, QuietEnd, EndsOneWay, PrefixAt, Reading;
    var least := Left(bytes, |bytes|);
    if |s| <= least {
      QuietWhole(s, least);
      QuietIsSteady(parse, s, Crossings(bytes));
    }
    if !PrefixAt(s, 0) {
      QuietEndNext(s, least);
      a, b := UnsteadyReadsDiffer(parse, bytes, s[1..]);
      ReadingByte(parse, s, PushedTexts([], a));
      ReadingByte(parse, s, PushedTexts([], b));
      StillDiffer([OutputMerging.Shown(s[0])], Reading(parse, s[1..], PushedTexts([], a)), Reading(parse, s[1..], PushedTexts([], b)));
      return;
    }
    var n := FindNewline(s).value;
    var line, after := s[..n + 1], |s| - n - 1;
    QuietEndBehind(s, n, least);
    if !EndsOneWay(parse, line, after, Crossings(bytes)) {
      a, b := TwoEndings(parse, bytes, line, after);
      EndingsShow(line, LineEnding(parse, line, after, PushedTexts([], a)), LineEnding(parse, line, after, PushedTexts([], b)),
                  Reading(parse, s[n + 1..], PushedTexts([], a)), Reading(parse, s[n + 1..], PushedTexts([], b)));
    } else {
      a, b := UnsteadyReadsDiffer(parse, bytes, s[n + 1..]);
      OneEnding(parse, bytes, line, after, a, b);
      StillDiffer(LineAtoms(line, LineEnding(parse, line, after, PushedTexts([], a))),
                  Reading(parse, s[n + 1..], PushedTexts([], a)), Reading(parse, s[n + 1..], PushedTexts([], b)));
    }
    ReadingAtLine(parse, s, n, PushedTexts([], a));
    ReadingAtLine(parse, s, n, PushedTexts([], b));
  }

  lemma OneEnding<P(!new)>(parse: Text -> Option<P>, bytes: Text, line: Text, after: nat, a: seq<Text>, b: seq<Text>)
    requires Reads(bytes, a) && Reads(bytes, b) && EndsOneWay(parse, line, after, Crossings(bytes))
    requires Left(bytes, |bytes|) <= after && |line| + after <= |Utf8Output.Lossy(bytes)|
    ensures LineEnding(parse, line, after, PushedTexts([], a)) == LineEnding(parse, line, after, PushedTexts([], b))
  {
    hide Left, Reads, LineEnding, CanEnd, PushedTexts, Utf8Output.Lossy, Crossings, CrossesWithin;
    RunCrossesWithin(bytes, a);
    RunCrossesWithin(bytes, b);
    RunCanEnd(parse, line, after, PushedTexts([], a), Left(bytes, |bytes|), |Utf8Output.Lossy(bytes)|, Crossings(bytes));
    RunCanEnd(parse, line, after, PushedTexts([], b), Left(bytes, |bytes|), |Utf8Output.Lossy(bytes)|, Crossings(bytes));
  }

  predicate ReadsDiffer<P(==)>(parse: Text -> Option<P>, bytes: Text, a: seq<Text>, b: seq<Text>) {
    && Reads(bytes, a) && Reads(bytes, b)
    && OutputMerging.Merge(ReadEvents(parse, [], [], a)) != OutputMerging.Merge(ReadEvents(parse, [], [], b))
  }

  lemma AlikeExactlyWhen<P(!new)>(parse: Text -> Option<P>, bytes: Text, a: seq<Text>, b: seq<Text>)
    requires Reads(bytes, a) && Reads(bytes, b)
    ensures ReadsDiffer(parse, bytes, a, b)
            <==> Reading(parse, Utf8Output.Lossy(bytes), PushedTexts([], a)) != Reading(parse, Utf8Output.Lossy(bytes), PushedTexts([], b))
  {
    hide Reads, ReadEvents, PushedTexts, Utf8Output.Lossy, Reading, OutputMerging.Merge;
    ConcatOfReads(bytes, a);
    ConcatOfReads(bytes, b);
    ReadIsReading(parse, a);
    ReadIsReading(parse, b);
    OutputMerging.SameAtomsSameMerge(ReadEvents(parse, [], [], a), ReadEvents(parse, [], [], b));
  }

  /**
   From raw bytes to events: all ways for the reads to fall yield the same events, adjacent outputs merged,
   exactly when every over-long record of the lossy text ends in one way, wherever a read can be the one
   that takes it beyond the cap.
   */
  lemma ReadsAreIrrelevantExactlyWhen<P(!new)>(parse: Text -> Option<P>, bytes: Text)
    ensures (forall a, b :: !ReadsDiffer(parse, bytes, a, b)) <==> Steady(parse, Utf8Output.Lossy(bytes), Crossings(bytes))
  {
    hide Left, Reads, ReadsDiffer, PushedTexts, Utf8Output.Lossy, Crossings, QuietEnd, Steady, Reading, CrossesWithin;
    var text := Utf8Output.Lossy(bytes);
    LeftAtEnd(bytes);
    if Steady(parse, text, Crossings(bytes)) {
      forall a, b ensures !ReadsDiffer(parse, bytes, a, b) {
        if ReadsDiffer(parse, bytes, a, b) {
          DifferingReads(parse, bytes, a, b);
          RunCrossesWithin(bytes, a);
          RunCrossesWithin(bytes, b);
          SteadyReadsAlike(parse, text, PushedTexts([], a), PushedTexts([], b), Left(bytes, |bytes|), |text|, Crossings(bytes));
          AlikeExactlyWhen(parse, bytes, a, b);
        }
      }
    } else {
      var a, b := UnsteadyReadsDiffer(parse, bytes, text);
      AlikeExactlyWhen(parse, bytes, a, b);
    }
  }

  lemma DifferingReads<P>(parse: Text -> Option<P>, bytes: Text, a: seq<Text>, b: seq<Text>)
    requires ReadsDiffer(parse, bytes, a, b)
    ensures Reads(bytes, a) && Reads(bytes, b)
  {
  }

  // ---------------------------------------------------------------- when the one-pass reading is the only one

  /** Where no read can expose a hidden frame, every record has one ending. */
  lemma CalmIsSteady<P(!new)>(parse: Text -> Option<P>, bytes: Text)
    requires !FrameScan.Exposed(parse, Utf8Output.Lossy(bytes), ReadCuts(bytes))
    ensures Steady(parse, Utf8Output.Lossy(bytes), Crossings(bytes))
  {
    hide Reads, ReadEvents, Utf8Output.Lossy, Utf8Stream.Replaced, FrameScan.Scan, FrameScan.Exposed, ReadCuts, Steady, Crossings,
         OutputMerging.Merge;
    forall a, b ensures !ReadsDiffer(parse, bytes, a, b) {
      if Reads(bytes, a) && Reads(bytes, b) {
        ConcatOfReads(bytes, a);
        ConcatOfReads(bytes, b);
        ReadsAreIrrelevant(parse, a);
        ReadsAreIrrelevant(parse, b);
        OutputMerging.SameAtomsSameMerge(ReadEvents(parse, [], [], a), ReadEvents(parse, [], [], b));
      }
    }
    ReadsAreIrrelevantExactlyWhen(parse, bytes);
  }

  // ---------------------------------------------------------------- one hidden frame

  predicate Ascii(s: Text) {
    forall i :: 0 <= i < |s| ==> s[i] < 128
  }

  lemma {:induction false} AsciiScans(s: Text)
    requires Ascii(s)
    ensures Utf8Output.Scan(s) == Utf8Output.Decoded(s, [])
    decreases |s|
  {
    if s != [] {
      AsciiScans(s[1..]);
      assert Utf8Output.FirstStep(s) == Utf8Output.Good(1);
      assert s == s[..1] + s[1..];
    }
  }

  lemma AsciiLeft(bytes: Text, j: nat)
    requires Ascii(bytes) && j <= |bytes|
    ensures Left(bytes, j) == |bytes| - j && Utf8Output.Lossy(bytes) == bytes
  {
    hide Utf8Output.Scan;
    AsciiScans(bytes[..j]);
    AsciiScans(bytes[j..]);
    AsciiScans(bytes);
    assert [] + bytes[j..] == bytes[j..];
  }
}
