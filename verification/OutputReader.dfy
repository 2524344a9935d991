/** The thread that pieces one output stream of a process: bytes to text, text to events. */
module OutputReader {
  import opened ByteStrings
  import opened CommandEvent
  import opened Wrappers
  import FrameConservation
  import FrameScan
  import FrameStream
  import OutputMerging
  import Utf8Output
  import Utf8Stream

  /** The events dispatched for the remaining `pieces`, with what each decoder holds back. */
  function ReadEvents<P>(parse: Text -> Option<P>, bytes: Text, pending: Text, pieces: seq<Text>): seq<Event<P>>
    decreases |pieces|
  {
    var d := if pieces == [] then Utf8Output.Decode(bytes, [], true) else Utf8Output.Decode(bytes, pieces[0], false);
    var pushed := PushVisible(parse, pending, d.text);
    pushed.events +
    if pieces == [] then Drain(parse, pushed.pending, true).events
    else ReadEvents(parse, d.pending, pushed.pending, pieces[1..])
  }

  /** The events dispatched for `pieces` before the read that follows them. */
  function EventsSoFar<P>(parse: Text -> Option<P>, bytes: Text, pending: Text, pieces: seq<Text>): seq<Event<P>>
    decreases |pieces|
  {
    if pieces == [] then []
    else
      var d := Utf8Output.Decode(bytes, pieces[0], false);
      var pushed := PushVisible(parse, pending, d.text);
      pushed.events + EventsSoFar(parse, d.pending, pushed.pending, pieces[1..])
  }

  /** Pushing a text that may be absent. */
  function PushVisible<P>(parse: Text -> Option<P>, pending: Text, text: Text): Drained<P> {
    if text == [] then Drained([], pending) else Drain(parse, pending + text, false)
  }

  lemma ReadTurn<P>(parse: Text -> Option<P>, done: seq<Event<P>>, bytes: Text, pending: Text, pieces: seq<Text>)
    requires pieces != []
    ensures var d := Utf8Output.Decode(bytes, pieces[0], false);
            var pushed := PushVisible(parse, pending, d.text);
            && done + ReadEvents(parse, bytes, pending, pieces)
               == (done + pushed.events) + ReadEvents(parse, d.pending, pushed.pending, pieces[1..])
            && done + EventsSoFar(parse, bytes, pending, pieces)
               == (done + pushed.events) + EventsSoFar(parse, d.pending, pushed.pending, pieces[1..])
  {
    hide Utf8Output.Decode, PushVisible;
    var d := Utf8Output.Decode(bytes, pieces[0], false);
    var pushed := PushVisible(parse, pending, d.text);
    Associative(done, pushed.events, ReadEvents(parse, d.pending, pushed.pending, pieces[1..]));
    Associative(done, pushed.events, EventsSoFar(parse, d.pending, pushed.pending, pieces[1..]));
  }

  lemma LastTurn<P>(parse: Text -> Option<P>, done: seq<Event<P>>, bytes: Text, pending: Text)
    ensures var pushed := PushVisible(parse, pending, Utf8Output.Decode(bytes, [], true).text);
            && done + ReadEvents(parse, bytes, pending, [])
               == (done + pushed.events) + Drain(parse, pushed.pending, true).events
            && done + EventsSoFar(parse, bytes, pending, []) == done
  {
    hide Utf8Output.Decode, PushVisible, Drain;
    var pushed := PushVisible(parse, pending, Utf8Output.Decode(bytes, [], true).text);
    Associative(done, pushed.events, Drain(parse, pushed.pending, true).events);
  }

  /**
   `read_output`: every element of `pieces` is one successful nonempty read, of at most the size of the buffer;
   the read after them fails, or finds the end of the stream.
   */
  method ReadOutput<P>(parse: Text -> Option<P>, pieces: seq<Text>, fails: bool) returns (dispatched: seq<Event<P>>, ok: bool)
    ensures ok == !fails
    ensures dispatched == if fails then EventsSoFar(parse, [], [], pieces) else ReadEvents(parse, [], [], pieces)
  {
    hide Utf8Output.Decode, Drain, ReadEvents, EventsSoFar;
    var decoder := new Utf8Output.Utf8LossyDecoder();
    var frameDecoder := new CommandEventFrameDecoder<P>(parse);
    dispatched := [];
    var i := 0;
    StartOfReads(parse, pieces);
    while i < |pieces|
      invariant 0 <= i <= |pieces|
      invariant fresh(decoder) && fresh(frameDecoder) && frameDecoder.parse == parse
      invariant dispatched + ReadEvents(parse, decoder.pending, frameDecoder.pending, pieces[i..])
                == ReadEvents(parse, [], [], pieces)
      invariant dispatched + EventsSoFar(parse, decoder.pending, frameDecoder.pending, pieces[i..])
                == EventsSoFar(parse, [], [], pieces)
    {
      ReadTurn(parse, dispatched, decoder.pending, frameDecoder.pending, pieces[i..]);
      assert pieces[i..][1..] == pieces[i + 1..];
      var text := decoder.DecodeBytes(pieces[i], false);
      if text.Some? {
        var events := frameDecoder.Push(text.value);
        dispatched := dispatched + events;
      } else {
        assert dispatched + [] == dispatched;
      }
      i := i + 1;
    }
    assert pieces[i..] == [];
    LastTurn(parse, dispatched, decoder.pending, frameDecoder.pending);
    if fails {
      return dispatched, false;
    }
    var text := decoder.DecodeBytes([], true);
    if text.Some? {
      var events := frameDecoder.Push(text.value);
      dispatched := dispatched + events;
    } else {
      assert dispatched + [] == dispatched;
    }
    var last := frameDecoder.Finish();
    dispatched := dispatched + last;
    ok := true;
  }

  lemma StartOfReads<P>(parse: Text -> Option<P>, pieces: seq<Text>)
    ensures pieces[0..] == pieces
    ensures [] + ReadEvents(parse, [], [], pieces) == ReadEvents(parse, [], [], pieces)
    ensures [] + EventsSoFar(parse, [], [], pieces) == EventsSoFar(parse, [], [], pieces)
  {
  }

  /** A failing read loses nothing that was dispatched, only the end. */
  lemma {:induction false} FailureKeepsAPrefix<P>(parse: Text -> Option<P>, bytes: Text, pending: Text, pieces: seq<Text>)
    ensures EventsSoFar(parse, bytes, pending, pieces) <= ReadEvents(parse, bytes, pending, pieces)
    decreases |pieces|
  {
    hide Utf8Output.Decode, PushVisible, Drain;
    if pieces != [] {
      var d := Utf8Output.Decode(bytes, pieces[0], false);
      var pushed := PushVisible(parse, pending, d.text);
      FailureKeepsAPrefix(parse, d.pending, pushed.pending, pieces[1..]);
    }
  }

  // ---------------------------------------------------------------- the two decoders together

  /** The texts pushed into the frame decoder. */
  function PushedTexts(bytes: Text, pieces: seq<Text>): seq<Text>
    decreases |pieces|
  {
    var d := if pieces == [] then Utf8Output.Decode(bytes, [], true) else Utf8Output.Decode(bytes, pieces[0], false);
    (if d.text == [] then [] else [d.text]) +
    if pieces == [] then [] else PushedTexts(d.pending, pieces[1..])
  }

  lemma {:induction false} PushedTextsMakeUpTheText(bytes: Text, pieces: seq<Text>)
    ensures Concat(PushedTexts(bytes, pieces)) == Utf8Stream.DecodeAll(bytes, pieces, [])
    decreases |pieces|
  {
    var d := if pieces == [] then Utf8Output.Decode(bytes, [], true) else Utf8Output.Decode(bytes, pieces[0], false);
    var later := if pieces == [] then [] else PushedTexts(d.pending, pieces[1..]);
    if pieces != [] { PushedTextsMakeUpTheText(d.pending, pieces[1..]); }
    ConcatFirst(d.text, later);
  }

  lemma ConcatFirst(text: Text, later: seq<Text>)
    ensures Concat((if text == [] then [] else [text]) + later) == text + Concat(later)
  {
    if text == [] {
      assert [] + later == later && text + Concat(later) == Concat(later);
    } else {
      assert ([text] + later)[1..] == later;
    }
  }

  lemma {:induction false} ReadIsDecodeOfPushes<P>(
    parse: Text -> Option<P>, bytes: Text, pending: Text, pieces: seq<Text>)
    ensures ReadEvents(parse, bytes, pending, pieces) == FrameStream.Decode(parse, pending, PushedTexts(bytes, pieces))
    decreases |pieces|
  {
    hide Utf8Output.Decode, Drain;
    var d := if pieces == [] then Utf8Output.Decode(bytes, [], true) else Utf8Output.Decode(bytes, pieces[0], false);
    var pushed := PushVisible(parse, pending, d.text);
    var later := if pieces == [] then [] else PushedTexts(d.pending, pieces[1..]);
    if pieces != [] { ReadIsDecodeOfPushes(parse, d.pending, pushed.pending, pieces[1..]); }
    DecodeFirst(parse, pending, d.text, later);
  }

  lemma DecodeFirst<P>(parse: Text -> Option<P>, pending: Text, text: Text, later: seq<Text>)
    ensures var pushed := PushVisible(parse, pending, text);
            FrameStream.Decode(parse, pending, (if text == [] then [] else [text]) + later)
            == pushed.events + FrameStream.Decode(parse, pushed.pending, later)
  {
    hide Drain;
    if text == [] {
      assert [] + later == later;
    } else {
      assert ([text] + later)[1..] == later;
    }
  }

  lemma PushedTextsAreLossy(pieces: seq<Text>)
    ensures Concat(PushedTexts([], pieces)) == Utf8Output.Lossy(Concat(pieces))
  {
    PushedTextsMakeUpTheText([], pieces);
    Utf8Stream.ChunkingIsIrrelevant([], pieces, []);
    assert [] + Concat(pieces) + [] == Concat(pieces);
  }

  // ---------------------------------------------------------------- when the reads do not matter

  /** Reading on from what is pending shows what one pass over the whole shows. */
  lemma LossyFrom(front: Text, rest: Text)
    ensures Utf8Output.Lossy(front + rest)
            == Utf8Output.Scan(front).text + Utf8Output.Lossy(Utf8Output.Scan(front).pending + rest)
  {
    hide Utf8Output.Scan;
    Utf8Stream.ScanConcat(front, rest);
    var d := Utf8Output.Scan(Utf8Output.Scan(front).pending + rest);
    Associative(Utf8Output.Scan(front).text, d.text, Utf8Output.REPLACEMENT);
  }

  /** How much of the lossy text can be still to come when a read ends. */
  ghost predicate Remaining(bytes: Text, e: nat) {
    e == 0 || exists j :: 0 <= j <= |bytes| && |Utf8Output.Scan(bytes[..j]).text| + e == |Utf8Output.Lossy(bytes)|
  }

  ghost function ReadCuts(bytes: Text): iset<nat> {
    iset e: nat | Remaining(bytes, e)
  }

  lemma CutOfRead(bytes: Text, j: nat)
    requires j <= |bytes|
    ensures Utf8Output.Lossy(bytes)
            == Utf8Output.Scan(bytes[..j]).text + Utf8Output.Lossy(Utf8Output.Scan(bytes[..j]).pending + bytes[j..])
    ensures |Utf8Output.Lossy(Utf8Output.Scan(bytes[..j]).pending + bytes[j..])| in ReadCuts(bytes)
  {
    hide Utf8Output.Scan, Utf8Output.Lossy;
    assert bytes[..j] + bytes[j..] == bytes;
    LossyFrom(bytes[..j], bytes[j..]);
    assert Remaining(bytes, |Utf8Output.Lossy(Utf8Output.Scan(bytes[..j]).pending + bytes[j..])|);
  }

  lemma PushedTextsAreLossyFrom(bytes: Text, pieces: seq<Text>)
    ensures Concat(PushedTexts(bytes, pieces)) == Utf8Output.Lossy(bytes + Concat(pieces))
  {
    hide PushedTexts, Utf8Output.Lossy;
    PushedTextsMakeUpTheText(bytes, pieces);
    Utf8Stream.ChunkingIsIrrelevant(bytes, pieces, []);
    assert bytes + Concat(pieces) + [] == bytes + Concat(pieces);
  }

  /** The pushed texts are cut only where a read can end. */
  lemma {:induction false} CutsAtReads(bytes: Text, j: nat, pending: Text, pieces: seq<Text>)
    requires j <= |bytes| && bytes[j..] == Concat(pieces) && pending == Utf8Output.Scan(bytes[..j]).pending
    ensures FrameStream.CutsWithin(PushedTexts(pending, pieces), ReadCuts(bytes))
    decreases |pieces|
  {
    hide Utf8Output.Scan, Utf8Output.Lossy, FrameStream.CutsWithin, ReadCuts;
    NoCutAtTheEnd(bytes);
    if pieces == [] {
      var d := Utf8Output.Decode(pending, [], true);
      LastPush(d.text, [], ReadCuts(bytes));
    } else {
      var d, next := Utf8Output.Decode(pending, pieces[0], false), j + |pieces[0]|;
      assert bytes[..next] == bytes[..j] + pieces[0] && bytes[next..] == Concat(pieces[1..]);
      Utf8Stream.ScanConcat(bytes[..j], pieces[0]);
      assert d.pending == Utf8Output.Scan(bytes[..next]).pending;
      CutsAtReads(bytes, next, d.pending, pieces[1..]);
      PushedTextsAreLossyFrom(d.pending, pieces[1..]);
      CutOfRead(bytes, next);
      LastPush(d.text, PushedTexts(d.pending, pieces[1..]), ReadCuts(bytes));
    }
  }

  lemma NoCutAtTheEnd(bytes: Text)
    ensures 0 in ReadCuts(bytes)
  {
    assert Remaining(bytes, 0);
  }

  lemma LastPush(text: Text, later: seq<Text>, cuts: iset<nat>)
    requires |Concat(later)| in cuts && FrameStream.CutsWithin(later, cuts)
    ensures FrameStream.CutsWithin((if text == [] then [] else [text]) + later, cuts)
  {
    if text == [] {
      assert [] + later == later;
    } else {
      assert ([text] + later)[1..] == later;
    }
  }

  /**
   From raw bytes to events, however the reads fall: the events are the one-pass frame reading of
   the one-pass lossy text, unless a read can end where it exposes a hidden frame.
   */
  lemma ReadsAreIrrelevant<P>(parse: Text -> Option<P>, pieces: seq<Text>)
    requires !FrameScan.Exposed(parse, Utf8Output.Lossy(Concat(pieces)), ReadCuts(Concat(pieces)))
    ensures OutputMerging.Atoms(ReadEvents(parse, [], [], pieces))
            == FrameScan.Scan(parse, Utf8Stream.Replaced(Concat(pieces)))
  {
    hide ReadEvents, PushedTexts, Utf8Output.Lossy, Utf8Stream.Replaced, FrameScan.Scan, FrameScan.Exposed,
         FrameStream.Decode, Utf8Stream.DecodeAll, ReadCuts, FrameStream.CutsWithin;
    var bytes := Concat(pieces);
    ReadIsDecodeOfPushes(parse, [], [], pieces);
    PushedTextsAreLossy(pieces);
    var texts := PushedTexts([], pieces);
    assert [] + Concat(texts) == Concat(texts);
    assert bytes[0..] == bytes && bytes[..0] == [];
    CutsAtReads(bytes, 0, [], pieces);
    FrameStream.DecodeIsScan(parse, [], texts, ReadCuts(bytes));
    Utf8Stream.LossyIsReplaced(bytes);
  }

  /** With no condition at all, the dispatched events account for the lossy text byte for byte. */
  lemma ReadsConserve<P>(parse: Text -> Option<P>, pieces: seq<Text>) returns (raws: seq<Text>)
    ensures FrameConservation.StandFor(parse, ReadEvents(parse, [], [], pieces), raws)
    ensures Concat(raws) == Utf8Stream.Replaced(Concat(pieces))
  {
    hide ReadEvents, PushedTexts, Utf8Output.Lossy, Utf8Stream.Replaced, FrameStream.Decode;
    ReadIsDecodeOfPushes(parse, [], [], pieces);
    PushedTextsAreLossy(pieces);
    var texts := PushedTexts([], pieces);
    assert [] + Concat(texts) == Concat(texts);
    raws := FrameConservation.DecodeConserves(parse, [], texts);
    Utf8Stream.LossyIsReplaced(Concat(pieces));
  }
}
