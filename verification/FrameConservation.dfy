/** The frame decoder loses and invents nothing, and holds back little. */
module FrameConservation {
  import opened ByteStrings
  import opened CommandEvent
  import opened FrameScan
  import opened FrameStream
  import opened Wrappers

  // ---------------------------------------------------------------- what is kept, and conservation

  /** What a push may leave pending: the start of a frame prefix, or a frame still short enough to end. */
  predicate Settled(pending: Text) {
    || (|pending| < PREFIX_LENGTH && pending == FRAME_PREFIX[..|pending|])
    || (PrefixAt(pending, 0) && NEWLINE !in pending && |pending| <= MAX_FRAME_BYTES)
  }

  lemma SettledTurn<P>(parse: Text -> Option<P>, s: Text)
    ensures var turn := NextTurn(parse, s, false);
            match turn
            case Quiet => Settled(s)
            case Emit(_, rest, more) => !more ==> Settled(rest)
  {
    if FindPrefix(s) == None {
      MatchingPrefixSuffixIsLongest(s);
    }
  }

  /** Whatever was pending before, a push leaves little. */
  lemma {:induction false} PushSettles<P>(parse: Text -> Option<P>, s: Text)
    ensures Settled(Drain(parse, s, false).pending)
    decreases |s|
  {
    SettledTurn(parse, s);
    match NextTurn(parse, s, false)
    case Quiet =>
    case Emit(_, rest, more) => if more { PushSettles(parse, rest); }
  }

  /** `raw` is the text that an event stands for: an output's own text, or a progress report's whole record. */
  predicate StandsFor<P(==)>(parse: Text -> Option<P>, event: Event<P>, raw: Text) {
    match event
    case Output(text) => text == raw && raw != []
    case Progress(progress) =>
      && Line(raw) && PrefixAt(raw, 0) && |raw| <= MAX_FRAME_BYTES
      && parse(Payload(raw)) == Some(progress)
  }

  predicate StandFor<P(==)>(parse: Text -> Option<P>, events: seq<Event<P>>, raws: seq<Text>) {
    && |events| == |raws|
    && (events == [] || (StandsFor(parse, events[0], raws[0]) && StandFor(parse, events[1..], raws[1..])))
  }

  lemma StandForCons<P>(parse: Text -> Option<P>, event: Event<P>, events: seq<Event<P>>, raw: Text, raws: seq<Text>)
    requires StandsFor(parse, event, raw) && StandFor(parse, events, raws)
    ensures StandFor(parse, [event] + events, [raw] + raws)
    ensures Concat([raw] + raws) == raw + Concat(raws)
  {
    assert ([event] + events)[1..] == events && ([raw] + raws)[1..] == raws;
  }

  lemma {:induction false} StandForConcat<P>(
    parse: Text -> Option<P>, a: seq<Event<P>>, ra: seq<Text>, b: seq<Event<P>>, rb: seq<Text>)
    requires StandFor(parse, a, ra) && StandFor(parse, b, rb)
    ensures StandFor(parse, a + b, ra + rb)
    ensures Concat(ra + rb) == Concat(ra) + Concat(rb)
  {
    if a == [] {
      assert a + b == b && ra + rb == rb;
    } else {
      StandForConcat(parse, a[1..], ra[1..], b, rb);
      assert (a + b)[1..] == a[1..] + b && (ra + rb)[1..] == ra[1..] + rb;
      Associative(ra[0], Concat(ra[1..]), Concat(rb));
    }
  }

  lemma RecordStandsFor<P>(parse: Text -> Option<P>, record: Text)
    requires Line(record) && PrefixAt(record, 0)
    ensures StandsFor(parse, RecordEvent(parse, record), record)
  {
  }

  lemma RecordConserves<P>(parse: Text -> Option<P>, s: Text, n: nat, raw: Text, rest: Text)
    requires FindPrefix(s) == Some(0) && FindNewline(s) == Some(n) && raw == s[..n + 1] && rest == s[n + 1..]
    ensures PrefixAt(raw, 0) && StandsFor(parse, RecordEvent(parse, raw), raw) && s == raw + rest
  {
    LineFound(s, n);
    PrefixHasNoNewline(s, n);
    RecordStandsFor(parse, raw);
  }

  lemma TurnConserves<P>(parse: Text -> Option<P>, s: Text, eof: bool) returns (raw: Text)
    ensures var turn := NextTurn(parse, s, eof);
            turn.Emit? ==> StandsFor(parse, turn.event, raw) && s == raw + turn.rest
  {
    hide MatchesPrefix, RecordEvent;
    match FindPrefix(s)
    case None =>
      var n := |s| - if eof then 0 else MatchingPrefixSuffix(s);
      raw := s[..n];
    case Some(p) =>
      if p > 0 {
        raw := s[..p];
      } else {
        match FindNewline(s)
        case None => raw := s;
        case Some(n) =>
          raw := s[..n + 1];
          RecordConserves(parse, s, n, raw, s[n + 1..]);
      }
  }

  /** Draining loses and invents nothing: the events' raw texts and the rest make up what was there. */
  lemma {:induction false} DrainConserves<P>(parse: Text -> Option<P>, s: Text, eof: bool) returns (raws: seq<Text>)
    ensures StandFor(parse, Drain(parse, s, eof).events, raws)
    ensures Concat(raws) + Drain(parse, s, eof).pending == s
    decreases |s|
  {
    var turn := NextTurn(parse, s, eof);
    var raw := TurnConserves(parse, s, eof);
    if turn.Quiet? { return []; }
    var later := [];
    if turn.more {
      later := DrainConserves(parse, turn.rest, eof);
      var rest := Drain(parse, turn.rest, eof);
      StandForCons(parse, turn.event, rest.events, raw, later);
      Associative(raw, Concat(later), rest.pending);
    } else {
      StandForCons(parse, turn.event, [], raw, []);
    }
    raws := [raw] + later;
  }

  lemma Regroup(done: Text, kept: Text, coming: Text, pending: Text, chunk: Text)
    requires done + kept == pending + chunk
    ensures done + (kept + coming) == pending + (chunk + coming)
  {
    Associative(done, kept, coming);
    Associative(pending, chunk, coming);
  }

  /** Over a whole stream, every pushed byte is in exactly one event, in order, whatever the cutting. */
  lemma {:induction false} DecodeConserves<P>(parse: Text -> Option<P>, pending: Text, chunks: seq<Text>)
    returns (raws: seq<Text>)
    ensures StandFor(parse, Decode(parse, pending, chunks), raws)
    ensures Concat(raws) == pending + Concat(chunks)
    decreases |chunks|
  {
    if chunks == [] {
      FinishDrain(parse, pending);
      raws := DrainConserves(parse, pending, true);
    } else {
      var pushed := Drain(parse, pending + chunks[0], false);
      var first := DrainConserves(parse, pending + chunks[0], false);
      var later := DecodeConserves(parse, pushed.pending, chunks[1..]);
      raws := first + later;
      StandForConcat(parse, pushed.events, first, Decode(parse, pushed.pending, chunks[1..]), later);
      Regroup(Concat(first), pushed.pending, Concat(chunks[1..]), pending, chunks[0]);
    }
  }
}
