/**
 The one-pass reading of a complete text, and how each turn of the decoder keeps it.

 `Scan` reads the whole text once, byte by byte.  A turn agrees with it unless a cut exposes a hidden frame.
 */
module FrameScan {
  import opened ByteStrings
  import opened CommandEvent
  import opened OutputMerging
  import opened Wrappers

  // ---------------------------------------------------------------- the one-pass reading

  function RecordAtoms<P>(parse: Text -> Option<P>, record: Text): seq<Atom<P>>
    requires PrefixAt(record, 0)
  {
    EventAtoms(RecordEvent(parse, record))
  }

  /**
   The reading of a complete text: a record runs from a frame prefix through the next newline,
   an unterminated record is shown, and every byte outside a record is shown.
   */
  function Scan<P>(parse: Text -> Option<P>, s: Text): seq<Atom<P>>
    decreases |s|
  {
    if s == [] then []
    else if PrefixAt(s, 0) then
      match FindNewline(s)
      case None => Bytes(s)
      case Some(n) =>
        PrefixHasNoNewline(s, n);
        RecordAtoms(parse, s[..n + 1]) + Scan(parse, s[n + 1..])
    else [Shown(s[0])] + Scan(parse, s[1..])
  }

  /** A frame that would be accepted if reading restarted at `q` inside the record. */
  predicate FrameInside<P(==)>(parse: Text -> Option<P>, record: Text, q: nat) {
    && q < |record| && PrefixAt(record, q) && |record| - q <= MAX_FRAME_BYTES
    && (PrefixAtSuffix(record, q, 0); parse(Payload(record[q..])) != None)
  }

  /** Reading on from `c` inside the record, the first frame prefix starts an acceptable frame. */
  predicate RestartsAtFrame<P(==)>(parse: Text -> Option<P>, record: Text, c: nat) {
    && c <= |record|
    && match FindPrefixFrom(record, c)
       case None => false
       case Some(q) => FrameInside(parse, record, q)
  }

  /**
   An over-long record, with `after` bytes behind it, has a cut where the decoder gives up on it and then
   accepts a frame inside it.  A cut is counted by the bytes that are still to come.
   */
  ghost predicate HidesFrame<P>(parse: Text -> Option<P>, record: Text, after: nat, cuts: iset<nat>) {
    exists c :: MAX_FRAME_BYTES < c <= |record| && |record| - c + after in cuts && RestartsAtFrame(parse, record, c)
  }

  /** Some record of the text hides a frame from which one of the cuts takes the cover. */
  ghost predicate Exposed<P>(parse: Text -> Option<P>, s: Text, cuts: iset<nat>)
    decreases |s|
  {
    if s == [] then false
    else if PrefixAt(s, 0) then
      match FindNewline(s)
      case None => false
      case Some(n) => HidesFrame(parse, s[..n + 1], |s| - n - 1, cuts) || Exposed(parse, s[n + 1..], cuts)
    else Exposed(parse, s[1..], cuts)
  }

  /** A byte outside a record. */
  lemma ScanByte<P>(parse: Text -> Option<P>, s: Text, cuts: iset<nat>)
    requires s != [] && !PrefixAt(s, 0)
    ensures Scan(parse, s) == [Shown(s[0])] + Scan(parse, s[1..])
    ensures Exposed(parse, s, cuts) == Exposed(parse, s[1..], cuts)
  {
  }

  lemma {:induction false} ScanSkip<P>(parse: Text -> Option<P>, s: Text, m: nat, cuts: iset<nat>)
    requires m <= |s| && forall i :: 0 <= i < m ==> !PrefixAt(s, i)
    ensures Scan(parse, s) == Bytes(s[..m]) + Scan(parse, s[m..])
    ensures Exposed(parse, s, cuts) == Exposed(parse, s[m..], cuts)
    decreases m
  {
    hide Scan, Exposed, PrefixAt, Bytes;
    if m == 0 {
      assert s[0..] == s;
      NoBytes(s[..0], Scan(parse, s));
    } else {
      forall i | 0 <= i < m - 1 ensures !PrefixAt(s[1..], i) { PrefixAtSuffix(s, 1, i); }
      ScanSkip(parse, s[1..], m - 1, cuts);
      ScanByte(parse, s, cuts);
      assert s[1..][m - 1..] == s[m..];
      BytesFirst(s, m, Scan(parse, s[m..]));
    }
  }

  lemma NoBytes<P>(none: Text, rest: seq<Atom<P>>)
    requires none == []
    ensures Bytes(none) + rest == rest
  {
  }

  lemma BytesFirst<P>(s: Text, m: nat, rest: seq<Atom<P>>)
    requires 0 < m <= |s|
    ensures Bytes(s[..m]) + rest == [Shown(s[0])] + (Bytes(s[1..][..m - 1]) + rest)
  {
    assert s[..m][1..] == s[1..][..m - 1];
    Associative([Shown(s[0])], Bytes<P>(s[1..][..m - 1]), rest);
  }

  lemma ScanWithoutNewline<P>(parse: Text -> Option<P>, s: Text, cuts: iset<nat>)
    requires NEWLINE !in s
    ensures Scan(parse, s) == Bytes(s) && !Exposed(parse, s, cuts)
  {
    hide MatchesPrefix;
    match FindPrefix(s)
    case None => ScanSkip(parse, s, |s|, cuts);
    case Some(i) =>
      ScanSkip(parse, s, i, cuts);
      PrefixAtSuffix(s, i, 0);
      var tail := s[i..];
      assert NEWLINE !in tail;
      assert Scan(parse, tail) == Bytes(tail);
      assert s == s[..i] + tail;
      BytesConcat<P>(s[..i], tail);
  }

  /** A nonempty text whose only newline is its last byte. */
  predicate Line(r: Text) {
    r != [] && r[|r| - 1] == NEWLINE && forall i :: 0 <= i < |r| - 1 ==> r[i] != NEWLINE
  }

  /** In a text that starts with a record, that record is what the searches find. */
  lemma RecordFound(r: Text, u: Text)
    requires Line(r)
    requires PrefixAt(r + u, 0)
    ensures FindNewline(r + u) == Some(|r| - 1) && |r| > PREFIX_LENGTH
  {
    PrefixHasNoNewline(r + u, |r| - 1);
  }

  lemma PrefixWithin(s: Text, t: Text, i: nat)
    requires i + PREFIX_LENGTH <= |s|
    ensures PrefixAt(s + t, i) == PrefixAt(s, i)
  {
    PrefixAtTake(s + t, |s|, i);
    assert (s + t)[..|s|] == s;
  }

  lemma ScanRecord<P>(parse: Text -> Option<P>, r: Text, u: Text, cuts: iset<nat>)
    requires Line(r) && PrefixAt(r, 0)
    ensures Scan(parse, r + u) == RecordAtoms(parse, r) + Scan(parse, u)
    ensures Exposed(parse, r + u, cuts) == (HidesFrame(parse, r, |u|, cuts) || Exposed(parse, u, cuts))
  {
    hide HidesFrame;
    PrefixWithin(r, u, 0);
    RecordFound(r, u);
    assert (r + u)[..|r|] == r && (r + u)[|r|..] == u;
  }

  /** Searching from inside a text is searching its tail. */
  lemma FindPrefixInTail(s: Text, k: nat, c: nat)
    requires k + c <= |s|
    ensures FindPrefixFrom(s[k..], c)
            == match FindPrefixFrom(s, k + c) case None => None case Some(q) => Some(q - k)
    decreases |s| - k - c
  {
    PrefixAtSuffix(s, k, c);
    if k + c < |s| { FindPrefixInTail(s, k, c + 1); }
  }

  lemma FrameInTail<P>(parse: Text -> Option<P>, r: Text, k: nat, q: nat)
    requires k <= q <= |r|
    ensures FrameInside(parse, r[k..], q - k) <==> FrameInside(parse, r, q)
  {
    PrefixAtSuffix(r, k, q - k);
    if q < |r| { assert r[k..][q - k..] == r[q..]; }
  }

  lemma RestartsInTail<P>(parse: Text -> Option<P>, r: Text, k: nat, c: nat)
    requires k + c <= |r|
    ensures RestartsAtFrame(parse, r[k..], c) <==> RestartsAtFrame(parse, r, k + c)
  {
    hide FrameInside;
    FindPrefixInTail(r, k, c);
    match FindPrefixFrom(r, k + c)
    case None =>
    case Some(q) => FrameInTail(parse, r, k, q);
  }

  lemma NoPrefixOverNewline(s: Text, i: nat, n: nat)
    requires i <= n < |s| && n < i + PREFIX_LENGTH && s[n] == NEWLINE
    ensures !PrefixAt(s, i)
  {
    PrefixBytes(s, i);
    var k := n - i;
    assert FRAME_PREFIX[k] != NEWLINE && s[i + k] == NEWLINE;
  }

  /** The first place where a frame can start in a line followed by more text. */
  lemma FirstPrefixInLine(r: Text, u: Text, m: nat)
    requires Line(r) && m <= |r|
    requires forall i :: 0 <= i < m ==> !PrefixAt(r, i)
    ensures forall i :: 0 <= i < m ==> !PrefixAt(r + u, i)
  {
    forall i | 0 <= i < m ensures !PrefixAt(r + u, i) {
      if i + PREFIX_LENGTH <= |r| {
        PrefixWithin(r, u, i);
      } else {
        NoPrefixOverNewline(r + u, i, |r| - 1);
      }
    }
  }

  lemma SliceConcat(r: Text, u: Text, m: nat)
    requires m <= |r|
    ensures (r + u)[..m] == r[..m] && (r + u)[m..] == r[m..] + u && r == r[..m] + r[m..]
  {
  }

  /** The end of a record after which no frame prefix starts. */
  lemma ScanPlainTail<P>(parse: Text -> Option<P>, r: Text, u: Text, cuts: iset<nat>)
    requires Line(r) && FindPrefix(r) == None
    ensures Scan(parse, r + u) == Bytes(r) + Scan(parse, u)
    ensures Exposed(parse, r + u, cuts) == Exposed(parse, u, cuts)
  {
    FirstPrefixInLine(r, u, |r|);
    ScanSkip(parse, r + u, |r|, cuts);
    assert (r + u)[..|r|] == r && (r + u)[|r|..] == u;
  }

  lemma ScanSkipInLine<P>(parse: Text -> Option<P>, r: Text, u: Text, m: nat, cuts: iset<nat>)
    requires Line(r) && FindPrefix(r) == Some(m)
    ensures Line(r[m..]) && PrefixAt(r[m..], 0)
    ensures Scan(parse, r + u) == Bytes(r[..m]) + Scan(parse, r[m..] + u)
    ensures Exposed(parse, r + u, cuts) == Exposed(parse, r[m..] + u, cuts)
  {
    hide Scan, Exposed, MatchesPrefix;
    FirstPrefixInLine(r, u, m);
    ScanSkip(parse, r + u, m, cuts);
    SliceConcat(r, u, m);
    PrefixAtSuffix(r, m, 0);
  }

  /** The record in which reading restarts is shown, when its first frame is not acceptable. */
  lemma ScanRestart<P>(parse: Text -> Option<P>, tail: Text, u: Text, m: nat, cuts: iset<nat>)
    requires Line(tail) && FindPrefix(tail) == Some(m) && !FrameInside(parse, tail, m)
    requires !HidesFrame(parse, tail[m..], |u|, cuts)
    ensures Scan(parse, tail + u) == Bytes(tail) + Scan(parse, u)
    ensures Exposed(parse, tail + u, cuts) == Exposed(parse, u, cuts)
  {
    hide Scan, Exposed, HidesFrame, MatchesPrefix, FindNewline, Bytes;
    var skipped, record := tail[..m], tail[m..];
    ScanSkipInLine(parse, tail, u, m, cuts);
    ScanRecord(parse, record, u, cuts);
    FrameInTail(parse, tail, m, m);
    assert record[0..] == record;
    assert tail == skipped + record;
    BytesConcat<P>(skipped, record);
    Associative(Bytes<P>(skipped), Bytes<P>(record), Scan(parse, u));
  }

  // ---------------------------------------------------------------- one turn of the decoder

  lemma PrefixAcross(s: Text, t: Text, i: nat)
    requires PrefixAt(s + t, i) && i < |s| < i + PREFIX_LENGTH
    ensures EndsWith(s, FRAME_PREFIX[..|s| - i])
  {
    PrefixBytes(s + t, i);
    forall j | 0 <= j < |s| - i ensures s[i..][j] == FRAME_PREFIX[j] {
      assert (s + t)[i + j] == s[i + j];
    }
  }

  /** Output before the held-back tail cannot be the start of a frame, whatever follows. */
  lemma HeldBackEnough(s: Text, t: Text, i: nat)
    requires FindPrefix(s) == None && i < |s| - MatchingPrefixSuffix(s)
    ensures !PrefixAt(s + t, i)
  {
    if i + PREFIX_LENGTH <= |s| {
      PrefixWithin(s, t, i);
    } else if PrefixAt(s + t, i) {
      PrefixAcross(s, t, i);
      MatchingPrefixSuffixIsLongest(s);
    }
  }

  lemma OutputTurn<P>(parse: Text -> Option<P>, s: Text, t: Text, n: nat, cuts: iset<nat>)
    requires n <= |s| && forall i :: 0 <= i < n ==> !PrefixAt(s + t, i)
    ensures Bytes(s[..n]) + Scan(parse, s[n..] + t) == Scan(parse, s + t)
    ensures Exposed(parse, s[n..] + t, cuts) == Exposed(parse, s + t, cuts)
  {
    ScanSkip(parse, s + t, n, cuts);
    assert (s + t)[..n] == s[..n];
    assert (s + t)[n..] == s[n..] + t;
  }

  lemma RecordTurn<P>(parse: Text -> Option<P>, s: Text, t: Text, n: nat, cuts: iset<nat>)
    requires PrefixAt(s, 0) && n < |s| && Line(s[..n + 1])
    ensures PrefixAt(s[..n + 1], 0)
    ensures RecordAtoms(parse, s[..n + 1]) + Scan(parse, s[n + 1..] + t) == Scan(parse, s + t)
    ensures Exposed(parse, s[n + 1..] + t, cuts) ==> Exposed(parse, s + t, cuts)
  {
    PrefixHasNoNewline(s, n);
    var r, u := s[..n + 1], s[n + 1..] + t;
    assert s + t == r + u;
    ScanRecord(parse, r, u, cuts);
  }

  /** After a cut that exposes nothing in a record, no later cut exposes anything in what is left of it. */
  lemma TailHidesNothing<P>(parse: Text -> Option<P>, s: Text, tail: Text, after: nat, m: nat, cuts: iset<nat>)
    requires |s| > MAX_FRAME_BYTES && m <= |tail| && !HidesFrame(parse, s + tail, after, cuts)
    ensures !HidesFrame(parse, tail[m..], after, cuts)
  {
    hide RestartsAtFrame;
    var r, k := s + tail, |s| + m;
    assert r[k..] == tail[m..];
    if c :| MAX_FRAME_BYTES < c <= |tail[m..]| && |tail[m..]| - c + after in cuts && RestartsAtFrame(parse, tail[m..], c) {
      RestartsInTail(parse, r, k, c);
    }
  }

  lemma CutExposesNothing<P>(parse: Text -> Option<P>, s: Text, tail: Text, after: nat, m: nat, cuts: iset<nat>)
    requires |s| > MAX_FRAME_BYTES && |tail| + after in cuts && !HidesFrame(parse, s + tail, after, cuts)
    requires FindPrefix(tail) == Some(m)
    ensures !FrameInside(parse, tail, m)
  {
    hide FrameInside;
    var r := s + tail;
    assert r[|s|..] == tail;
    assert |r| - |s| + after in cuts;
    RestartsInTail(parse, r, |s|, 0);
  }

  lemma FlushInsideRecord<P>(parse: Text -> Option<P>, s: Text, tail: Text, u: Text, cuts: iset<nat>)
    requires |s| > MAX_FRAME_BYTES && tail != [] && Line(s + tail) && PrefixAt(s + tail, 0)
    requires |tail| + |u| in cuts && !Exposed(parse, (s + tail) + u, cuts)
    ensures Bytes(s) + Scan(parse, tail + u) == Scan(parse, (s + tail) + u)
    ensures !Exposed(parse, tail + u, cuts)
  {
    hide Scan, Exposed, HidesFrame, MatchesPrefix, FindNewline, Bytes, FindPrefix;
    ScanRecord(parse, s + tail, u, cuts);
    assert forall i :: 0 <= i < |tail| ==> tail[i] == (s + tail)[|s| + i];
    assert Line(tail);
    match FindPrefix(tail) {
      case None => ScanPlainTail(parse, tail, u, cuts);
      case Some(m) =>
        CutExposesNothing(parse, s, tail, |u|, m, cuts);
        TailHidesNothing(parse, s, tail, |u|, m, cuts);
        ScanRestart(parse, tail, u, m, cuts);
    }
    BytesConcat<P>(s, tail);
    Associative(Bytes<P>(s), Bytes<P>(tail), Scan(parse, u));
  }

  /** Giving up on an over-long frame is invisible unless this cut, or a later one, exposes another frame. */
  lemma FlushTurn<P>(parse: Text -> Option<P>, s: Text, t: Text, cuts: iset<nat>)
    requires PrefixAt(s, 0) && NEWLINE !in s && |s| > MAX_FRAME_BYTES
    requires |t| in cuts && !Exposed(parse, s + t, cuts)
    ensures Bytes(s) + Scan(parse, t) == Scan(parse, s + t)
    ensures !Exposed(parse, t, cuts)
  {
    hide Scan, Exposed, MatchesPrefix;
    match FindNewline(t)
    case None =>
      ScanWithoutNewline(parse, s + t, cuts);
      ScanWithoutNewline(parse, t, cuts);
      BytesConcat<P>(s, t);
    case Some(n) =>
      var tail, u := t[..n + 1], t[n + 1..];
      assert s + t == (s + tail) + u && t == tail + u;
      PrefixWithin(s, tail, 0);
      FlushInsideRecord(parse, s, tail, u, cuts);
  }

  lemma LineFound(s: Text, n: nat)
    requires FindNewline(s) == Some(n)
    ensures Line(s[..n + 1])
  {
  }

  /** A turn before the end of input keeps the meaning of everything pushed and still to be pushed. */
  lemma PushTurn<P>(parse: Text -> Option<P>, s: Text, t: Text, cuts: iset<nat>)
    requires |t| in cuts && !Exposed(parse, s + t, cuts)
    ensures var turn := NextTurn(parse, s, false);
            turn.Emit? ==>
              && EventAtoms(turn.event) + Scan(parse, turn.rest + t) == Scan(parse, s + t)
              && !Exposed(parse, turn.rest + t, cuts)
  {
    hide Scan, Exposed, RecordEvent, MatchesPrefix;
    match FindPrefix(s)
    case None =>
      var n := |s| - MatchingPrefixSuffix(s);
      forall i | 0 <= i < n ensures !PrefixAt(s + t, i) { HeldBackEnough(s, t, i); }
      OutputTurn(parse, s, t, n, cuts);
    case Some(p) =>
      if p > 0 {
        forall i | 0 <= i < p ensures !PrefixAt(s + t, i) {
          PrefixWithin(s, t, i);
        }
        OutputTurn(parse, s, t, p, cuts);
      } else {
        match FindNewline(s)
        case None =>
          if |s| > MAX_FRAME_BYTES { FlushTurn(parse, s, t, cuts); assert [] + t == t; }
        case Some(n) =>
          LineFound(s, n);
          RecordTurn(parse, s, t, n, cuts);
      }
  }

  // ---------------------------------------------------------------- draining

  lemma {:induction false} PushDrain<P>(parse: Text -> Option<P>, s: Text, t: Text, cuts: iset<nat>)
    requires |t| in cuts && !Exposed(parse, s + t, cuts)
    ensures var d := Drain(parse, s, false);
            && Atoms(d.events) + Scan(parse, d.pending + t) == Scan(parse, s + t)
            && !Exposed(parse, d.pending + t, cuts)
    decreases |s|
  {
    hide Scan, Exposed, NextTurn;
    PushTurn(parse, s, t, cuts);
    match NextTurn(parse, s, false)
    case Quiet =>
    case Emit(event, rest, more) =>
      if more {
        PushDrain(parse, rest, t, cuts);
        AtomsCons(event, Drain(parse, rest, false).events);
      } else {
        AtomsCons(event, []);
      }
  }

  lemma FinishTurn<P>(parse: Text -> Option<P>, s: Text)
    ensures var turn := NextTurn(parse, s, true);
            match turn
            case Quiet => s == []
            case Emit(event, rest, more) =>
              EventAtoms(event) + Scan(parse, rest) == Scan(parse, s) && (!more ==> rest == [])
  {
    match FindPrefix(s)
    case None => ScanSkip(parse, s, |s|, iset{});
    case Some(p) =>
      if p > 0 {
        ScanSkip(parse, s, p, iset{});
      } else {
        match FindNewline(s)
        case None =>
        case Some(n) =>
          LineFound(s, n);
          RecordTurn(parse, s, [], n, iset{});
          assert s + [] == s && s[n + 1..] + [] == s[n + 1..];
      }
  }

  /** Finishing shows everything still pending and leaves nothing. */
  lemma {:induction false} FinishDrain<P>(parse: Text -> Option<P>, s: Text)
    ensures Atoms(Drain(parse, s, true).events) == Scan(parse, s)
    ensures Drain(parse, s, true).pending == []
    decreases |s|
  {
    hide NextTurn;
    FinishTurn(parse, s);
    match NextTurn(parse, s, true)
    case Quiet =>
    case Emit(event, rest, more) =>
      if more {
        FinishDrain(parse, rest);
        AtomsCons(event, Drain(parse, rest, true).events);
      } else {
        AtomsCons(event, []);
      }
  }
}
