/** The bounded output log of the page: progress is updated in place, the oldest items are evicted. */
module CommandRunOutput {
  import opened ByteStrings
  import opened CommandRunClient
  import opened CommandRunView

  datatype Chunk =
    | OutputChunk(text: Text)
    | ProgressChunk(id: string, sequence: nat, message: Text, detail: Text)

  function ChunkOf(e: RunEvent): Chunk {
    match e
    case OutputEvent(_, text) => OutputChunk(text)
    case ProgressEvent(sequence, id, message, detail) => ProgressChunk(id, sequence, message, detail)
  }

  /** The bytes an item is charged: its text, or its message and detail on two lines. */
  function Size(c: Chunk): nat {
    match c
    case OutputChunk(text) => |text|
    case ProgressChunk(_, _, message, detail) => |message| + 1 + |detail|
  }

  function Total(chunks: seq<Chunk>): nat {
    if chunks == [] then 0 else Size(chunks[0]) + Total(chunks[1..])
  }

  /** Where the progress with this id is displayed, or the end. */
  function IndexOf(chunks: seq<Chunk>, id: string): (k: nat)
    ensures k <= |chunks|
    ensures k < |chunks| ==> chunks[k].ProgressChunk? && chunks[k].id == id
    ensures forall i :: 0 <= i < k ==> !(chunks[i].ProgressChunk? && chunks[i].id == id)
  {
    if chunks == [] then 0
    else if chunks[0].ProgressChunk? && chunks[0].id == id then 0
    else 1 + IndexOf(chunks[1..], id)
  }

  function Put(chunks: seq<Chunk>, e: RunEvent): seq<Chunk> {
    if e.ProgressEvent? && IndexOf(chunks, e.id) < |chunks| then chunks[IndexOf(chunks, e.id) := ChunkOf(e)]
    else chunks + [ChunkOf(e)]
  }

  function PutAll(chunks: seq<Chunk>, events: seq<RunEvent>): seq<Chunk>
    decreases |events|
  {
    if events == [] then chunks else PutAll(Put(chunks, events[0]), events[1..])
  }

  datatype Limits = Limits(bytes: nat, items: nat)

  predicate Within(chunks: seq<Chunk>, limits: Limits) {
    Total(chunks) <= limits.bytes && |chunks| <= limits.items
  }

  /** How many of the oldest items must go for the rest to be within the limits. */
  function Excess(chunks: seq<Chunk>, limits: Limits): (k: nat)
    ensures k <= |chunks| && Within(chunks[k..], limits)
    ensures forall j :: 0 <= j < k ==> !Within(chunks[j..], limits)
  {
    if Within(chunks, limits) then
      assert chunks[0..] == chunks;
      0
    else
      assert chunks != [];
      var rest := Excess(chunks[1..], limits);
      assert chunks[rest + 1..] == chunks[1..][rest..];
      assert forall j :: 0 < j <= rest ==> chunks[j..] == chunks[1..][j - 1..];
      rest + 1
  }

  datatype Log = Log(chunks: seq<Chunk>, truncated: bool)

  const EMPTY := Log([], false)

  function Appended(log: Log, limits: Limits, events: seq<RunEvent>): Log {
    var all := PutAll(log.chunks, events);
    var k := Excess(all, limits);
    Log(all[k..], log.truncated || k > 0)
  }

  // ---------------------------------------------------------------- the log in place

  class OutputItem {
    var chunk: Chunk
    var bytes: nat

    constructor (chunk: Chunk)
      ensures this.chunk == chunk && bytes == Size(chunk)
    {
      this.chunk := chunk;
      bytes := Size(chunk);
    }
  }

  predicate DistinctIds(chunks: seq<Chunk>) {
    forall i, j :: 0 <= i < j < |chunks| && chunks[i].ProgressChunk? && chunks[j].ProgressChunk? ==>
      chunks[i].id != chunks[j].id
  }

  function ChunksOf(items: seq<OutputItem>): (chunks: seq<Chunk>)
    reads items
    ensures |chunks| == |items| && forall i :: 0 <= i < |items| ==> chunks[i] == items[i].chunk
  {
    seq(|items|, i requires 0 <= i < |items| reads items => items[i].chunk)
  }

  class OutputLog {
    const limits: Limits
    var items: seq<OutputItem>
    var outputBytes: int
    var clientTruncated: bool
    var progressItems: map<string, OutputItem>

    ghost predicate Valid()
      reads this, items
    {
      && (forall i, j :: 0 <= i < j < |items| ==> items[i] != items[j])
      && (forall i :: 0 <= i < |items| ==> items[i].bytes == Size(items[i].chunk))
      && outputBytes == Total(ChunksOf(items))
      && DistinctIds(ChunksOf(items))
      && (forall id :: id in progressItems ==>
            progressItems[id] in items && progressItems[id].chunk.ProgressChunk? && progressItems[id].chunk.id == id)
      && (forall i :: 0 <= i < |items| && items[i].chunk.ProgressChunk? ==>
            items[i].chunk.id in progressItems && progressItems[items[i].chunk.id] == items[i])
    }

    ghost function Contents(): Log
      reads this, items
    {
      Log(ChunksOf(items), clientTruncated)
    }

    constructor (limits: Limits)
      ensures Valid() && Contents() == EMPTY && this.limits == limits
    {
      this.limits := limits;
      items, outputBytes, clientTruncated, progressItems := [], 0, false, map[];
    }

    method Reset()
      modifies this
      ensures Valid() && Contents() == EMPTY
    {
      items, outputBytes, clientTruncated, progressItems := [], 0, false, map[];
    }

    lemma Accounted()
      requires Valid()
      ensures outputBytes == Total(ChunksOf(items))
    {
    }

    /** An empty log is charged nothing. */
    lemma Emptied()
      requires Valid()
      ensures items == [] ==> outputBytes == 0
    {
    }

    /** Displays a new last item; `e` is not a progress that is displayed already. */
    method Display(e: RunEvent)
      requires Valid() && (e.ProgressEvent? ==> e.id !in progressItems)
      modifies this
      ensures Valid() && ChunksOf(items) == Put(old(ChunksOf(items)), e) && clientTruncated == old(clientTruncated)
      ensures |items| == old(|items|) + 1 && items[..old(|items|)] == old(items) && fresh(items[old(|items|)])
    {
      hide Total, Put, ChunksOf, Size, DistinctIds;
      ghost var before := ChunksOf(items);
      PutNew(before, e);
      TotalOfLast(before, ChunkOf(e));
      var item := new OutputItem(ChunkOf(e));
      items := items + [item];
      if e.ProgressEvent? {
        progressItems := progressItems[e.id := item];
      }
      outputBytes := outputBytes + item.bytes;
      assert ChunksOf(items) == before + [ChunkOf(e)];
    }

    /** Rewrites the displayed progress with the id of `e`. */
    method Refresh(e: RunEvent)
      requires Valid() && e.ProgressEvent? && e.id in progressItems
      modifies this, items
      ensures Valid() && ChunksOf(items) == Put(old(ChunksOf(items)), e) && clientTruncated == old(clientTruncated)
      ensures items == old(items)
    {
      hide Total, Put, ChunksOf, Size, DistinctIds;
      ghost var before := ChunksOf(items);
      var item := progressItems[e.id];
      ghost var k :| 0 <= k < |items| && items[k] == item;
      PutAt(before, e, k);
      TotalOfUpdate(before, k, ChunkOf(e));
      assert forall i :: 0 <= i < |items| && i != k ==> items[i] != item;
      outputBytes := outputBytes - item.bytes;
      item.chunk := ChunkOf(e);
      item.bytes := Size(item.chunk);
      outputBytes := outputBytes + item.bytes;
      assert ChunksOf(items) == before[k := ChunkOf(e)];
    }

    method EvictOldest()
      requires Valid() && items != []
      modifies this
      ensures Valid() && items == old(items)[1..] && clientTruncated
    {
      hide ChunksOf, Size, DistinctIds;
      ghost var before := ChunksOf(items);
      DistinctRest(before);
      var oldest := items[0];
      outputBytes := outputBytes - oldest.bytes;
      if oldest.chunk.ProgressChunk? {
        progressItems := progressItems - {oldest.chunk.id};
      }
      items := items[1..];
      clientTruncated := true;
      assert ChunksOf(items) == before[1..];
    }

    method DisplayAll(events: seq<RunEvent>)
      requires Valid()
      modifies this, items
      ensures Valid() && ChunksOf(items) == PutAll(old(ChunksOf(items)), events) && clientTruncated == old(clientTruncated)
    {
      hide Put, ChunksOf, Valid;
      ghost var start := ChunksOf(items);
      var i := 0;
      while i < |events|
        invariant i <= |events| && Valid() && clientTruncated == old(clientTruncated)
        invariant forall k :: 0 <= k < |items| ==> items[k] in old(items) || fresh(items[k])
        invariant PutAll(ChunksOf(items), events[i..]) == PutAll(start, events)
      {
        if events[i].ProgressEvent? && events[i].id in progressItems {
          Refresh(events[i]);
        } else {
          Display(events[i]);
        }
        assert events[i..][1..] == events[i + 1..];
        i := i + 1;
      }
    }

    /** Removes the oldest items until both limits hold; it never looks for an item in an empty log. */
    method Evict()
      requires Valid()
      modifies this
      ensures Valid()
      ensures var k := Excess(old(ChunksOf(items)), limits);
              Contents() == Log(old(ChunksOf(items))[k..], old(clientTruncated) || k > 0)
    {
      hide ChunksOf, Excess, Valid, Total;
      ghost var all := ChunksOf(items);
      ghost var gone := 0;
      Accounted();
      while outputBytes > limits.bytes || |items| > limits.items
        invariant Valid() && gone <= |all| && ChunksOf(items) == all[gone..]
        invariant outputBytes == Total(ChunksOf(items))
        invariant forall item :: item in items ==> item in old(items)
        invariant clientTruncated <==> old(clientTruncated) || gone > 0
        invariant forall j :: 0 <= j < gone ==> !Within(all[j..], limits)
        decreases |items|
      {
        Emptied();
        EvictOldest();
        Accounted();
        gone := gone + 1;
        assert ChunksOf(items) == all[gone..];
      }
      ExcessIs(all, limits, gone);
    }

    method Append(events: seq<RunEvent>, afterCursor: nat)
      requires Valid()
      modifies this, items
      ensures Valid() && Contents() == Appended(old(Contents()), limits, Fresh(events, afterCursor))
    {
      hide Valid, ChunksOf, PutAll, Excess, Fresh;
      DisplayAll(Fresh(events, afterCursor));
      Evict();
    }
  }

  // ---------------------------------------------------------------- accounting

  lemma {:induction false} TotalOfConcat(a: seq<Chunk>, b: seq<Chunk>)
    ensures Total(a + b) == Total(a) + Total(b)
  {
    if a == [] {
      assert a + b == b;
    } else {
      assert (a + b)[1..] == a[1..] + b;
      TotalOfConcat(a[1..], b);
    }
  }

  lemma TotalOfLast(chunks: seq<Chunk>, c: Chunk)
    ensures Total(chunks + [c]) == Total(chunks) + Size(c)
  {
    TotalOfConcat(chunks, [c]);
    assert [c][1..] == [];
  }

  lemma TotalOfUpdate(chunks: seq<Chunk>, k: nat, c: Chunk)
    requires k < |chunks|
    ensures Total(chunks[k := c]) == Total(chunks) - Size(chunks[k]) + Size(c)
  {
    var front, back := chunks[..k], chunks[k + 1..];
    assert chunks == front + ([chunks[k]] + back) && chunks[k := c] == front + ([c] + back);
    TotalOfConcat(front, [chunks[k]] + back);
    TotalOfConcat(front, [c] + back);
    assert ([chunks[k]] + back)[1..] == back && ([c] + back)[1..] == back;
  }

  lemma {:induction false} NotDisplayed(chunks: seq<Chunk>, id: string)
    requires forall c :: c in chunks && c.ProgressChunk? ==> c.id != id
    ensures IndexOf(chunks, id) == |chunks|
  {
    if chunks != [] {
      NotDisplayed(chunks[1..], id);
    }
  }

  lemma DisplayedAt(chunks: seq<Chunk>, id: string, k: nat)
    requires DistinctIds(chunks) && k < |chunks| && chunks[k].ProgressChunk? && chunks[k].id == id
    ensures IndexOf(chunks, id) == k
  {
    hide IndexOf;
  }

  lemma DistinctRest(chunks: seq<Chunk>)
    requires DistinctIds(chunks) && chunks != []
    ensures DistinctIds(chunks[1..])
    ensures chunks[0].ProgressChunk? ==> forall i :: 0 < i < |chunks| && chunks[i].ProgressChunk? ==> chunks[i].id != chunks[0].id
  {
  }

  lemma PutNew(chunks: seq<Chunk>, e: RunEvent)
    requires e.ProgressEvent? ==> forall c :: c in chunks && c.ProgressChunk? ==> c.id != e.id
    ensures Put(chunks, e) == chunks + [ChunkOf(e)]
    ensures DistinctIds(chunks) ==> DistinctIds(chunks + [ChunkOf(e)])
  {
    hide IndexOf;
    if e.ProgressEvent? { NotDisplayed(chunks, e.id); }
  }

  lemma PutAt(chunks: seq<Chunk>, e: RunEvent, k: nat)
    requires DistinctIds(chunks) && k < |chunks| && e.ProgressEvent? && chunks[k].ProgressChunk? && chunks[k].id == e.id
    ensures Put(chunks, e) == chunks[k := ChunkOf(e)] && DistinctIds(chunks[k := ChunkOf(e)])
  {
    hide IndexOf;
    DisplayedAt(chunks, e.id, k);
  }

  lemma ExcessIs(chunks: seq<Chunk>, limits: Limits, k: nat)
    requires k <= |chunks| && Within(chunks[k..], limits)
    requires forall j :: 0 <= j < k ==> !Within(chunks[j..], limits)
    ensures Excess(chunks, limits) == k
  {
    var least := Excess(chunks, limits);
    assert Within(chunks[least..], limits);
    assert !(k < least);
  }

  // ---------------------------------------------------------------- everything appended since a reset

  /** The log after the batches received since a reset; each batch ends with an eviction. */
  function LogAfter(limits: Limits, batches: seq<seq<RunEvent>>): Log {
    if batches == [] then EMPTY
    else Appended(LogAfter(limits, batches[..|batches| - 1]), limits, batches[|batches| - 1])
  }

  function Received(batches: seq<seq<RunEvent>>): seq<RunEvent> {
    if batches == [] then [] else Received(batches[..|batches| - 1]) + batches[|batches| - 1]
  }

  /** What an unbounded log would display. */
  function Unbounded(batches: seq<seq<RunEvent>>): seq<Chunk> {
    PutAll([], Received(batches))
  }

  lemma {:induction false} PutAllConcat(chunks: seq<Chunk>, a: seq<RunEvent>, b: seq<RunEvent>)
    ensures PutAll(chunks, a + b) == PutAll(PutAll(chunks, a), b)
    decreases |a|
  {
    hide Put;
    if a == [] {
      assert a + b == b;
    } else {
      assert (a + b)[1..] == a[1..] + b;
      PutAllConcat(Put(chunks, a[0]), a[1..], b);
    }
  }

  /**
   The truncation mark is set exactly when what an unbounded log would display was beyond a limit after
   some batch since the reset; until then the log displays everything.
   */
  lemma {:induction false} TruncatedExactlyWhen(limits: Limits, batches: seq<seq<RunEvent>>)
    ensures !LogAfter(limits, batches).truncated <==>
            forall n :: 0 <= n <= |batches| ==> Within(Unbounded(batches[..n]), limits)
    ensures !LogAfter(limits, batches).truncated ==> LogAfter(limits, batches).chunks == Unbounded(batches)
  {
    hide PutAll, Excess, Within;
    if batches == [] {
      assert batches[..0] == [];
      EmptyFits(limits);
    } else {
      var m := |batches| - 1;
      var front := batches[..m];
      TruncatedExactlyWhen(limits, front);
      assert forall n :: 0 <= n <= m ==> batches[..n] == front[..n];
      assert batches[..m + 1] == batches && front[..m] == front;
      PutAllConcat([], Received(front), batches[m]);
      if !LogAfter(limits, front).truncated {
        NoExcessExactlyWhen(Unbounded(batches), limits);
      }
    }
  }

  lemma EmptyFits(limits: Limits)
    ensures PutAll([], []) == [] && Within([], limits)
  {
  }

  lemma NoExcessExactlyWhen(chunks: seq<Chunk>, limits: Limits)
    ensures Excess(chunks, limits) == 0 <==> Within(chunks, limits)
    ensures chunks[0..] == chunks
  {
  }

  /** The output texts of a list, in order. */
  function Texts(chunks: seq<Chunk>): seq<Text> {
    if chunks == [] then []
    else (if chunks[0].OutputChunk? then [chunks[0].text] else []) + Texts(chunks[1..])
  }

  function TextsOf(events: seq<RunEvent>): seq<Text> {
    if events == [] then []
    else TextsOf(events[..|events| - 1])
         + (if events[|events| - 1].OutputEvent? then [events[|events| - 1].text] else [])
  }

  lemma {:induction false} TextsConcat(a: seq<Chunk>, b: seq<Chunk>)
    ensures Texts(a + b) == Texts(a) + Texts(b)
  {
    if a == [] {
      assert a + b == b;
    } else {
      assert (a + b)[1..] == a[1..] + b;
      TextsConcat(a[1..], b);
      Associative(if a[0].OutputChunk? then [a[0].text] else [], Texts(a[1..]), Texts(b));
    }
  }

  lemma TextsOfPut(chunks: seq<Chunk>, e: RunEvent)
    ensures Texts(Put(chunks, e)) == Texts(chunks) + (if e.OutputEvent? then [e.text] else [])
  {
    hide IndexOf, Texts;
    if e.ProgressEvent? && IndexOf(chunks, e.id) < |chunks| {
      var k := IndexOf(chunks, e.id);
      var front, back := chunks[..k], chunks[k + 1..];
      assert chunks == front + ([chunks[k]] + back) && chunks[k := ChunkOf(e)] == front + ([ChunkOf(e)] + back);
      TextsConcat(front, [chunks[k]] + back);
      TextsConcat(front, [ChunkOf(e)] + back);
      TextsConcat([chunks[k]], back);
      TextsConcat([ChunkOf(e)], back);
      TextsOfOne(chunks[k]);
    } else {
      TextsConcat(chunks, [ChunkOf(e)]);
    }
    TextsOfOne(ChunkOf(e));
  }

  lemma TextsOfOne(c: Chunk)
    ensures Texts([c]) == if c.OutputChunk? then [c.text] else []
  {
    assert [c][1..] == [];
  }

  predicate Suffix<T(==)>(a: seq<T>, b: seq<T>) {
    |a| <= |b| && a == b[|b| - |a|..]
  }

  /** Every batch displayed event by event, before its eviction. */
  lemma {:induction false} PutAllTexts(chunks: seq<Chunk>, events: seq<RunEvent>, seen: seq<RunEvent>)
    requires Suffix(Texts(chunks), TextsOf(seen))
    ensures Suffix(Texts(PutAll(chunks, events)), TextsOf(seen + events))
    decreases |events|
  {
    hide Put, Texts;
    if events == [] {
      assert seen + events == seen;
    } else {
      var next := seen + [events[0]];
      TextsOfPut(chunks, events[0]);
      assert next[..|next| - 1] == seen;
      PutAllTexts(Put(chunks, events[0]), events[1..], next);
      assert next + events[1..] == seen + events;
    }
  }

  /** The output on display is the latest part of the output received: nothing is lost in the middle. */
  lemma {:induction false} OutputIsASuffix(limits: Limits, batches: seq<seq<RunEvent>>)
    ensures Suffix(Texts(LogAfter(limits, batches).chunks), TextsOf(Received(batches)))
  {
    hide PutAll, Excess, Texts;
    if batches == [] {
      EmptyTexts();
    } else {
      var front, last := batches[..|batches| - 1], batches[|batches| - 1];
      OutputIsASuffix(limits, front);
      PutAllTexts(LogAfter(limits, front).chunks, last, Received(front));
      var all := PutAll(LogAfter(limits, front).chunks, last);
      var k := Excess(all, limits);
      TextsConcat(all[..k], all[k..]);
      assert all == all[..k] + all[k..];
    }
  }

  lemma EmptyTexts()
    ensures Texts([]) == []
  {
  }

  /** The last progress received with this id. */
  function Latest(events: seq<RunEvent>, id: string): seq<Chunk> {
    if events == [] then []
    else
      var e := events[|events| - 1];
      if e.ProgressEvent? && e.id == id then [ChunkOf(e)] else Latest(events[..|events| - 1], id)
  }

  predicate ProgressIsLatest(chunks: seq<Chunk>, events: seq<RunEvent>) {
    DistinctIds(chunks) && forall c :: c in chunks && c.ProgressChunk? ==> Latest(events, c.id) == [c]
  }

  lemma PutIsLatest(chunks: seq<Chunk>, e: RunEvent, seen: seq<RunEvent>)
    requires ProgressIsLatest(chunks, seen)
    ensures ProgressIsLatest(Put(chunks, e), seen + [e])
  {
    hide IndexOf;
    var after, next := Put(chunks, e), seen + [e];
    assert next[..|next| - 1] == seen;
    if e.ProgressEvent? {
      if IndexOf(chunks, e.id) == |chunks| {
        forall c | c in chunks && c.ProgressChunk? ensures c.id != e.id {
          var k :| 0 <= k < |chunks| && chunks[k] == c;
        }
      }
    }
  }

  lemma {:induction false} PutAllLatest(chunks: seq<Chunk>, events: seq<RunEvent>, seen: seq<RunEvent>)
    requires ProgressIsLatest(chunks, seen)
    ensures ProgressIsLatest(PutAll(chunks, events), seen + events)
    decreases |events|
  {
    hide Put, ProgressIsLatest;
    if events == [] {
      assert seen + events == seen;
    } else {
      var next := seen + [events[0]];
      PutIsLatest(chunks, events[0], seen);
      PutAllLatest(Put(chunks, events[0]), events[1..], next);
      assert next + events[1..] == seen + events;
    }
  }

  /**
   After every batch both limits hold, each progress id is displayed at most once, and what is displayed
   for it is the last progress received.
   */
  lemma {:induction false} DisplayIsCurrent(limits: Limits, batches: seq<seq<RunEvent>>)
    ensures Within(LogAfter(limits, batches).chunks, limits)
    ensures ProgressIsLatest(LogAfter(limits, batches).chunks, Received(batches))
  {
    hide PutAll, Latest;
    if batches != [] {
      var front, last := batches[..|batches| - 1], batches[|batches| - 1];
      DisplayIsCurrent(limits, front);
      PutAllLatest(LogAfter(limits, front).chunks, last, Received(front));
    }
  }

  // ---------------------------------------------------------------- what is read off the page

  /** What an item shows: its text, or its message and detail on two lines. */
  function Rendered(c: Chunk): Text {
    if c.OutputChunk? then c.text else c.message + [10] + c.detail
  }

  function RenderedAll(chunks: seq<Chunk>): Text {
    if chunks == [] then [] else RenderedAll(chunks[..|chunks| - 1]) + Rendered(chunks[|chunks| - 1])
  }

  /** What is charged is what is shown, byte for byte. */
  lemma {:induction false} ChargedAsRendered(chunks: seq<Chunk>)
    ensures Total(chunks) == |RenderedAll(chunks)|
  {
    hide Total;
    if chunks == [] {
      NothingCharged();
    } else {
      var front, last := chunks[..|chunks| - 1], chunks[|chunks| - 1];
      ChargedAsRendered(front);
      TotalOfLast(front, last);
      assert chunks == front + [last];
    }
  }

  lemma NothingCharged()
    ensures Total([]) == 0
  {
  }

  /** A log is within its limits when what is shown is no longer than the one and no more items than the other. */
  lemma WithinExactly(chunks: seq<Chunk>, limits: Limits)
    ensures Within(chunks, limits) <==> |RenderedAll(chunks)| <= limits.bytes && |chunks| <= limits.items
  {
    ChargedAsRendered(chunks);
  }

  /** No event before `k` is a progress of the same id. */
  ghost predicate FirstOfItsId(events: seq<RunEvent>, k: nat) {
    && k < |events| && events[k].ProgressEvent?
    && forall j :: 0 <= j < k && events[j].ProgressEvent? ==> events[j].id != events[k].id
  }

  ghost predicate LastOfItsId(events: seq<RunEvent>, k: nat) {
    && k < |events| && events[k].ProgressEvent?
    && forall j :: k < j < |events| && events[j].ProgressEvent? ==> events[j].id != events[k].id
  }

  /** What the item shows of the event at which it was opened. */
  ghost predicate OpenedAt(events: seq<RunEvent>, k: nat, c: Chunk) {
    && k < |events|
    && match events[k]
       case OutputEvent(_, text) => c == OutputChunk(text)
       case ProgressEvent(_, id, _, _) => FirstOfItsId(events, k) && c.ProgressChunk? && c.id == id
  }

  /** The items stand in the order of the events that opened them, one for each output and each progress id. */
  ghost predicate InOrder(chunks: seq<Chunk>, events: seq<RunEvent>, at: seq<nat>) {
    && |at| == |chunks| && (forall i, j :: 0 <= i < j < |at| ==> at[i] < at[j])
    && (forall i :: 0 <= i < |at| ==> OpenedAt(events, at[i], chunks[i]))
    && (forall k :: 0 <= k < |events| && (events[k].OutputEvent? || FirstOfItsId(events, k)) ==> k in at)
  }

  lemma OpenedStill(events: seq<RunEvent>, e: RunEvent, k: nat, c: Chunk)
    requires OpenedAt(events, k, c)
    ensures OpenedAt(events + [e], k, c)
  {
  }

  lemma FirstStill(events: seq<RunEvent>, e: RunEvent, k: nat)
    requires k < |events| && FirstOfItsId(events + [e], k)
    ensures FirstOfItsId(events, k)
  {
    assert forall j :: 0 <= j <= k ==> (events + [e])[j] == events[j];
  }

  /** An event with a displayed id is not the first of that id. */
  lemma DisplayedIsNotFirst(events: seq<RunEvent>, e: RunEvent, k: nat)
    requires k < |events| && e.ProgressEvent? && events[k].ProgressEvent? && events[k].id == e.id
    ensures !FirstOfItsId(events + [e], |events|)
  {
    assert (events + [e])[k] == events[k];
  }

  /** Every progress received has an item of its id. */
  lemma HasItem(chunks: seq<Chunk>, events: seq<RunEvent>, at: seq<nat>, j: nat)
    requires InOrder(chunks, events, at) && j < |events| && events[j].ProgressEvent?
    ensures exists i :: 0 <= i < |chunks| && chunks[i].ProgressChunk? && chunks[i].id == events[j].id
  {
    var k := FirstWith(events, j);
    var i :| 0 <= i < |at| && at[i] == k;
    assert OpenedAt(events, at[i], chunks[i]);
  }

  lemma NewIsOpened(chunks: seq<Chunk>, events: seq<RunEvent>, at: seq<nat>, e: RunEvent)
    requires InOrder(chunks, events, at) && e.ProgressEvent? && IndexOf(chunks, e.id) == |chunks|
    ensures FirstOfItsId(events + [e], |events|)
  {
    hide IndexOf, InOrder;
    forall j | 0 <= j < |events| && events[j].ProgressEvent? ensures events[j].id != e.id {
      HasItem(chunks, events, at, j);
    }
  }

  lemma {:induction false} FirstWith(events: seq<RunEvent>, j: nat) returns (k: nat)
    requires j < |events| && events[j].ProgressEvent?
    ensures k <= j && FirstOfItsId(events, k) && events[k].id == events[j].id
    decreases j
  {
    if FirstOfItsId(events, j) {
      k := j;
    } else {
      var i :| 0 <= i < j && events[i].ProgressEvent? && events[i].id == events[j].id;
      k := FirstWith(events, i);
    }
  }

  lemma PutInOrder(chunks: seq<Chunk>, events: seq<RunEvent>, at: seq<nat>, e: RunEvent) returns (next: seq<nat>)
    requires InOrder(chunks, events, at)
    ensures InOrder(Put(chunks, e), events + [e], next)
  {
    hide IndexOf, OpenedAt, FirstOfItsId;
    forall i | 0 <= i < |at| ensures OpenedAt(events + [e], at[i], chunks[i]) && at[i] < |events| {
      OpenedStill(events, e, at[i], chunks[i]);
      OpenedWithin(events, at[i], chunks[i]);
    }
    forall k | 0 <= k < |events| && FirstOfItsId(events + [e], k) ensures FirstOfItsId(events, k) {
      FirstStill(events, e, k);
    }
    if e.ProgressEvent? && IndexOf(chunks, e.id) < |chunks| {
      var k := IndexOf(chunks, e.id);
      next := at;
      Rewritten(events, at[k], chunks[k], e);
    } else {
      next := at + [|events|];
      if e.ProgressEvent? { NewIsOpened(chunks, events, at, e); }
      JustOpened(events, e);
    }
  }

  lemma OpenedWithin(events: seq<RunEvent>, k: nat, c: Chunk)
    requires OpenedAt(events, k, c)
    ensures k < |events|
  {
  }

  lemma Rewritten(events: seq<RunEvent>, k: nat, c: Chunk, e: RunEvent)
    requires OpenedAt(events, k, c) && e.ProgressEvent? && c.ProgressChunk? && c.id == e.id
    ensures OpenedAt(events + [e], k, ChunkOf(e)) && !FirstOfItsId(events + [e], |events|)
  {
    DisplayedIsNotFirst(events, e, k);
  }

  lemma JustOpened(events: seq<RunEvent>, e: RunEvent)
    requires e.ProgressEvent? ==> FirstOfItsId(events + [e], |events|)
    ensures OpenedAt(events + [e], |events|, ChunkOf(e))
  {
  }

  lemma {:induction false} PutAllInOrder(chunks: seq<Chunk>, seen: seq<RunEvent>, at: seq<nat>, events: seq<RunEvent>)
    returns (last: seq<nat>)
    requires InOrder(chunks, seen, at)
    ensures InOrder(PutAll(chunks, events), seen + events, last)
    decreases |events|
  {
    hide Put, InOrder;
    if events == [] {
      last := at;
      assert seen + events == seen;
    } else {
      var next := PutInOrder(chunks, seen, at, events[0]);
      last := PutAllInOrder(Put(chunks, events[0]), seen + [events[0]], next, events[1..]);
      assert (seen + [events[0]]) + events[1..] == seen + events;
    }
  }

  /** An unbounded log displays one item for every output and every progress id, where it was first received. */
  lemma UnboundedInOrder(batches: seq<seq<RunEvent>>) returns (at: seq<nat>)
    ensures InOrder(Unbounded(batches), Received(batches), at)
  {
    at := PutAllInOrder([], [], [], Received(batches));
    assert [] + Received(batches) == Received(batches);
  }

  lemma {:induction false} LatestIsLast(events: seq<RunEvent>, id: string) returns (k: nat)
    requires Latest(events, id) != []
    ensures LastOfItsId(events, k) && events[k].id == id && Latest(events, id) == [ChunkOf(events[k])]
  {
    hide ChunkOf;
    var n := |events| - 1;
    var front, e := events[..n], events[n];
    if e.ProgressEvent? && e.id == id {
      k := n;
    } else {
      k := LatestIsLast(front, id);
      assert events[k] == front[k];
    }
  }

  /** Every progress on display shows the fields of the last progress received with its id. */
  lemma ProgressShowsLast(limits: Limits, batches: seq<seq<RunEvent>>, c: Chunk) returns (k: nat)
    requires c in LogAfter(limits, batches).chunks && c.ProgressChunk?
    ensures LastOfItsId(Received(batches), k)
    ensures Received(batches)[k] == ProgressEvent(c.sequence, c.id, c.message, c.detail)
  {
    hide LogAfter, Latest;
    DisplayIsCurrent(limits, batches);
    k := LatestIsLast(Received(batches), c.id);
  }
}
