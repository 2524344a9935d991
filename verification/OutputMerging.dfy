/** Event lists up to merging adjacent outputs. */
module OutputMerging {
  import opened ByteStrings
  import opened CommandEvent

  /** A displayed byte, or a progress report between two bytes. */
  datatype Atom<+P> = Shown(byte: Byte) | Reported(progress: P)

  function Bytes<P>(text: Text): (atoms: seq<Atom<P>>)
    ensures |atoms| == |text|
  {
    if text == [] then [] else [Shown(text[0])] + Bytes(text[1..])
  }

  lemma {:induction false} BytesConcat<P>(a: Text, b: Text)
    ensures Bytes<P>(a + b) == Bytes<P>(a) + Bytes<P>(b)
  {
    if a == [] {
      assert a + b == b;
    } else {
      BytesConcat<P>(a[1..], b);
      assert (a + b)[1..] == a[1..] + b && (a + b)[0] == a[0];
      Associative([Shown(a[0])], Bytes<P>(a[1..]), Bytes<P>(b));
    }
  }

  lemma {:induction false} BytesAt<P>(text: Text, i: nat)
    requires i < |text|
    ensures Bytes<P>(text)[i] == Shown(text[i])
  {
    if i > 0 { BytesAt<P>(text[1..], i - 1); }
  }

  function EventAtoms<P>(event: Event<P>): seq<Atom<P>> {
    match event
    case Output(text) => Bytes(text)
    case Progress(progress) => [Reported(progress)]
  }

  /** Two event lists have the same atoms exactly when merging adjacent outputs makes them equal. */
  function Atoms<P>(events: seq<Event<P>>): seq<Atom<P>> {
    if events == [] then [] else EventAtoms(events[0]) + Atoms(events[1..])
  }

  lemma {:induction false} AtomsConcat<P>(a: seq<Event<P>>, b: seq<Event<P>>)
    ensures Atoms(a + b) == Atoms(a) + Atoms(b)
  {
    if a == [] {
      assert a + b == b;
    } else {
      AtomsConcat(a[1..], b);
      assert (a + b)[1..] == a[1..] + b && (a + b)[0] == a[0];
      Associative(EventAtoms(a[0]), Atoms(a[1..]), Atoms(b));
    }
  }

  lemma AtomsCons<P>(event: Event<P>, rest: seq<Event<P>>)
    ensures Atoms([event] + rest) == EventAtoms(event) + Atoms(rest)
  {
    assert ([event] + rest)[1..] == rest;
  }

  /** Adjacent outputs joined, empty ones dropped. */
  function Merge<P>(events: seq<Event<P>>): seq<Event<P>> {
    if events == [] then []
    else MergeInto(events[0], Merge(events[1..]))
  }

  function MergeInto<P>(event: Event<P>, merged: seq<Event<P>>): seq<Event<P>> {
    if event.Progress? then [event] + merged
    else if event.text == [] then merged
    else if merged != [] && merged[0].Output? then [Output(event.text + merged[0].text)] + merged[1..]
    else [event] + merged
  }

  /** No empty output, and no two outputs in a row. */
  predicate Merged<P(!new)>(events: seq<Event<P>>) {
    && (forall i :: 0 <= i < |events| ==> events[i] != Output([]))
    && (forall i :: 0 < i < |events| ==> events[i - 1].Progress? || events[i].Progress?)
  }

  lemma {:induction false} MergeKeepsAtoms<P(!new)>(events: seq<Event<P>>)
    ensures Atoms(Merge(events)) == Atoms(events)
    ensures Merged(Merge(events))
  {
    if events != [] {
      var merged := Merge(events[1..]);
      MergeKeepsAtoms(events[1..]);
      AtomsCons(events[0], merged);
      if events[0].Output? && merged != [] && merged[0].Output? {
        AtomsCons(Output(events[0].text + merged[0].text), merged[1..]);
        BytesConcat<P>(events[0].text, merged[0].text);
      }
    }
  }

  /** Merged event lists are determined by their atoms. */
  lemma {:induction false} MergedByAtoms<P(!new)>(a: seq<Event<P>>, b: seq<Event<P>>)
    requires Merged(a) && Merged(b) && Atoms(a) == Atoms(b)
    ensures a == b
  {
    AtomsNotEmpty(a);
    AtomsNotEmpty(b);
    if a != [] {
      MergedHead(a, b);
      assert Atoms(a[1..]) == Atoms(a)[|EventAtoms(a[0])|..];
      assert Atoms(b[1..]) == Atoms(b)[|EventAtoms(b[0])|..];
      MergedByAtoms(a[1..], b[1..]);
    }
  }

  lemma AtomsNotEmpty<P(!new)>(a: seq<Event<P>>)
    requires Merged(a)
    ensures Atoms(a) == [] <==> a == []
  {
    if a != [] {
      assert EventAtoms(a[0]) != [];
    }
  }

  lemma MergedHead<P(!new)>(a: seq<Event<P>>, b: seq<Event<P>>)
    requires a != [] && b != [] && Merged(a) && Merged(b) && Atoms(a) == Atoms(b)
    ensures a[0] == b[0]
  {
    assert Atoms(a)[0] == EventAtoms(a[0])[0];
    assert Atoms(b)[0] == EventAtoms(b[0])[0];
    if a[0].Output? && b[0].Output? {
      HeadRun(a);
      HeadRun(b);
      var n, m := |a[0].text|, |b[0].text|;
      assert n == m;
      assert a[0].text == b[0].text;
    }
  }

  /** In a merged list the leading output is the whole leading run of bytes. */
  lemma HeadRun<P(!new)>(a: seq<Event<P>>)
    requires a != [] && Merged(a) && a[0].Output?
    ensures var n := |a[0].text|;
            && n <= |Atoms(a)| && (n < |Atoms(a)| ==> Atoms(a)[n].Reported?)
            && forall i :: 0 <= i < n ==> Atoms(a)[i] == Shown(a[0].text[i])
  {
    forall i | 0 <= i < |a[0].text| ensures Atoms(a)[i] == Shown(a[0].text[i]) {
      BytesAt<P>(a[0].text, i);
    }
    if |a| > 1 {
      assert Atoms(a[1..])[0] == EventAtoms(a[1])[0];
    }
  }

  /** Equal atoms are equal events once adjacent outputs are merged. */
  lemma SameAtomsSameMerge<P(!new)>(a: seq<Event<P>>, b: seq<Event<P>>)
    ensures Atoms(a) == Atoms(b) <==> Merge(a) == Merge(b)
  {
    MergeKeepsAtoms(a);
    MergeKeepsAtoms(b);
    if Atoms(a) == Atoms(b) {
      MergedByAtoms(Merge(a), Merge(b));
    }
  }
}
