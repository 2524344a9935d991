/** Byte-lexicographic order and the stable sort by a key. */
module Ordering {

  /** `str` order: lexicographic by byte. */
  predicate StringLe(a: string, b: string) {
    a == "" || (b != "" && (a[0] < b[0] || (a[0] == b[0] && StringLe(a[1..], b[1..]))))
  }

  /** A tuple of texts, compared from the left. */
  type Key = seq<string>

  predicate KeyLe(a: Key, b: Key) {
    a == [] || (b != [] && ((a[0] != b[0] && StringLe(a[0], b[0])) || (a[0] == b[0] && KeyLe(a[1..], b[1..]))))
  }

  predicate KeyLt(a: Key, b: Key) {
    !KeyLe(b, a)
  }

  // ---------------------------------------------------------------- what the orders are

  /** At the first place where two sequences part, the one ends or `less` decides. */
  ghost predicate Lexicographic<T(!new)>(a: seq<T>, b: seq<T>, less: (T, T) -> bool) {
    exists k :: PartsAt(a, b, less, k)
  }

  /** The sequences part at `k`. */
  ghost predicate PartsAt<T(!new)>(a: seq<T>, b: seq<T>, less: (T, T) -> bool, k: int) {
    0 <= k <= |a| && k <= |b| && a[..k] == b[..k] && (k == |a| || (k < |b| && a[k] != b[k] && less(a[k], b[k])))
  }

  lemma PartsLater<T(!new)>(a: seq<T>, b: seq<T>, less: (T, T) -> bool, k: int)
    requires a != [] && b != [] && a[0] == b[0] && PartsAt(a[1..], b[1..], less, k)
    ensures PartsAt(a, b, less, k + 1)
  {
    assert a[..k + 1] == [a[0]] + a[1..][..k] && b[..k + 1] == [b[0]] + b[1..][..k];
  }

  lemma PartsSooner<T(!new)>(a: seq<T>, b: seq<T>, less: (T, T) -> bool, k: int)
    requires a != [] && b != [] && a[0] == b[0] && PartsAt(a, b, less, k)
    ensures PartsAt(a[1..], b[1..], less, k - 1)
  {
    assert k > 0;
    assert a[1..][..k - 1] == a[..k][1..] && b[1..][..k - 1] == b[..k][1..];
  }

  lemma PartsAtOnce<T(!new)>(a: seq<T>, b: seq<T>, less: (T, T) -> bool, k: int)
    requires a != [] && b != [] && a[0] != b[0] && PartsAt(a, b, less, k)
    ensures less(a[0], b[0])
  {
  }

  lemma LexicographicStep<T(!new)>(a: seq<T>, b: seq<T>, less: (T, T) -> bool)
    requires a != [] && b != []
    ensures Lexicographic(a, b, less) <==>
            if a[0] == b[0] then Lexicographic(a[1..], b[1..], less) else less(a[0], b[0])
  {
    if k :| PartsAt(a, b, less, k) {
      if a[0] == b[0] { PartsSooner(a, b, less, k); } else { PartsAtOnce(a, b, less, k); }
    }
    if a[0] == b[0] {
      if k :| PartsAt(a[1..], b[1..], less, k) { PartsLater(a, b, less, k); }
    } else if less(a[0], b[0]) {
      assert PartsAt(a, b, less, 0);
    }
  }

  /** Texts are compared by their first differing character, and a prefix comes first. */
  lemma {:induction false} StringLeIsLexicographic(a: string, b: string)
    ensures StringLe(a, b) <==> Lexicographic(a, b, (x: char, y: char) => x < y)
  {
    if a == "" {
      assert PartsAt(a, b, (x: char, y: char) => x < y, 0);
    } else if b != "" {
      LexicographicStep(a, b, (x: char, y: char) => x < y);
      StringLeIsLexicographic(a[1..], b[1..]);
    }
  }

  /** Keys are compared by their first differing text. */
  lemma {:induction false} KeyLeIsLexicographic(a: Key, b: Key)
    ensures KeyLe(a, b) <==> Lexicographic(a, b, StringLe)
  {
    if a == [] {
      assert PartsAt(a, b, StringLe, 0);
    } else if b != [] {
      LexicographicStep(a, b, StringLe);
      KeyLeIsLexicographic(a[1..], b[1..]);
    }
  }

  // ---------------------------------------------------------------- total orders

  lemma {:induction false} StringTotal(a: string, b: string)
    ensures StringLe(a, b) || StringLe(b, a)
    ensures StringLe(a, b) && StringLe(b, a) ==> a == b
  {
    if a != "" && b != "" && a[0] == b[0] {
      StringTotal(a[1..], b[1..]);
      if a[1..] == b[1..] {
        assert a == [a[0]] + a[1..] && b == [b[0]] + b[1..];
      }
    }
  }

  lemma {:induction false} StringTransitive(a: string, b: string, c: string)
    requires StringLe(a, b) && StringLe(b, c)
    ensures StringLe(a, c)
  {
    if a != "" && a[0] == b[0] == c[0] {
      StringTransitive(a[1..], b[1..], c[1..]);
    }
  }

  lemma {:induction false} StringReflexive(a: string)
    ensures StringLe(a, a)
  {
    if a != "" { StringReflexive(a[1..]); }
  }

  lemma {:induction false} KeyTotal(a: Key, b: Key)
    ensures KeyLe(a, b) || KeyLe(b, a)
    ensures KeyLe(a, b) && KeyLe(b, a) ==> a == b
  {
    if a != [] && b != [] {
      StringTotal(a[0], b[0]);
      if a[0] == b[0] {
        KeyTotal(a[1..], b[1..]);
        if a[1..] == b[1..] {
          assert a == [a[0]] + a[1..] && b == [b[0]] + b[1..];
        }
      }
    }
  }

  lemma {:induction false} KeyTransitive(a: Key, b: Key, c: Key)
    requires KeyLe(a, b) && KeyLe(b, c)
    ensures KeyLe(a, c)
  {
    if a != [] {
      if a[0] == b[0] == c[0] {
        KeyTransitive(a[1..], b[1..], c[1..]);
      } else {
        StringReflexive(a[0]);
        StringReflexive(c[0]);
        StringTransitive(a[0], b[0], c[0]);
        if a[0] == c[0] { StringTotal(a[0], b[0]); }
      }
    }
  }

  // ---------------------------------------------------------------- sorting

  function Insert<T>(key: T -> Key, x: T, s: seq<T>): seq<T> {
    if s == [] || KeyLe(key(x), key(s[0])) then [x] + s else [s[0]] + Insert(key, x, s[1..])
  }

  /** `sort_by` on the key: stable. */
  function Sort<T>(key: T -> Key, s: seq<T>): seq<T> {
    if s == [] then [] else Insert(key, s[0], Sort(key, s[1..]))
  }

  /** No element's key is below its predecessor's. */
  predicate Ascending<T>(key: T -> Key, s: seq<T>) {
    forall i :: 0 < i < |s| ==> KeyLe(key(s[i - 1]), key(s[i]))
  }

  /** `windows(2)` finds no pair out of strict order. */
  predicate StrictlyAscending<T>(key: T -> Key, s: seq<T>) {
    forall i :: 0 < i < |s| ==> KeyLt(key(s[i - 1]), key(s[i]))
  }

  predicate DistinctKeys<T>(key: T -> Key, s: seq<T>) {
    forall i, j :: 0 <= i < j < |s| ==> key(s[i]) != key(s[j])
  }

  /** Elements with equal keys are equal. */
  predicate KeyDetermines<T(==)>(key: T -> Key, s: seq<T>) {
    forall x, y :: x in s && y in s && key(x) == key(y) ==> x == y
  }

  lemma {:induction false} InsertProperties<T>(key: T -> Key, x: T, s: seq<T>)
    requires Ascending(key, s)
    ensures multiset(Insert(key, x, s)) == multiset{x} + multiset(s)
    ensures Ascending(key, Insert(key, x, s))
    ensures Insert(key, x, s) != [] && (Insert(key, x, s)[0] == x || (s != [] && Insert(key, x, s)[0] == s[0]))
  {
    if s == [] || KeyLe(key(x), key(s[0])) {
    } else {
      var tail := s[1..];
      assert Ascending(key, tail) by {
        forall i | 0 < i < |tail| ensures KeyLe(key(tail[i - 1]), key(tail[i])) {
          assert tail[i - 1] == s[i] && tail[i] == s[i + 1];
        }
      }
      InsertProperties(key, x, tail);
      KeyTotal(key(x), key(s[0]));
      assert s == [s[0]] + tail;
      AscendingCons(key, s[0], Insert(key, x, tail));
    }
  }

  lemma AscendingCons<T>(key: T -> Key, x: T, s: seq<T>)
    requires Ascending(key, s) && (s != [] ==> KeyLe(key(x), key(s[0])))
    ensures Ascending(key, [x] + s)
  {
    var r := [x] + s;
    forall i | 0 < i < |r| ensures KeyLe(key(r[i - 1]), key(r[i])) {
      assert r[i] == s[i - 1] && (i > 1 ==> r[i - 1] == s[i - 2]);
    }
  }

  lemma {:induction false} SortProperties<T>(key: T -> Key, s: seq<T>)
    ensures multiset(Sort(key, s)) == multiset(s)
    ensures Ascending(key, Sort(key, s))
    ensures |Sort(key, s)| == |s|
  {
    if s != [] {
      SortProperties(key, s[1..]);
      InsertProperties(key, s[0], Sort(key, s[1..]));
      assert s == [s[0]] + s[1..];
      assert |multiset(Sort(key, s))| == |multiset(s)|;
    }
  }

  lemma SameElements<T>(a: seq<T>, b: seq<T>)
    requires multiset(a) == multiset(b)
    ensures |a| == |b| && forall x :: x in a <==> x in b
  {
    assert |multiset(a)| == |multiset(b)|;
    forall x ensures x in a <==> x in b {
      assert x in a <==> x in multiset(a);
      assert x in b <==> x in multiset(b);
    }
  }

  lemma {:induction false} AscendingFirst<T>(key: T -> Key, s: seq<T>, i: nat)
    requires Ascending(key, s) && i < |s|
    ensures KeyLe(key(s[0]), key(s[i]))
  {
    if i == 0 {
      KeyTotal(key(s[0]), key(s[0]));
    } else {
      AscendingFirst(key, s, i - 1);
      KeyTransitive(key(s[0]), key(s[i - 1]), key(s[i]));
    }
  }

  lemma AscendingTail<T>(key: T -> Key, s: seq<T>)
    requires s != [] && Ascending(key, s)
    ensures Ascending(key, s[1..])
  {
    var tail := s[1..];
    forall i | 0 < i < |tail| ensures KeyLe(key(tail[i - 1]), key(tail[i])) {
      assert tail[i - 1] == s[i] && tail[i] == s[i + 1];
    }
  }

  lemma AscendingHeads<T>(key: T -> Key, a: seq<T>, b: seq<T>)
    requires Ascending(key, a) && Ascending(key, b) && multiset(a) == multiset(b) && KeyDetermines(key, a) && a != []
    ensures b != [] && a[0] == b[0]
  {
    SameElements(a, b);
    assert a[0] in b && b[0] in a;
    var i :| 0 <= i < |b| && b[i] == a[0];
    var j :| 0 <= j < |a| && a[j] == b[0];
    AscendingFirst(key, b, i);
    AscendingFirst(key, a, j);
    KeyTotal(key(a[0]), key(b[0]));
  }

  lemma BagTail<T>(s: seq<T>)
    requires s != []
    ensures multiset(s[1..]) == multiset(s) - multiset{s[0]}
  {
    assert s == [s[0]] + s[1..];
  }

  /** Two ascending arrangements of the same elements agree when keys determine elements. */
  lemma {:induction false} AscendingIsUnique<T>(key: T -> Key, a: seq<T>, b: seq<T>)
    requires Ascending(key, a) && Ascending(key, b) && multiset(a) == multiset(b) && KeyDetermines(key, a)
    ensures a == b
  {
    hide Ascending;
    if a == [] {
      SameElements(a, b);
    } else {
      AscendingHeads(key, a, b);
      BagTail(a);
      BagTail(b);
      AscendingTail(key, a);
      AscendingTail(key, b);
      AscendingIsUnique(key, a[1..], b[1..]);
      assert a == [a[0]] + a[1..] && b == [b[0]] + b[1..];
    }
  }

  lemma KeyDeterminesSame<T>(key: T -> Key, a: seq<T>, b: seq<T>)
    requires multiset(a) == multiset(b) && KeyDetermines(key, a)
    ensures KeyDetermines(key, b)
  {
    SameElements(a, b);
  }

  /** Sorting forgets the order it was given. */
  lemma SortIgnoresOrder<T>(key: T -> Key, a: seq<T>, b: seq<T>)
    requires multiset(a) == multiset(b) && KeyDetermines(key, a)
    ensures Sort(key, a) == Sort(key, b)
  {
    hide Sort, Ascending, KeyDetermines;
    SortProperties(key, a);
    SortProperties(key, b);
    KeyDeterminesSame(key, a, Sort(key, a));
    AscendingIsUnique(key, Sort(key, a), Sort(key, b));
  }

  // ---------------------------------------------------------------- strict order and distinct keys

  lemma StrictIsAscending<T>(key: T -> Key, s: seq<T>)
    requires StrictlyAscending(key, s)
    ensures Ascending(key, s)
  {
    forall i | 0 < i < |s| ensures KeyLe(key(s[i - 1]), key(s[i])) {
      KeyTotal(key(s[i - 1]), key(s[i]));
    }
  }

  lemma {:induction false} StrictlyBelow<T>(key: T -> Key, s: seq<T>, i: nat, j: nat)
    requires StrictlyAscending(key, s) && i < j < |s|
    ensures KeyLt(key(s[i]), key(s[j]))
  {
    if i + 1 < j {
      StrictlyBelow(key, s, i, j - 1);
      KeyTotal(key(s[i]), key(s[j - 1]));
      KeyTotal(key(s[j - 1]), key(s[j]));
      if KeyLe(key(s[j]), key(s[i])) {
        KeyTransitive(key(s[j]), key(s[i]), key(s[j - 1]));
      }
    }
  }

  /** An ascending list is strictly ascending exactly when its keys are distinct. */
  lemma StrictExactlyWhenDistinct<T>(key: T -> Key, s: seq<T>)
    requires Ascending(key, s)
    ensures StrictlyAscending(key, s) <==> DistinctKeys(key, s)
  {
    if StrictlyAscending(key, s) {
      forall i, j | 0 <= i < j < |s| ensures key(s[i]) != key(s[j]) {
        StrictlyBelow(key, s, i, j);
        KeyTotal(key(s[i]), key(s[i]));
      }
    } else {
      var i :| 0 < i < |s| && KeyLe(key(s[i]), key(s[i - 1]));
      KeyTotal(key(s[i]), key(s[i - 1]));
    }
  }

  /** No element occurs twice, and different elements have different keys. */
  ghost predicate DistinctBag<T(!new)>(key: T -> Key, bag: multiset<T>) {
    && (forall x :: bag[x] <= 1)
    && (forall x, y :: x in bag && y in bag && key(x) == key(y) ==> x == y)
  }

  lemma {:induction false} DistinctIsDistinctBag<T(!new)>(key: T -> Key, s: seq<T>)
    ensures DistinctKeys(key, s) <==> DistinctBag(key, multiset(s))
  {
    if s != [] {
      var tail := s[1..];
      DistinctIsDistinctBag(key, tail);
      assert s == [s[0]] + tail;
      assert multiset(s) == multiset{s[0]} + multiset(tail);
      DistinctCons(key, s[0], tail);
      BagCons(key, s[0], tail);
    }
  }

  lemma BagCons<T(!new)>(key: T -> Key, x: T, tail: seq<T>)
    ensures DistinctBag(key, multiset{x} + multiset(tail))
            <==> DistinctBag(key, multiset(tail)) && forall y :: y in tail ==> key(y) != key(x)
  {
    var bag := multiset{x} + multiset(tail);
    assert forall y :: y in multiset(tail) <==> y in tail;
    if DistinctBag(key, bag) {
      assert bag[x] <= 1;
      forall y | y in tail ensures key(y) != key(x) {
        assert y in bag && x in bag;
      }
      forall y ensures multiset(tail)[y] <= 1 { assert bag[y] <= 1; }
    }
  }

  lemma DistinctCons<T>(key: T -> Key, x: T, tail: seq<T>)
    ensures DistinctKeys(key, [x] + tail) <==> DistinctKeys(key, tail) && forall y :: y in tail ==> key(y) != key(x)
  {
    var s := [x] + tail;
    if DistinctKeys(key, s) {
      forall i, j | 0 <= i < j < |tail| ensures key(tail[i]) != key(tail[j]) {
        assert s[i + 1] == tail[i] && s[j + 1] == tail[j];
      }
      forall y | y in tail ensures key(y) != key(x) {
        var i :| 0 <= i < |tail| && tail[i] == y;
        assert s[0] == x && s[i + 1] == y;
      }
    }
  }

  /** Sorting ends in strict order exactly when the keys it was given are distinct. */
  lemma SortedStrictExactlyWhenDistinct<T(!new)>(key: T -> Key, s: seq<T>)
    ensures StrictlyAscending(key, Sort(key, s)) <==> DistinctKeys(key, s)
  {
    SortProperties(key, s);
    StrictExactlyWhenDistinct(key, Sort(key, s));
    DistinctIsDistinctBag(key, s);
    DistinctIsDistinctBag(key, Sort(key, s));
  }

  lemma DistinctKeysDetermine<T>(key: T -> Key, s: seq<T>)
    requires DistinctKeys(key, s)
    ensures KeyDetermines(key, s)
  {
  }

  /** A strictly ascending list is its own sorted form. */
  lemma SortOfStrict<T>(key: T -> Key, s: seq<T>)
    requires StrictlyAscending(key, s)
    ensures Sort(key, s) == s
  {
    StrictIsAscending(key, s);
    StrictExactlyWhenDistinct(key, s);
    DistinctKeysDetermine(key, s);
    SortProperties(key, s);
    SameElements(Sort(key, s), s);
    AscendingIsUnique(key, s, Sort(key, s));
  }
}
