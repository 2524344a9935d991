/** What revisions hash: length-framed fields.  SHA-256 itself is a parameter. */
module Digest {
  import opened ByteStrings
  import opened Wrappers

  const REVISION_PREFIX := "sha256-"

  predicate IsSha256(value: string) {
    |value| == 64 && forall i :: 0 <= i < |value| ==> '0' <= value[i] <= '9' || 'a' <= value[i] <= 'f'
  }

  predicate IsRevision(value: string) {
    |REVISION_PREFIX| <= |value| && value[..|REVISION_PREFIX|] == REVISION_PREFIX && IsSha256(value[|REVISION_PREFIX|..])
  }

  /** The shape of a digest and of a revision, character by character. */
  lemma RevisionShape(value: string)
    ensures IsSha256(value) <==> |value| == 64 && forall c :: c in value ==> c in "0123456789abcdef"
    ensures IsRevision(value) <==> |value| == 71 && value[..7] == "sha256-" && IsSha256(value[7..])
  {
    forall c: char ensures c in "0123456789abcdef" <==> '0' <= c <= '9' || 'a' <= c <= 'f' {
      HexDigit(c);
    }
    assert (forall i :: 0 <= i < |value| ==> value[i] in "0123456789abcdef") <==> forall c :: c in value ==> c in "0123456789abcdef";
  }

  lemma HexDigit(c: char)
    ensures c in "0123456789abcdef" <==> '0' <= c <= '9' || 'a' <= c <= 'f'
  {
    var digits := "0123456789abcdef";
    if '0' <= c <= '9' {
      assert digits[c as int - 48] == c;
    } else if 'a' <= c <= 'f' {
      assert digits[c as int - 87] == c;
    }
  }

  // ---------------------------------------------------------------- framing

  const LENGTH_BYTES: nat := 8

  const MAX_U64: nat := 0xFFFF_FFFF_FFFF_FFFF

  function LittleEndian(n: nat, bytes: nat): (r: Text)
    ensures |r| == bytes
  {
    if bytes == 0 then [] else [n % 256] + LittleEndian(n / 256, bytes - 1)
  }

  function Value(bytes: Text): nat {
    if bytes == [] then 0 else bytes[0] + 256 * Value(bytes[1..])
  }

  function Pow256(bytes: nat): nat {
    if bytes == 0 then 1 else 256 * Pow256(bytes - 1)
  }

  type Field = (Text, Text)

  predicate Countable(f: Field) {
    |f.0| <= MAX_U64 && |f.1| <= MAX_U64
  }

  function Framed(s: Text): Text {
    LittleEndian(|s|, LENGTH_BYTES) + s
  }

  function Stream(fields: seq<Field>): Text {
    if fields == [] then [] else Framed(fields[0].0) + (Framed(fields[0].1) + Stream(fields[1..]))
  }

  lemma {:induction false} ValueOfLittleEndian(n: nat, bytes: nat)
    requires n < Pow256(bytes)
    ensures Value(LittleEndian(n, bytes)) == n
  {
    if bytes > 0 {
      ValueOfLittleEndian(n / 256, bytes - 1);
      assert LittleEndian(n, bytes)[1..] == LittleEndian(n / 256, bytes - 1);
    }
  }

  lemma {:induction false} ZeroBytes(bytes: nat)
    ensures forall i :: 0 <= i < bytes ==> LittleEndian(0, bytes)[i] == 0
  {
    if bytes > 0 { ZeroBytes(bytes - 1); }
  }

  /** The least significant byte comes first: a short length fills the first byte of its frame. */
  lemma ShortLengthFirst(s: Text)
    requires |s| < 256
    ensures Framed(s) == [|s|, 0, 0, 0, 0, 0, 0, 0] + s
  {
    ZeroBytes(7);
    assert LittleEndian(|s|, 8) == [|s|] + LittleEndian(0, 7);
    assert LittleEndian(0, 7) == [0, 0, 0, 0, 0, 0, 0];
  }

  lemma {:induction false} LittleEndianOfValue(bytes: Text)
    ensures LittleEndian(Value(bytes), |bytes|) == bytes && Value(bytes) < Pow256(|bytes|)
  {
    if bytes != [] {
      var rest := Value(bytes[1..]);
      LittleEndianOfValue(bytes[1..]);
      assert Value(bytes) % 256 == bytes[0] && Value(bytes) / 256 == rest;
      assert bytes == [bytes[0]] + bytes[1..];
    }
  }

  lemma EightBytes()
    ensures Pow256(LENGTH_BYTES) == MAX_U64 + 1
  {
    assert Pow256(8) == 256 * Pow256(7) && Pow256(7) == 256 * Pow256(6) && Pow256(6) == 256 * Pow256(5);
    assert Pow256(5) == 256 * Pow256(4) && Pow256(4) == 256 * Pow256(3) && Pow256(3) == 256 * Pow256(2);
    assert Pow256(2) == 256 * Pow256(1) && Pow256(1) == 256 * Pow256(0);
  }

  // ---------------------------------------------------------------- reading a stream back

  function TakeFramed(s: Text): Option<(Text, Text)> {
    if |s| < LENGTH_BYTES then None
    else
      var n := Value(s[..LENGTH_BYTES]);
      if n > |s| - LENGTH_BYTES then None else Some((s[LENGTH_BYTES..][..n], s[LENGTH_BYTES..][n..]))
  }

  function Unframed(s: Text): Option<seq<Field>>
    decreases |s|
  {
    if s == [] then Some([])
    else
      match TakeFramed(s)
      case None => None
      case Some((name, rest)) =>
        match TakeFramed(rest)
        case None => None
        case Some((value, tail)) =>
          match Unframed(tail)
          case None => None
          case Some(fields) => Some([(name, value)] + fields)
  }

  lemma TakeOfFramed(s: Text, rest: Text)
    requires |s| <= MAX_U64
    ensures TakeFramed(Framed(s) + rest) == Some((s, rest))
  {
    hide Value, LittleEndian, Pow256;
    EightBytes();
    ValueOfLittleEndian(|s|, LENGTH_BYTES);
    var whole := Framed(s) + rest;
    assert whole[..LENGTH_BYTES] == LittleEndian(|s|, LENGTH_BYTES);
    assert whole[LENGTH_BYTES..] == s + rest;
    assert (s + rest)[..|s|] == s && (s + rest)[|s|..] == rest;
  }

  lemma FramedOfTake(s: Text)
    requires TakeFramed(s).Some?
    ensures var (text, rest) := TakeFramed(s).value;
            Framed(text) + rest == s && |text| <= MAX_U64
  {
    hide Value, LittleEndian, Pow256;
    EightBytes();
    var head := s[..LENGTH_BYTES];
    LittleEndianOfValue(head);
    var (text, rest) := TakeFramed(s).value;
    assert s == head + s[LENGTH_BYTES..] && s[LENGTH_BYTES..] == text + rest;
    Associative(head, text, rest);
  }

  /** The stream of any fields is read back as exactly those fields. */
  lemma {:induction false} UnframedOfStream(fields: seq<Field>)
    requires forall f :: f in fields ==> Countable(f)
    ensures Unframed(Stream(fields)) == Some(fields)
    decreases |fields|
  {
    hide TakeFramed, Framed;
    if fields != [] {
      var first, rest := fields[0], fields[1..];
      assert first in fields;
      UnframedOfStream(rest);
      TakeOfFramed(first.0, Framed(first.1) + Stream(rest));
      TakeOfFramed(first.1, Stream(rest));
      FramedNotEmpty(first.0, Framed(first.1) + Stream(rest));
      assert fields == [(first.0, first.1)] + rest;
    }
  }

  lemma FramedNotEmpty(s: Text, rest: Text)
    ensures Framed(s) + rest != []
  {
  }

  /** Nothing else is read as fields. */
  lemma {:induction false} StreamOfUnframed(s: Text)
    requires Unframed(s).Some?
    ensures Stream(Unframed(s).value) == s && forall f :: f in Unframed(s).value ==> Countable(f)
    decreases |s|
  {
    hide TakeFramed, Framed;
    if s != [] {
      FramedOfTake(s);
      var (name, rest) := TakeFramed(s).value;
      FramedOfTake(rest);
      var (value, tail) := TakeFramed(rest).value;
      Shorter(s, name, rest);
      Shorter(rest, value, tail);
      StreamOfUnframed(tail);
      assert Unframed(s).value[1..] == Unframed(tail).value;
    }
  }

  lemma Shorter(s: Text, text: Text, rest: Text)
    requires Framed(text) + rest == s
    ensures |rest| < |s|
  {
  }

  // ---------------------------------------------------------------- the builder

  const DOMAIN: Text := [100, 111, 109, 97, 105, 110]

  class RevisionBuilder {
    /** Everything fed to the hash so far. */
    var fed: Text
    ghost var fields: seq<Field>

    ghost predicate Valid()
      reads this
    {
      fed == Stream(fields)
    }

    constructor (domain: Text)
      ensures Valid() && fields == [(DOMAIN, domain)]
    {
      fed := Framed(DOMAIN) + Framed(domain);
      fields := [(DOMAIN, domain)];
      new;
      OneField(DOMAIN, domain);
    }

    method Push(name: Text, value: Text)
      requires Valid()
      modifies this
      ensures Valid() && fields == old(fields) + [(name, value)]
    {
      StreamAppended(fields, (name, value));
      Associative(fed, LittleEndian(|name|, LENGTH_BYTES), name);
      fed := fed + LittleEndian(|name|, LENGTH_BYTES);
      fed := fed + name;
      Associative(fed, LittleEndian(|value|, LENGTH_BYTES), value);
      Associative(old(fed), Framed(name), Framed(value));
      fed := fed + LittleEndian(|value|, LENGTH_BYTES);
      fed := fed + value;
      fields := fields + [(name, value)];
    }

    method Finish(sha: Text -> string) returns (revision: string)
      requires Valid()
      ensures revision == REVISION_PREFIX + sha(Stream(fields))
    {
      revision := REVISION_PREFIX + sha(fed);
    }
  }

  lemma OneField(name: Text, value: Text)
    ensures Stream([(name, value)]) == Framed(name) + Framed(value)
  {
    hide Framed;
    assert [(name, value)][1..] == [];
    assert Framed(value) + [] == Framed(value);
  }

  lemma {:induction false} StreamAppended(fields: seq<Field>, f: Field)
    ensures Stream(fields + [f]) == Stream(fields) + (Framed(f.0) + Framed(f.1))
  {
    hide Framed;
    if fields == [] {
      assert fields + [f] == [f];
      OneField(f.0, f.1);
      assert [] + (Framed(f.0) + Framed(f.1)) == Framed(f.0) + Framed(f.1);
    } else {
      var first, rest, last := fields[0], fields[1..], Framed(f.0) + Framed(f.1);
      StreamAppended(rest, f);
      assert (fields + [f])[1..] == rest + [f];
      Associative(Framed(first.1), Stream(rest), last);
      Associative(Framed(first.0), Framed(first.1) + Stream(rest), last);
    }
  }

  /** Equal streams come from the same domain and the same named inputs in the same order. */
  lemma StreamIsInjective(a: seq<Field>, b: seq<Field>)
    requires (forall f :: f in a ==> Countable(f)) && (forall f :: f in b ==> Countable(f)) && Stream(a) == Stream(b)
    ensures a == b
  {
    hide *;
    UnframedOfStream(a);
    UnframedOfStream(b);
  }
}
