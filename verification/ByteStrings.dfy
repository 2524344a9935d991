/** Text as its UTF-8 bytes. */
module ByteStrings {

  type Byte = b: int | 0 <= b < 256

  type Text = seq<Byte>

  /** Text that arrives in pieces, put together again. */
  function Concat(chunks: seq<Text>): Text {
    if chunks == [] then [] else chunks[0] + Concat(chunks[1..])
  }

  lemma Associative<T>(a: seq<T>, b: seq<T>, c: seq<T>)
    ensures (a + b) + c == a + (b + c)
  {
  }
}
