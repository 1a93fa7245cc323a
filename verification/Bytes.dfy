/** Text as the parsers and printers handle it: a sequence of bytes. */
module Bytes {

  type Byte = x: int | 0 <= x < 256

  type Text = seq<Byte>

  /** Appending piece by piece. */
  lemma Join(a: Text, b: Text, c: Text)
    ensures a + b + c == a + (b + c)
  {
  }
}
