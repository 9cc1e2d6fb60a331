/** Bytes, messages and chunked byte streams: the vocabulary shared by every component. */
module Bytes {
  newtype byte = x: int | 0 <= x < 0x100

  type Message = seq<byte>

  /** The bytes of a text in ASCII. */
  function AsciiBytes(s: string): seq<byte> {
    seq(|s|, i requires 0 <= i < |s| => (s[i] as int % 0x100) as byte)
  }

  datatype Option<+T> = None | Some(value: T)

  /** The contents of an optional slot as a sequence of at most one element. */
  function ToSeq<T>(o: Option<T>): seq<T> {
    match o
    case None => []
    case Some(x) => [x]
  }

  /** The stream that a list of chunks carries. */
  function Flatten<T>(chunks: seq<seq<T>>): seq<T> {
    if chunks == [] then [] else chunks[0] + Flatten(chunks[1..])
  }
}
