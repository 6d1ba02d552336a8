/** Reading a fixed number of octets from the front of a stream. */
module Streams {
  import opened Bytes

  /** io.ReadFull: an empty stream is a clean end only if something was asked of it. */
  datatype Chunk = Full(data: seq<byte>, rest: seq<byte>) | AtEnd | Short

  function ReadFull(stream: seq<byte>, n: nat): Chunk {
    if n <= |stream| then Full(stream[..n], stream[n..])
    else if stream == [] then AtEnd
    else Short
  }

  lemma ReadExact(a: seq<byte>, b: seq<byte>)
    ensures ReadFull(a + b, |a|) == Full(a, b)
  {
    assert (a + b)[..|a|] == a && (a + b)[|a|..] == b;
  }
}
