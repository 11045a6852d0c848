/** Taking values off the front of a byte string. */
module Parsing {
  import opened Bytes

  datatype Taken<T> = Taken(value: T, rest: seq<u8>)

  function TakeBytes(b: seq<u8>, n: nat): (r: Option<Taken<seq<u8>>>)
    ensures r.Some? ==> |r.value.value| == n
  {
    if |b| < n then None else Some(Taken(b[..n], b[n..]))
  }

  function TakeU32(b: seq<u8>): (r: Option<Taken<nat>>)
    ensures r.Some? ==> r.value.value < U32_LIMIT
  {
    if |b| < 4 then None else Some(Taken(U32At(b, 0), b[4..]))
  }

  function TakeWords(b: seq<u8>, n: nat): (r: Option<Taken<seq<nat>>>)
    ensures r.Some? ==> |r.value.value| == n
  {
    if |b| < 4 * n then None else Some(Taken(DecodeWords(b[..4 * n]), b[4 * n..]))
  }

  lemma TakeBytesOf(x: seq<u8>, rest: seq<u8>)
    ensures TakeBytes(x + rest, |x|) == Some(Taken(x, rest))
  {
  }

  lemma TakeU32Of(w: nat, rest: seq<u8>)
    requires w < U32_LIMIT
    ensures TakeU32(EncodeU32(w) + rest) == Some(Taken(w, rest))
  {
    U32RoundTrip([], w, rest);
    assert [] + EncodeU32(w) + rest == EncodeU32(w) + rest;
  }

  lemma TakeWordsOf(ws: seq<nat>, rest: seq<u8>)
    requires AllU32(ws)
    ensures TakeWords(EncodeWords(ws) + rest, |ws|) == Some(Taken(ws, rest))
  {
    WordsRoundTripExact(ws);
    assert (EncodeWords(ws) + rest)[..4 * |ws|] == EncodeWords(ws);
  }
}
