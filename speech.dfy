/** Reading the synthesised speech: the handler drains Polly's `AudioStream` chunk by
    chunk with `for await` and joins the chunks with `Buffer.concat`. */
module Speech {
  import opened Outcomes

  type Byte = b: int | 0 <= b < 256
  type Bytes = seq<Byte>

  /** An audio stream as the handler reads it: the chunks it yields, in arrival order,
      and the error that breaks the stream after them, if any. */
  datatype AudioStream = AudioStream(chunks: seq<Bytes>, failure: Option<Failure>)

  /** Total number of bytes in a list of chunks. */
  function TotalLength(chunks: seq<Bytes>): nat
  {
    if chunks == [] then 0 else |chunks[0]| + TotalLength(chunks[1..])
  }

  /** `Buffer.concat`: one buffer holding the chunks back to back. */
  function Concat(chunks: seq<Bytes>): (r: Bytes)
    ensures |r| == TotalLength(chunks)
  {
    if chunks == [] then [] else chunks[0] + Concat(chunks[1..])
  }

  /** Concatenation distributes over splitting the chunk list. */
  lemma {:induction false} ConcatAppend(a: seq<Bytes>, b: seq<Bytes>)
    ensures Concat(a + b) == Concat(a) + Concat(b)
    decreases |a|
  {
    if a == [] {
      assert a + b == b;
    } else {
      assert (a + b)[1..] == a[1..] + b;
      ConcatAppend(a[1..], b);
    }
  }

  /** Order is kept: chunk `k` sits in the buffer right after the bytes of chunks 0..k-1. */
  lemma ConcatChunkAt(chunks: seq<Bytes>, k: int)
    requires 0 <= k < |chunks|
    ensures var start := |Concat(chunks[..k])|;
            start + |chunks[k]| <= |Concat(chunks)|
            && Concat(chunks)[start..start + |chunks[k]|] == chunks[k]
  {
    assert chunks == chunks[..k] + [chunks[k]] + chunks[k + 1..];
    ConcatAppend(chunks[..k] + [chunks[k]], chunks[k + 1..]);
    ConcatAppend(chunks[..k], [chunks[k]]);
    assert Concat([chunks[k]]) == chunks[k] + Concat([]);
  }

  /** Awaits the synthesiser's reply, drains its stream into `audioChunks`, then
      concatenates them. A failed request yields its error; a stream that breaks
      yields its error and none of the bytes read before the break. */
  method ReceiveSpeech(sent: Outcome<AudioStream>) returns (r: Outcome<Bytes>)
    ensures sent.Err? ==> r == Err(sent.failure)
    ensures sent.Ok? ==> (r.Ok? <==> sent.value.failure.None?)
    ensures sent.Ok? && r.Ok? ==> r.value == Concat(sent.value.chunks)
    ensures sent.Ok? && r.Err? ==> r.failure == sent.value.failure.value
  {
    if sent.Err? {
      return Err(sent.failure);
    }
    var stream := sent.value;
    var audioChunks: seq<Bytes> := [];
    var i := 0;
    while i < |stream.chunks|
      invariant 0 <= i <= |stream.chunks|
      invariant audioChunks == stream.chunks[..i]
    {
      audioChunks := audioChunks + [stream.chunks[i]];
      i := i + 1;
    }
    if stream.failure.Some? {
      return Err(stream.failure.value);
    }
    assert audioChunks == stream.chunks;
    r := Ok(Concat(audioChunks));
  }
}
