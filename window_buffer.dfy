/**
 * `interval_data`: the chunks received from the stream since the last timer
 * tick. Each `data` event pushes a chunk; each tick concatenates the chunks
 * into one window and empties the list with `splice(0)`.
 */
module WindowBuffer {
  import opened Pcm

  /** The number of bytes in all the chunks together. */
  function TotalLength(chunks: seq<Bytes>): nat
  {
    if chunks == [] then 0 else |chunks[0]| + TotalLength(chunks[1..])
  }

  /** Buffer.concat: the chunks' bytes, one after another, in order; no byte is dropped or added. */
  function Concat(chunks: seq<Bytes>): (r: Bytes)
    ensures |r| == TotalLength(chunks)
  {
    if chunks == [] then [] else chunks[0] + Concat(chunks[1..])
  }

  /** One more chunk arriving extends the concatenation by exactly that chunk. */
  lemma {:induction false} ConcatAppend(chunks: seq<Bytes>, chunk: Bytes)
    ensures Concat(chunks + [chunk]) == Concat(chunks) + chunk
  {
    if chunks != [] {
      assert (chunks + [chunk])[1..] == chunks[1..] + [chunk];
      ConcatAppend(chunks[1..], chunk);
    }
  }

  class ChunkBuffer {
    /** The chunks received since the last snapshot, in arrival order. */
    var chunks: seq<Bytes>
    /** Every byte appended since construction, in arrival order. */
    ghost var received: Bytes
    /** Every byte handed out by snapshots so far, in order. */
    ghost var delivered: Bytes

    /** Nothing is dropped or duplicated: what was handed out, followed by what is buffered, is what was received. */
    ghost predicate Valid()
      reads this
    {
      delivered + Concat(chunks) == received
    }

    /** The bytes the next snapshot would return. */
    function Contents(): Bytes
      reads this
    {
      Concat(chunks)
    }

    constructor ()
      ensures Valid()
      ensures chunks == [] && received == [] && delivered == []
    {
      chunks := [];
      received := [];
      delivered := [];
    }

    /** The `data` handler: `interval_data.push(d)`. */
    method Append(chunk: Bytes)
      requires Valid()
      modifies this
      ensures Valid()
      ensures chunks == old(chunks) + [chunk]
      ensures Contents() == old(Contents()) + chunk
      ensures received == old(received) + chunk && delivered == old(delivered)
    {
      ConcatAppend(chunks, chunk);
      chunks := chunks + [chunk];
      received := received + chunk;
    }

    /** The timer tick: `Buffer.concat(interval_data)` followed by `interval_data.splice(0)`. */
    method Snapshot() returns (window: Bytes)
      requires Valid()
      modifies this
      ensures Valid()
      ensures window == old(Contents())
      ensures chunks == [] && Contents() == []
      ensures delivered == old(delivered) + window && received == old(received)
    {
      window := Concat(chunks);
      chunks := [];
      delivered := delivered + window;
    }
  }

  /** Two ticks with no data event between them: the second window is empty. */
  method SnapshotTwice(buffer: ChunkBuffer) returns (first: Bytes, second: Bytes)
    requires buffer.Valid()
    modifies buffer
    ensures first == old(buffer.Contents()) && second == []
    ensures buffer.Valid() && buffer.delivered == old(buffer.delivered) + first
    ensures buffer.chunks == [] && buffer.Contents() == [] && buffer.received == old(buffer.received)
  {
    first := buffer.Snapshot();
    second := buffer.Snapshot();
  }
}
