/**
 The tee on a streamed response body: the listener on the source retains chunks up to a limit while the same bytes
 go to the client, and the body is stored once, if at all, when the stream has ended.
 */
module Tee {
  import opened Prelude
  import Utf8

  datatype Chunk = Octets(octets: seq<byte>) | Characters(text: string)

  function Bytes(chunk: Chunk): seq<byte> {
    match chunk
    case Octets(octets) => octets
    case Characters(text) => Utf8.Encode(text)
  }

  /** A chunk of octets is those octets; a chunk of characters is their UTF-8 form, from which they are read back. */
  lemma ChunkBytes(octets: seq<byte>, text: string)
    ensures Bytes(Octets(octets)) == octets && Utf8.Decode(Bytes(Characters(text))) == text
  {
    Utf8.DecodeEncode(text);
  }

  function Concat(buffers: seq<seq<byte>>): seq<byte> {
    if buffers == [] then [] else buffers[0] + Concat(buffers[1..])
  }

  /** The bytes of a whole stream. */
  function Body(stream: seq<Chunk>): seq<byte> {
    if stream == [] then [] else Bytes(stream[0]) + Body(stream[1..])
  }

  /** What the listener keeps between chunks. */
  datatype Tally = Tally(chunks: seq<seq<byte>>, size: nat, overflow: bool)

  const EMPTY := Tally([], 0, false)

  /** The listener, called with the bytes of one chunk. */
  function Observe(limit: int, t: Tally, buffer: seq<byte>): Tally {
    if t.overflow then t
    else if t.size + |buffer| > limit then Tally([], t.size + |buffer|, true)
    else Tally(t.chunks + [buffer], t.size + |buffer|, false)
  }

  /** The pipeline's callback: what is handed to the store, if anything. */
  function Finished(t: Tally, clean: bool): Option<seq<byte>> {
    if clean && !t.overflow then Some(Concat(t.chunks)) else None
  }

  /** The branch for a payload that is already in memory. */
  function Buffered(limit: int, body: seq<byte>): Option<seq<byte>> {
    if |body| <= limit then Some(body) else None
  }

  /** The tally stands for the bytes `sent` so far. */
  ghost predicate Tracks(limit: int, t: Tally, sent: seq<byte>) {
    && (t.overflow ==> t.chunks == [] && |sent| > limit)
    && (!t.overflow ==> Concat(t.chunks) == sent && t.size == |sent| && (t.chunks != [] ==> |sent| <= limit))
  }

  lemma {:induction false} ConcatSnoc(buffers: seq<seq<byte>>, last: seq<byte>)
    ensures Concat(buffers + [last]) == Concat(buffers) + last
  {
    if buffers != [] {
      assert (buffers + [last])[1..] == buffers[1..] + [last];
      ConcatSnoc(buffers[1..], last);
    } else {
      assert (buffers + [last])[1..] == [];
    }
  }

  /** Every chunk keeps the tally true to the bytes sent, however the body is cut. */
  lemma ObserveTracks(limit: int, t: Tally, sent: seq<byte>, buffer: seq<byte>)
    requires Tracks(limit, t, sent)
    ensures Tracks(limit, Observe(limit, t, buffer), sent + buffer)
    ensures Observe(limit, t, buffer) != EMPTY
  {
    ConcatSnoc(t.chunks, buffer);
  }

  /** At the end the tally hands over the whole body, exactly on a clean end within the limit or of no chunk. */
  lemma StoredExactly(limit: int, t: Tally, body: seq<byte>, clean: bool)
    requires Tracks(limit, t, body)
    ensures Finished(t, clean) == if clean && (|body| <= limit || t == EMPTY) then Some(body) else None
  {
    assert !t.overflow && t.chunks == [] ==> t == EMPTY && body == [];
  }

  /** The source's listener and callback, with the variables they share; `passed` is what the client was sent. */
  class Listener {
    const limit: int
    var chunks: seq<seq<byte>>
    var size: nat
    var overflow: bool
    ghost var passed: seq<byte>

    function Tallied(): Tally
      reads this
    {
      Tally(chunks, size, overflow)
    }

    ghost predicate Valid()
      reads this
    {
      Tracks(limit, Tallied(), passed)
    }

    constructor (limit: int)
      ensures this.limit == limit && Tallied() == EMPTY
      ensures Valid() && passed == []
    {
      this.limit := limit;
      chunks, size, overflow, passed := [], 0, false, [];
    }

    method OnData(chunk: Chunk)
      requires Valid()
      modifies this
      ensures Tallied() == Observe(limit, old(Tallied()), Bytes(chunk)) != EMPTY
      ensures Valid() && passed == old(passed) + Bytes(chunk)
    {
      ObserveTracks(limit, Tallied(), passed, Bytes(chunk));
      passed := passed + Bytes(chunk);
      if overflow {
        return;
      }
      var buffer := Bytes(chunk);
      size := size + |buffer|;
      if size > limit {
        overflow := true;
        chunks := [];
      } else {
        chunks := chunks + [buffer];
      }
    }

    /** The whole of what was sent, exactly on a clean end within the limit or of no chunk. */
    method OnEnd(clean: bool) returns (stored: Option<seq<byte>>)
      requires Valid()
      ensures stored == if clean && (|passed| <= limit || Tallied() == EMPTY) then Some(passed) else None
      ensures stored == Finished(Tallied(), clean)
    {
      StoredExactly(limit, Tallied(), passed, clean);
      if clean && !overflow {
        return Some(Concat(chunks));
      }
      return None;
    }
  }

  lemma {:induction false} BodySnoc(stream: seq<Chunk>, last: Chunk)
    ensures Body(stream + [last]) == Body(stream) + Bytes(last)
  {
    if stream != [] {
      assert (stream + [last])[1..] == stream[1..] + [last];
      BodySnoc(stream[1..], last);
    } else {
      assert (stream + [last])[1..] == [];
    }
  }

  /**
   A whole stream through the tee. The client gets the source's bytes unchanged; the store gets the whole body,
   exactly when the stream ended cleanly within the limit.
   */
  method TeeStream(limit: int, stream: seq<Chunk>, clean: bool)
    returns (sent: seq<byte>, stored: Option<seq<byte>>)
    ensures sent == Body(stream)
    ensures stored == if clean && (|sent| <= limit || stream == []) then Some(sent) else None
  {
    var listener := new Listener(limit);
    sent := [];
    for i := 0 to |stream|
      invariant listener.limit == limit && fresh(listener)
      invariant sent == Body(stream[..i]) && listener.passed == sent
      invariant listener.Valid() && (listener.Tallied() == EMPTY <==> i == 0)
    {
      BodySnoc(stream[..i], stream[i]);
      assert stream[..i + 1] == stream[..i] + [stream[i]];
      listener.OnData(stream[i]);
      sent := sent + Bytes(stream[i]);
    }
    assert stream[..|stream|] == stream;
    stored := listener.OnEnd(clean);
  }

  /** The listener's calls for a whole stream. */
  function Observed(limit: int, stream: seq<Chunk>): Tally {
    if stream == [] then EMPTY
    else Observe(limit, Observed(limit, stream[..|stream| - 1]), Bytes(stream[|stream| - 1]))
  }

  /** Whatever the chunking, the tally tracks the body and never retains more than the limit. */
  lemma {:induction false} ObservedTracks(limit: int, stream: seq<Chunk>)
    ensures Tracks(limit, Observed(limit, stream), Body(stream))
    ensures Observed(limit, stream) == EMPTY <==> stream == []
    ensures |Concat(Observed(limit, stream).chunks)| <= if limit < 0 then 0 else limit
  {
    if stream != [] {
      var start, last := stream[..|stream| - 1], stream[|stream| - 1];
      assert stream == start + [last];
      ObservedTracks(limit, start);
      ObserveTracks(limit, Observed(limit, start), Body(start), Bytes(last));
      BodySnoc(start, last);
    }
  }

  /**
   A cleanly streamed body is stored exactly as the same body in one buffer would be, except that a stream of no
   chunk at all is stored even under a negative limit.
   */
  lemma TeeAgreesWithBuffered(limit: int, stream: seq<Chunk>)
    ensures Finished(Observed(limit, stream), true) == Buffered(limit, Body(stream))
      <==> !(stream == [] && limit < 0)
  {
    ObservedTracks(limit, stream);
    StoredExactly(limit, Observed(limit, stream), Body(stream), true);
  }
}
