/** The relay of a chunked event stream (src/proxy/server.rs, `forward_sse_chunked_http_response`). */
module SseRelay {
  import opened Bytes
  import opened ChunkCodec
  import opened ChunkRelay
  import opened Sse

  /** What is written for chunks and, if the body is complete, its end; and whether the relay succeeds. */
  datatype Relay = Relay(written: bytes, ok: bool)

  function SseRelayed<S>(r: EventRestorer<S>, s: S, buffer: bytes, chunks: seq<bytes>, complete: bool): Relay
    decreases |chunks|
  {
    if chunks == [] then
      if !complete then Relay([], false)
      else match Finished(r, s, buffer)
        case None => Relay([], false)
        case Some(tail) => Relay(Wire(tail) + LAST_CHUNK, true)
    else match Emitted(r, s, Split(buffer + chunks[0]).0)
      case None => Relay([], false)
      case Some((s1, out)) =>
        Preceding(Wire(out), SseRelayed(r, s1, Split(buffer + chunks[0]).1, chunks[1..], complete))
  }

  function Preceding(written: bytes, rest: Relay): Relay {
    rest.(written := written + rest.written)
  }

  lemma PrecedingTwice(a: bytes, b: bytes, rest: Relay)
    ensures Preceding(a, Preceding(b, rest)) == Preceding(a + b, rest)
  {
    Assoc(a, b, rest.written);
  }

  // ----- the loop

  /** What is still to be relayed of a body that goes on with `text`. */
  function Ahead<S>(r: EventRestorer<S>, s: S, buffer: bytes, text: bytes): Relay {
    SseRelayed(r, s, buffer, Decode(text).chunks, Decode(text).complete)
  }

  lemma AheadStops<S>(r: EventRestorer<S>, s: S, buffer: bytes, text: bytes)
    requires Decode(text) == Decoded([], false, [])
    ensures Ahead(r, s, buffer, text) == Relay([], false)
  {
  }

  /** One chunk. */
  lemma AheadChunk<S>(r: EventRestorer<S>, s: S, buffer: bytes, text: bytes)
    requires ChunkHead(text).Some? && ChunkHead(text).value.0 > 0
    requires HasChunk(text[ChunkHead(text).value.1..], ChunkHead(text).value.0)
    ensures var rest := text[ChunkHead(text).value.1..];
            var (chunk, later) := (rest[..ChunkHead(text).value.0], rest[ChunkHead(text).value.0 + 2..]);
            Ahead(r, s, buffer, text)
            == match Emitted(r, s, Split(buffer + chunk).0)
               case None => Relay([], false)
               case Some((s1, out)) => Preceding(Wire(out), Ahead(r, s1, Split(buffer + chunk).1, later))
  {
    hide Decode, Emitted, Split, Wire;
    var (len, at) := ChunkHead(text).value;
    DecodeStep(text, len, at);
    var d := Decode(text[at..][len + 2..]);
    assert ([text[at..][..len]] + d.chunks)[1..] == d.chunks;
  }

  lemma AheadEnd<S>(r: EventRestorer<S>, s: S, buffer: bytes, text: bytes)
    requires Decode(text).chunks == []
    ensures Ahead(r, s, buffer, text)
         == if !Decode(text).complete then Relay([], false)
            else match Finished(r, s, buffer)
              case None => Relay([], false)
              case Some(tail) => Relay(Wire(tail) + LAST_CHUNK, true)
  {
  }

  /** The loop over the chunks. A refused event ends it, as a broken chunk does. */
  method SseRelayLoop<S>(client: Client, upstream: ChunkReader, restorer: SseStreamRestorer<S>) returns (ok: bool)
    requires upstream.Valid()
    modifies client, upstream, restorer
    ensures var (s, buffer) := (old(restorer.state), old(restorer.eventBuffer));
            var relay := Ahead(restorer.restorer, s, buffer, old(upstream.Remaining()));
            ok == relay.ok && client.written == old(client.written) + relay.written
  {
    ghost var all := Ahead(restorer.restorer, restorer.state, restorer.eventBuffer, upstream.Remaining());
    ghost var out: bytes := [];
    assert client.written + [] == client.written && [] + all.written == all.written;
    hide Decode, ChunkHead, AfterTrailers, ParseChunkLen, Ahead, Preceding, Wire, Emitted, Split, Finished, Flatten;
    PrecedingNothing(all);
    while true
      invariant upstream.Valid()
      invariant all == Preceding(out, Ahead(restorer.restorer, restorer.state, restorer.eventBuffer, upstream.Remaining()))
      invariant client.written == old(client.written) + out
      decreases |upstream.Remaining()|
    {
      ghost var text := upstream.Remaining();
      DecodeCases(text);
      var line := upstream.ReadChunkLine();
      if line.None? || ParseChunkLen(line.value).None? {
        AheadStops(restorer.restorer, restorer.state, restorer.eventBuffer, text);
        PrecedingStop(out);
        return false;
      }
      var chunkLen := ParseChunkLen(line.value).value;
      if chunkLen == 0 {
        ok := SseRelayEnd(client, upstream, restorer, text, out, old(client.written));
        return;
      }
      var more, wire := SseRelayChunk(client, upstream, restorer, chunkLen, text, out, old(client.written));
      if !more {
        return false;
      }
      PrecedingTwice(out, wire, Ahead(restorer.restorer, restorer.state, restorer.eventBuffer, upstream.Remaining()));
      out := out + wire;
    }
  }

  lemma PrecedingNothing(relay: Relay)
    ensures Preceding([], relay) == relay
  {
    assert [] + relay.written == relay.written;
  }

  lemma PrecedingStop(out: bytes)
    ensures Preceding(out, Relay([], false)) == Relay(out, false)
  {
    assert out + [] == out;
  }

  /** One chunk: read, its complete events restored, and written as `wire`. */
  method SseRelayChunk<S>(client: Client, upstream: ChunkReader, restorer: SseStreamRestorer<S>, chunkLen: nat,
                          ghost text: bytes, ghost out: bytes, ghost before: bytes)
    returns (more: bool, ghost wire: bytes)
    requires upstream.Valid() && chunkLen > 0
    requires ChunkHead(text).Some? && ChunkHead(text).value.0 == chunkLen
    requires upstream.Remaining() == text[ChunkHead(text).value.1..]
    requires client.written == before + out
    modifies client, upstream, restorer
    ensures upstream.Valid()
    ensures var ahead := Ahead(restorer.restorer, old(restorer.state), old(restorer.eventBuffer), text);
            if more
            then && |upstream.Remaining()| < |text|
                 && client.written == before + (out + wire)
                 && ahead
                    == Preceding(wire, Ahead(restorer.restorer, restorer.state, restorer.eventBuffer, upstream.Remaining()))
            else Preceding(out, ahead) == Relay(out, false) && client.written == before + out
  {
    hide Decode, ChunkHead, Ahead, Preceding, Wire, Emitted, Split, Flatten;
    wire := [];
    DecodeCases(text);
    PrecedingStop(out);
    var chunk := upstream.ReadChunkData(chunkLen);
    if chunk.None? {
      AheadStops(restorer.restorer, restorer.state, restorer.eventBuffer, text);
      return false, wire;
    }
    AheadChunk(restorer.restorer, restorer.state, restorer.eventBuffer, text);
    var restored := restorer.PushChunk(chunk.value);
    if restored.None? {
      return false, wire;
    }
    client.WriteHttpChunk(restored.value);
    wire := Wire(restored.value);
    Assoc(before, out, wire);
    more := true;
  }

  /** The end: trailers, the finish, and the last chunk. */
  method SseRelayEnd<S>(client: Client, upstream: ChunkReader, restorer: SseStreamRestorer<S>,
                        ghost text: bytes, ghost out: bytes, ghost before: bytes)
    returns (ok: bool)
    requires upstream.Valid()
    requires ChunkHead(text).Some? && ChunkHead(text).value.0 == 0
    requires upstream.Remaining() == text[ChunkHead(text).value.1..]
    requires client.written == before + out
    modifies client, upstream, restorer
    ensures var relay := Preceding(out, Ahead(restorer.restorer, old(restorer.state), old(restorer.eventBuffer), text));
            ok == relay.ok && client.written == before + relay.written
  {
    hide Decode, ChunkHead, AfterTrailers, Ahead, Wire, Finished, Flatten;
    DecodeCases(text);
    AheadEnd(restorer.restorer, restorer.state, restorer.eventBuffer, text);
    PrecedingStop(out);
    ok := upstream.ReadChunkTrailers();
    if !ok {
      return;
    }
    var tail := restorer.Finish();
    if tail.None? {
      return false;
    }
    client.WriteHttpChunk(tail.value);
    client.WriteAll([48, CR, LF, CR, LF]);
    Assoc(before, out, Wire(tail.value));
    Assoc(before, out + Wire(tail.value), LAST_CHUNK);
    Assoc(out, Wire(tail.value), LAST_CHUNK);
  }

  // ----- what the body decodes to

  /** The chunks that are put out, the finish last. */
  function SseOuts<S>(r: EventRestorer<S>, s: S, buffer: bytes, chunks: seq<bytes>): Option<seq<bytes>>
    decreases |chunks|
  {
    if chunks == [] then
      match Finished(r, s, buffer)
      case None => None
      case Some(tail) => Some([tail])
    else match Emitted(r, s, Split(buffer + chunks[0]).0)
      case None => None
      case Some((s1, out)) =>
        match SseOuts(r, s1, Split(buffer + chunks[0]).1, chunks[1..])
        case None => None
        case Some(rest) => Some([out] + rest)
  }

  lemma {:induction false} OutsOfRelay<S>(r: EventRestorer<S>, s: S, buffer: bytes, chunks: seq<bytes>)
    ensures var (outs, relay) := (SseOuts(r, s, buffer, chunks), SseRelayed(r, s, buffer, chunks, true));
            && relay.ok == outs.Some?
            && (outs.Some? ==> relay.written == WireAll(outs.value) + LAST_CHUNK)
    ensures var outs := SseOuts(r, s, buffer, chunks);
            SseStream(r, s, buffer, chunks) == if outs.Some? then Some(Flatten(outs.value)) else None
    decreases |chunks|
  {
    hide Finished, Emitted, Split, Wire;
    if chunks == [] {
      match Finished(r, s, buffer) {
        case None =>
        case Some(tail) =>
          WireAllOne(tail);
          FlattenPair(tail, []);
      }
    } else {
      match Emitted(r, s, Split(buffer + chunks[0]).0) {
        case None =>
        case Some((s1, out)) =>
          var left := Split(buffer + chunks[0]).1;
          OutsOfRelay(r, s1, left, chunks[1..]);
          var outs := SseOuts(r, s1, left, chunks[1..]);
          if outs.Some? {
            assert ([out] + outs.value)[1..] == outs.value;
            Assoc(Wire(out), WireAll(outs.value), LAST_CHUNK);
          }
      }
    }
  }

  /**
   * The relay of an event stream succeeds exactly when the body is complete and no event is refused.
   * Then what it writes is well formed, has no empty chunk before its end, and decodes to the one-shot
   * restoration of the events that the upstream body decodes to.
   */
  lemma SseRelayDecodes<S>(r: EventRestorer<S>, s: S, text: bytes)
    requires var outs := SseOuts(r, s, [], Decode(text).chunks);
             outs.Some? ==> forall i :: 0 <= i < |outs.value| ==> |outs.value[i]| <= USIZE_MAX
    ensures var relay := Ahead(r, s, [], text);
            var wanted := SseOneShot(r, s, Flatten(Decode(text).chunks));
            && (relay.ok <==> Decode(text).complete && wanted.Some?)
            && (relay.ok ==>
                  var d := Decode(relay.written);
                  && d.complete && d.rest == []
                  && (forall c :: c in d.chunks ==> c != [])
                  && Flatten(d.chunks) == wanted.value)
  {
    hide Decode, SseOuts, SseOneShot, SseStream, Flatten;
    var chunks := Decode(text).chunks;
    if Decode(text).complete {
      OutsOfRelay(r, s, [], chunks);
      SseStreamIsOneShot(r, s, [], chunks);
      assert [] + Flatten(chunks) == Flatten(chunks);
      var outs := SseOuts(r, s, [], chunks);
      if outs.Some? {
        DecodeWireAll(outs.value);
        FlattenNonEmpty(outs.value);
      }
    } else {
      NeverOk(r, s, [], chunks);
    }
  }

  lemma {:induction false} NeverOk<S>(r: EventRestorer<S>, s: S, buffer: bytes, chunks: seq<bytes>)
    ensures !SseRelayed(r, s, buffer, chunks, false).ok
    decreases |chunks|
  {
    if chunks != [] {
      match Emitted(r, s, Split(buffer + chunks[0]).0) {
        case None =>
        case Some((s1, _)) => NeverOk(r, s1, Split(buffer + chunks[0]).1, chunks[1..]);
      }
    }
  }

  /** The chunks put out before the relay ends or an event is refused. */
  function SsePushed<S>(r: EventRestorer<S>, s: S, buffer: bytes, chunks: seq<bytes>): seq<bytes>
    decreases |chunks|
  {
    if chunks == [] then []
    else match Emitted(r, s, Split(buffer + chunks[0]).0)
      case None => []
      case Some((s1, out)) => [out] + SsePushed(r, s1, Split(buffer + chunks[0]).1, chunks[1..])
  }

  lemma {:induction false} FailedWrites<S>(r: EventRestorer<S>, s: S, buffer: bytes, chunks: seq<bytes>, complete: bool)
    requires !SseRelayed(r, s, buffer, chunks, complete).ok
    ensures SseRelayed(r, s, buffer, chunks, complete).written == WireAll(SsePushed(r, s, buffer, chunks))
    decreases |chunks|
  {
    hide Finished, Emitted, Split, Wire;
    if chunks != [] {
      match Emitted(r, s, Split(buffer + chunks[0]).0) {
        case None =>
        case Some((s1, out)) =>
          var left := Split(buffer + chunks[0]).1;
          FailedWrites(r, s1, left, chunks[1..], complete);
          assert ([out] + SsePushed(r, s1, left, chunks[1..]))[1..] == SsePushed(r, s1, left, chunks[1..]);
      }
    }
  }

  /** A relay that fails never closes the body it wrote: what was put out before is there, and no end. */
  lemma FailureStaysOpen<S>(r: EventRestorer<S>, s: S, text: bytes)
    requires !Ahead(r, s, [], text).ok
    requires forall out :: out in SsePushed(r, s, [], Decode(text).chunks) ==> |out| <= USIZE_MAX
    ensures Decode(Ahead(r, s, [], text).written)
         == Decoded(NonEmpty(SsePushed(r, s, [], Decode(text).chunks)), false, [])
  {
    hide Decode, SsePushed;
    FailedWrites(r, s, [], Decode(text).chunks, Decode(text).complete);
    DecodeUnfinished(SsePushed(r, s, [], Decode(text).chunks));
  }
}
