/** The relay of a chunked response body (src/proxy/server.rs, `forward_chunked_http_response`). */
module ChunkRelay {
  import opened Bytes
  import opened Registry
  import opened Matcher
  import opened Restore
  import opened ChunkCodec

  // ----- reading from the upstream

  /** The upstream: bytes already read, and the blocks that later reads will yield. */
  class ChunkReader {
    var pending: bytes
    var blocks: seq<bytes>

    /** A read yields nothing only at the end. */
    ghost predicate Valid()
      reads this
    {
      forall i :: 0 <= i < |blocks| ==> blocks[i] != []
    }

    /** All bytes still to come, whatever the blocks. */
    ghost function Remaining(): bytes
      reads this
    {
      pending + Flatten(blocks)
    }

    constructor (pending: bytes, blocks: seq<bytes>)
      requires forall i :: 0 <= i < |blocks| ==> blocks[i] != []
      ensures Valid() && Remaining() == pending + Flatten(blocks)
    {
      this.pending := pending;
      this.blocks := blocks;
    }

    /** One read appended to what is pending; false at the end of the stream. */
    method Fill() returns (more: bool)
      requires Valid()
      modifies this
      ensures Valid() && Remaining() == old(Remaining())
      ensures more <==> old(blocks) != []
      ensures more ==> |blocks| == |old(blocks)| - 1
      ensures !more ==> blocks == [] && pending == Remaining()
    {
      if blocks == [] {
        assert pending + [] == pending;
        return false;
      }
      Assoc(pending, blocks[0], Flatten(blocks[1..]));
      pending := pending + blocks[0];
      blocks := blocks[1..];
      more := true;
    }

    /** `read_chunk_line`. */
    method ReadChunkLine() returns (line: Option<bytes>)
      requires Valid()
      modifies this
      ensures Valid()
      ensures match Find(old(Remaining()), CRLF)
              case None => line == None
              case Some(k) => line == Some(old(Remaining())[..k]) && Remaining() == old(Remaining())[k + 2..]
    {
      while true
        invariant Valid() && Remaining() == old(Remaining())
        decreases |blocks|
      {
        FindInPrefix(pending, Remaining(), CRLF);
        var pos := Find(pending, CRLF);
        if pos.Some? {
          var all := pending;
          line := Some(pending[..pos.value]);
          pending := pending[pos.value + 2..];
          assert (all + Flatten(blocks))[pos.value + 2..] == pending + Flatten(blocks);
          assert (all + Flatten(blocks))[..pos.value] == all[..pos.value];
          return;
        }
        var more := Fill();
        if !more {
          return None;
        }
      }
    }

    /** `read_exact_pending`. */
    method ReadExactPending(len: nat) returns (data: Option<bytes>)
      requires Valid()
      modifies this
      ensures Valid()
      ensures if len <= |old(Remaining())|
              then data == Some(old(Remaining())[..len]) && Remaining() == old(Remaining())[len..]
              else data == None
    {
      while |pending| < len
        invariant Valid() && Remaining() == old(Remaining())
        decreases |blocks|
      {
        var more := Fill();
        if !more {
          return None;
        }
      }
      ghost var all := pending;
      data := Some(pending[..len]);
      pending := pending[len..];
      assert (all + Flatten(blocks))[len..] == pending + Flatten(blocks);
      assert (all + Flatten(blocks))[..len] == all[..len];
    }

    /** The data of a chunk and the delimiter behind it. */
    method ReadChunkData(len: nat) returns (data: Option<bytes>)
      requires Valid()
      modifies this
      ensures Valid()
      ensures if HasChunk(old(Remaining()), len)
              then data == Some(old(Remaining())[..len]) && Remaining() == old(Remaining())[len + 2..]
              else data == None
    {
      data := ReadExactPending(len);
      if data.None? {
        return;
      }
      ghost var all, rest := old(Remaining()), Remaining();
      assert |rest| >= 2 ==> rest[..2] == all[len..len + 2] && rest[2..] == all[len + 2..];
      var delimiter := ReadExactPending(2);
      if delimiter.None? || delimiter.value != CRLF {
        return None;
      }
    }

    /** `read_chunk_trailers`. */
    method ReadChunkTrailers() returns (ok: bool)
      requires Valid()
      modifies this
      ensures Valid()
      ensures match AfterTrailers(old(Remaining()))
              case None => !ok
              case Some(rest) => ok && Remaining() == rest
    {
      while true
        invariant Valid() && AfterTrailers(Remaining()) == AfterTrailers(old(Remaining()))
        decreases |Remaining()|
      {
        var line := ReadChunkLine();
        if line.None? {
          return false;
        }
        if line.value == [] {
          return true;
        }
      }
    }
  }

  class Client {
    var written: bytes

    constructor ()
      ensures written == []
    {
      written := [];
    }

    method WriteAll(data: bytes)
      modifies this
      ensures written == old(written) + data
    {
      written := written + data;
    }

    method WriteHttpChunk(chunk: bytes)
      modifies this
      ensures written == old(written) + Wire(chunk)
    {
      if chunk == [] {
        assert written + [] == written;
        return;
      }
      ghost var before := written;
      WriteAll(FormatHex(|chunk|) + CRLF);
      WriteAll(chunk);
      WriteAll(CRLF);
      assert written == before + (FormatHex(|chunk|) + CRLF + chunk + CRLF);
    }
  }

  // ----- what the pushes of a list of chunks put out

  function LastBuffer(chunks: seq<bytes>, m: PlaceholderMatcher): bytes
    requires Usable(m)
  {
    if chunks == [] then []
    else PushBuffer(LastBuffer(chunks[..|chunks| - 1], m), chunks[|chunks| - 1], m, CarryLen(m))
  }

  function PushedTokens(chunks: seq<bytes>, m: PlaceholderMatcher): seq<Token>
    requires Usable(m)
  {
    if chunks == [] then []
    else
      PushedTokens(chunks[..|chunks| - 1], m)
      + PushTokens(LastBuffer(chunks[..|chunks| - 1], m), chunks[|chunks| - 1], m, CarryLen(m))
  }

  function PushOut(buffer: bytes, chunk: bytes, m: PlaceholderMatcher, es: seq<Entry>): bytes
    requires Usable(m) && KnownIds(m, es)
  {
    UntilKnown(buffer + chunk, 0, SafeEnd(buffer + chunk, CarryLen(m)), m, es);
    Render(PushTokens(buffer, chunk, m, CarryLen(m)), es)
  }

  function PushOuts(chunks: seq<bytes>, m: PlaceholderMatcher, es: seq<Entry>): seq<bytes>
    requires Usable(m) && KnownIds(m, es)
  {
    if chunks == [] then []
    else
      PushOuts(chunks[..|chunks| - 1], m, es)
      + [PushOut(LastBuffer(chunks[..|chunks| - 1], m), chunks[|chunks| - 1], m, es)]
  }

  lemma {:induction false} PushedTokensPrefix(chunks: seq<bytes>, m: PlaceholderMatcher, future: bytes)
    requires Usable(m)
    ensures Tokenize(Flatten(chunks) + future, m) == PushedTokens(chunks, m) + Tokenize(LastBuffer(chunks, m) + future, m)
    decreases |chunks|
  {
    hide Tokenize, PushTokens, PushBuffer, CarryLen;
    if chunks == [] {
      assert [] + Tokenize([] + future, m) == Tokenize([] + future, m);
    } else {
      var front, last := chunks[..|chunks| - 1], chunks[|chunks| - 1];
      assert chunks == front + [last];
      FlattenSnoc(front, last);
      Assoc(Flatten(front), last, future);
      PushedTokensPrefix(front, m, last + future);
      var buffer := LastBuffer(front, m);
      Assoc(buffer, last, future);
      PushIsPrefix(buffer, last, future, m);
      Assoc(PushedTokens(front, m), PushTokens(buffer, last, m, CarryLen(m)), Tokenize(LastBuffer(chunks, m) + future, m));
    }
  }

  lemma {:induction false} PushesRender(chunks: seq<bytes>, m: PlaceholderMatcher, es: seq<Entry>)
    requires Usable(m) && KnownIds(m, es)
    ensures Known(PushedTokens(chunks, m), es)
    ensures Render(PushedTokens(chunks, m), es) == Flatten(PushOuts(chunks, m, es))
    decreases |chunks|
  {
    if chunks != [] {
      var front, last := chunks[..|chunks| - 1], chunks[|chunks| - 1];
      PushesRender(front, m, es);
      var buffer := LastBuffer(front, m);
      UntilKnown(buffer + last, 0, SafeEnd(buffer + last, CarryLen(m)), m, es);
      hide PushTokens, Render, Known, LastBuffer;
      RenderAppend(PushedTokens(front, m), PushTokens(buffer, last, m, CarryLen(m)), es);
      FlattenSnoc(PushOuts(front, m, es), PushOut(buffer, last, m, es));
    }
  }

  /** All that is put out for some chunks, with the tail that the finish adds. */
  function Outs(chunks: seq<bytes>, m: PlaceholderMatcher, es: seq<Entry>): seq<bytes>
    requires Usable(m) && KnownIds(m, es)
  {
    PushOuts(chunks, m, es) + [Restored(LastBuffer(chunks, m), m, es)]
  }

  lemma OutsAddUp(chunks: seq<bytes>, m: PlaceholderMatcher, es: seq<Entry>)
    requires Usable(m) && KnownIds(m, es)
    ensures Flatten(Outs(chunks, m, es)) == Restored(Flatten(chunks), m, es)
  {
    var buffer := LastBuffer(chunks, m);
    PushedTokensPrefix(chunks, m, []);
    assert Flatten(chunks) + [] == Flatten(chunks) && buffer + [] == buffer;
    PushesRender(chunks, m, es);
    TokensKnown(buffer, 0, m, es);
    hide Tokens, Render, Known, LastBuffer, PushOuts;
    RenderAppend(PushedTokens(chunks, m), Tokenize(buffer, m), es);
    FlattenSnoc(PushOuts(chunks, m, es), Restored(buffer, m, es));
  }

  // ----- the relay

  /** What is written for a body: all of it when complete, the chunks read in full otherwise. */
  function RelayedBody(d: Decoded, m: PlaceholderMatcher, es: seq<Entry>): bytes
    requires Usable(m) && KnownIds(m, es)
  {
    if d.complete then WireAll(Outs(d.chunks, m, es)) + LAST_CHUNK else WireAll(PushOuts(d.chunks, m, es))
  }

  /** `done` chunks of the body `d` were relayed and `rest` is still to be read. */
  ghost predicate Midway(d: Decoded, done: seq<bytes>, rest: bytes, m: PlaceholderMatcher, es: seq<Entry>,
                         buffer: bytes, out: bytes)
  {
    && Usable(m) && KnownIds(m, es)
    && d.chunks == done + Decode(rest).chunks
    && d.complete == Decode(rest).complete
    && buffer == LastBuffer(done, m)
    && out == WireAll(PushOuts(done, m, es))
  }

  lemma RelayOne(d: Decoded, done: seq<bytes>, rest: bytes, m: PlaceholderMatcher, es: seq<Entry>,
                 buffer: bytes, out: bytes, len: nat, at: nat)
    requires Midway(d, done, rest, m, es, buffer, out)
    requires ChunkHead(rest) == Some((len, at)) && len > 0 && HasChunk(rest[at..], len)
    ensures var chunk := rest[at..][..len];
            Midway(d, done + [chunk], rest[at..][len + 2..], m, es, PushBuffer(buffer, chunk, m, CarryLen(m)),
                   out + Wire(PushOut(buffer, chunk, m, es)))
  {
    hide Decode, PushBuffer, PushOut, Wire, Flatten;
    var chunk := rest[at..][..len];
    DecodeStep(rest, len, at);
    Assoc(done, [chunk], Decode(rest[at..][len + 2..]).chunks);
    var done' := done + [chunk];
    assert done'[..|done'| - 1] == done;
    WireAllAppend(PushOuts(done, m, es), [PushOut(buffer, chunk, m, es)]);
    WireAllOne(PushOut(buffer, chunk, m, es));
  }

  lemma WireAllOne(chunk: bytes)
    ensures WireAll([chunk]) == Wire(chunk)
  {
    assert WireAll([]) == [] && |[chunk][1..]| == 0;
    assert Wire(chunk) + [] == Wire(chunk);
  }

  lemma RelayLast(d: Decoded, done: seq<bytes>, rest: bytes, m: PlaceholderMatcher, es: seq<Entry>,
                  buffer: bytes, out: bytes)
    requires Midway(d, done, rest, m, es, buffer, out)
    requires Decode(rest).chunks == []
    ensures d.complete ==> out + Wire(Restored(buffer, m, es)) + LAST_CHUNK == RelayedBody(d, m, es)
    ensures !d.complete ==> out == RelayedBody(d, m, es)
  {
    hide Wire, Decode, PushOuts, Restored, LastBuffer;
    assert done + [] == done;
    WireAllAppend(PushOuts(done, m, es), [Restored(buffer, m, es)]);
    WireAllOne(Restored(buffer, m, es));
  }

  /**
   * `forward_chunked_http_response` after the head: what is written is a function of the bytes of
   * the body alone, however the socket yields them.
   */
  method ForwardChunkedBody(client: Client, upstream: ChunkReader, registry: SecretRegistry)
    returns (ok: bool, ghost m: PlaceholderMatcher)
    requires upstream.Valid() && registry.Valid()
    modifies client, upstream
    ensures MatcherFor(m, registry.entries) && KnownIds(m, registry.entries)
    ensures ok == Decode(old(upstream.Remaining())).complete
    ensures client.written == old(client.written) + RelayedBody(Decode(old(upstream.Remaining())), m, registry.entries)
  {
    var matcher := NewMatcher(registry);
    m := matcher;
    MatcherForKnown(m, registry.keys, registry.entries);
    var restorer := new ResponseRestorer(matcher);
    ok := RelayLoop(client, upstream, registry, restorer);
  }

  /** The loop over the chunks, with a fresh restorer. */
  method RelayLoop(client: Client, upstream: ChunkReader, registry: SecretRegistry, restorer: ResponseRestorer)
    returns (ok: bool)
    requires upstream.Valid() && registry.Valid() && restorer.Valid() && restorer.buffer == []
    requires KnownIds(restorer.matcher, registry.entries)
    modifies client, upstream, restorer
    ensures ok == Decode(old(upstream.Remaining())).complete
    ensures client.written
         == old(client.written) + RelayedBody(Decode(old(upstream.Remaining())), restorer.matcher, registry.entries)
  {
    ghost var d := Decode(upstream.Remaining());
    ghost var done: seq<bytes> := [];
    ghost var out: bytes := [];
    NothingRelayed(d, upstream.Remaining(), restorer.matcher, registry.entries);
    assert client.written + [] == client.written;
    hide Decode, ChunkHead, RelayedBody, Wire, Midway, KnownIds, AfterTrailers, ParseChunkLen, PushBuffer, PushOut,
         WellFormed, IdsWith, PlaceholderMap, Usable;
    while true
      invariant upstream.Valid() && restorer.Valid() && KnownIds(restorer.matcher, registry.entries)
      invariant Midway(d, done, upstream.Remaining(), restorer.matcher, registry.entries, restorer.buffer, out)
      invariant client.written == old(client.written) + out
      decreases |upstream.Remaining()|
    {
      ghost var rest := upstream.Remaining();
      DecodeCases(rest);
      var line := upstream.ReadChunkLine();
      if line.None? || ParseChunkLen(line.value).None? {
        RelayStops(d, done, rest, restorer.matcher, registry.entries, restorer.buffer, out);
        return false;
      }
      var chunkLen := ParseChunkLen(line.value).value;
      if chunkLen == 0 {
        ok := RelayEnd(client, upstream, registry, restorer, d, done, rest, old(client.written), out);
        return;
      }
      var more, done', out' := RelayData(client, upstream, registry, restorer, chunkLen,
                                         d, done, rest, old(client.written), out);
      if !more {
        return false;
      }
      done, out := done', out';
    }
  }

  /** The data of one chunk: read, restored as far as it can be, and written. */
  method RelayData(client: Client, upstream: ChunkReader, registry: SecretRegistry, restorer: ResponseRestorer,
                   chunkLen: nat, ghost d: Decoded, ghost done: seq<bytes>, ghost rest: bytes,
                   ghost before: bytes, ghost out: bytes)
    returns (more: bool, ghost done': seq<bytes>, ghost out': bytes)
    requires upstream.Valid() && registry.Valid() && restorer.Valid() && chunkLen > 0
    requires Midway(d, done, rest, restorer.matcher, registry.entries, restorer.buffer, out)
    requires ChunkHead(rest).Some? && ChunkHead(rest).value.0 == chunkLen
    requires upstream.Remaining() == rest[ChunkHead(rest).value.1..]
    requires client.written == before + out
    modifies client, upstream, restorer
    ensures upstream.Valid() && restorer.Valid() && KnownIds(restorer.matcher, registry.entries)
    ensures more ==> |upstream.Remaining()| < |rest| && client.written == before + out'
    ensures more ==> Midway(d, done', upstream.Remaining(), restorer.matcher, registry.entries, restorer.buffer, out')
    ensures !more ==> !d.complete && client.written == before + RelayedBody(d, restorer.matcher, registry.entries)
  {
    hide Decode, ChunkHead, RelayedBody, Wire, Midway, KnownIds, PushBuffer, PushOut, WellFormed, IdsWith, PlaceholderMap,
         Usable;
    var at := ChunkHead(rest).value.1;
    done', out' := done, out;
    MidwayKnown(d, done, rest, restorer.matcher, registry.entries, restorer.buffer, out);
    DecodeCases(rest);
    var chunk := upstream.ReadChunkData(chunkLen);
    if chunk.None? {
      RelayStops(d, done, rest, restorer.matcher, registry.entries, restorer.buffer, out);
      return false, done', out';
    }
    RelayOne(d, done, rest, restorer.matcher, registry.entries, restorer.buffer, out, chunkLen, at);
    ghost var wire := Wire(PushOut(restorer.buffer, chunk.value, restorer.matcher, registry.entries));
    Assoc(before, out, wire);
    out' := out + wire;
    done' := done + [chunk.value];
    RelayChunk(client, restorer, registry, chunk.value);
    more := true;
  }

  lemma MidwayKnown(d: Decoded, done: seq<bytes>, rest: bytes, m: PlaceholderMatcher, es: seq<Entry>,
                    buffer: bytes, out: bytes)
    requires Midway(d, done, rest, m, es, buffer, out)
    ensures KnownIds(m, es)
  {
  }

  /** A chunk pushed through the restorer and written out. */
  method RelayChunk(client: Client, restorer: ResponseRestorer, registry: SecretRegistry, chunk: bytes)
    requires restorer.Valid() && registry.Valid() && KnownIds(restorer.matcher, registry.entries)
    modifies client, restorer
    ensures restorer.Valid()
    ensures restorer.buffer == PushBuffer(old(restorer.buffer), chunk, restorer.matcher, CarryLen(restorer.matcher))
    ensures client.written
         == old(client.written) + Wire(PushOut(old(restorer.buffer), chunk, restorer.matcher, registry.entries))
  {
    var text := restorer.buffer + chunk;
    UntilKnown(text, 0, SafeEnd(text, CarryLen(restorer.matcher)), restorer.matcher, registry.entries);
    var restored := restorer.PushChunk(chunk, registry);
    client.WriteHttpChunk(restored.value);
  }

  /** The end of the loop: trailers, the tail and the last chunk, after `out` was written. */
  method RelayEnd(client: Client, upstream: ChunkReader, registry: SecretRegistry, restorer: ResponseRestorer,
                  ghost d: Decoded, ghost done: seq<bytes>, ghost rest: bytes, ghost before: bytes, ghost out: bytes)
    returns (ok: bool)
    requires upstream.Valid() && registry.Valid() && restorer.Valid()
    requires Midway(d, done, rest, restorer.matcher, registry.entries, restorer.buffer, out)
    requires ChunkHead(rest).Some? && ChunkHead(rest).value.0 == 0
    requires upstream.Remaining() == rest[ChunkHead(rest).value.1..]
    requires client.written == before + out
    modifies client, upstream, restorer
    ensures KnownIds(restorer.matcher, registry.entries)
    ensures ok == d.complete
    ensures client.written == before + RelayedBody(d, restorer.matcher, registry.entries)
  {
    hide Wire, LastBuffer, PushOuts, ChunkHead, AfterTrailers;
    DecodeCases(rest);
    RelayLast(d, done, rest, restorer.matcher, registry.entries, restorer.buffer, out);
    ok := upstream.ReadChunkTrailers();
    if !ok {
      return;
    }
    TokensKnown(restorer.buffer, 0, restorer.matcher, registry.entries);
    var tail := restorer.Finish(registry);
    client.WriteHttpChunk(tail.value);
    client.WriteAll([48, CR, LF, CR, LF]);
    Assoc(before, out, Wire(tail.value));
    Assoc(before, out + Wire(tail.value), LAST_CHUNK);
  }

  lemma NothingRelayed(d: Decoded, text: bytes, m: PlaceholderMatcher, es: seq<Entry>)
    requires Usable(m) && KnownIds(m, es) && d == Decode(text)
    ensures Midway(d, [], text, m, es, [], [])
  {
    assert [] + d.chunks == d.chunks;
  }

  /** What the beginning of the rest decides about the loop. */
  lemma DecodeCases(text: bytes)
    ensures ChunkHead(text).None? ==> Decode(text) == Decoded([], false, [])
    ensures ChunkHead(text).Some?
            ==> var len, at := ChunkHead(text).value.0, ChunkHead(text).value.1;
                if len == 0 then Decode(text).chunks == [] && Decode(text).complete == AfterTrailers(text[at..]).Some?
                else !HasChunk(text[at..], len) ==> Decode(text) == Decoded([], false, [])
    ensures ChunkHead(text)
         == if Find(text, CRLF).Some? && ParseChunkLen(text[..Find(text, CRLF).value]).Some?
            then Some((ParseChunkLen(text[..Find(text, CRLF).value]).value, Find(text, CRLF).value + 2))
            else None
  {
  }

  /** Nothing more is relayed from a rest that is broken at once. */
  lemma RelayStops(d: Decoded, done: seq<bytes>, rest: bytes, m: PlaceholderMatcher, es: seq<Entry>,
                   buffer: bytes, out: bytes)
    requires Midway(d, done, rest, m, es, buffer, out) && Decode(rest) == Decoded([], false, [])
    ensures !d.complete && out == RelayedBody(d, m, es)
  {
    RelayLast(d, done, rest, m, es, buffer, out);
  }

  /**
   * The body written for a complete upstream body is well formed, has no empty chunk before the
   * end, and decodes to the one-shot restoration of what the upstream body decodes to.
   */
  lemma RelayDecodes(text: bytes, m: PlaceholderMatcher, es: seq<Entry>)
    requires Usable(m) && KnownIds(m, es) && Decode(text).complete
    requires forall i :: 0 <= i < |Outs(Decode(text).chunks, m, es)| ==> |Outs(Decode(text).chunks, m, es)[i]| <= USIZE_MAX
    ensures var d := Decode(RelayedBody(Decode(text), m, es));
            && d.complete && d.rest == []
            && (forall c :: c in d.chunks ==> c != [])
            && Flatten(d.chunks) == Restored(Flatten(Decode(text).chunks), m, es)
  {
    var outs := Outs(Decode(text).chunks, m, es);
    DecodeWireAll(outs);
    FlattenNonEmpty(outs);
    OutsAddUp(Decode(text).chunks, m, es);
  }

  /**
   * A body that is cut short or broken is relayed as one that is cut short: what is written is not a complete
   * body, and its data begins the one-shot restoration of the chunks read in full.
   */
  lemma CutStaysCut(d: Decoded, m: PlaceholderMatcher, es: seq<Entry>)
    requires Usable(m) && KnownIds(m, es) && !d.complete
    requires forall out :: out in PushOuts(d.chunks, m, es) ==> |out| <= USIZE_MAX
    ensures var written := Decode(RelayedBody(d, m, es));
            && !written.complete && written.chunks == NonEmpty(PushOuts(d.chunks, m, es))
            && Flatten(written.chunks) <= Restored(Flatten(d.chunks), m, es)
  {
    hide Decode, PushOuts, Restored, LastBuffer;
    var outs := PushOuts(d.chunks, m, es);
    DecodeUnfinished(outs);
    FlattenNonEmpty(outs);
    OutsAddUp(d.chunks, m, es);
    FlattenSnoc(outs, Restored(LastBuffer(d.chunks, m), m, es));
  }
}
