/** Streaming restoration with a fixed-length carry (src/restore/stream.rs). */
module Restore {
  import opened Bytes
  import opened Registry
  import opened Matcher

  /** Where the pass from `at` stops: the first token boundary at or after `safe`. */
  function StopAt(text: bytes, at: nat, safe: nat, m: PlaceholderMatcher): (stop: nat)
    requires Usable(m) && at <= |text| && safe <= |text|
    ensures Max(at, safe) <= stop <= |text|
    decreases |text| - at
  {
    if at >= safe then at else StopAt(text, NextAt(text, at, m), safe, m)
  }

  /** The tokens up to there. */
  function TokensUntil(text: bytes, at: nat, safe: nat, m: PlaceholderMatcher): seq<Token>
    requires Usable(m) && at <= |text| && safe <= |text|
    decreases |text| - at
  {
    if at >= safe then []
    else [TokenAt(text, at, m)] + TokensUntil(text, NextAt(text, at, m), safe, m)
  }

  /** Stopping at the end of the text is the whole pass. */
  lemma {:induction false} UntilEnd(text: bytes, at: nat, m: PlaceholderMatcher)
    requires Usable(m) && at <= |text|
    ensures TokensUntil(text, at, |text|, m) == Tokens(text, at, m)
    ensures StopAt(text, at, |text|, m) == |text|
    decreases |text| - at
  {
    if at < |text| {
      UntilEnd(text, NextAt(text, at, m), m);
    }
  }

  /**
   * When every pattern that starts before `safe` must end inside `text`, the tokens emitted are
   * those of the whole stream, whatever follows.
   */
  lemma {:induction false} UntilAhead(text: bytes, whole: bytes, at: nat, safe: nat, m: PlaceholderMatcher)
    requires Usable(m) && at <= |text| && safe <= |text| && text <= whole
    requires forall k :: 0 <= k < |m.patterns| ==> safe + |m.patterns[k]| - 1 <= |text|
    ensures Tokens(whole, at, m)
         == TokensUntil(text, at, safe, m) + Tokens(whole, StopAt(text, at, safe, m), m)
    decreases |text| - at
  {
    if at < safe {
      TokensStep(whole, at, m);
      UntilStep(text, at, safe, m);
      SameToken(text, whole, at, m);
      hide Tokens, TokensUntil, StopAt, TokenAt, NextAt, Usable;
      var next, stop := NextAt(text, at, m), StopAt(text, at, safe, m);
      UntilAhead(text, whole, next, safe, m);
      Assoc([TokenAt(text, at, m)], TokensUntil(text, next, safe, m), Tokens(whole, stop, m));
    }
  }

  lemma UntilStep(text: bytes, at: nat, safe: nat, m: PlaceholderMatcher)
    requires Usable(m) && at < safe <= |text|
    ensures var next := NextAt(text, at, m);
            && at < next <= |text|
            && TokensUntil(text, at, safe, m) == [TokenAt(text, at, m)] + TokensUntil(text, next, safe, m)
            && StopAt(text, at, safe, m) == StopAt(text, next, safe, m)
  {
  }

  lemma SameToken(text: bytes, whole: bytes, at: nat, m: PlaceholderMatcher)
    requires Usable(m) && at < |text| && text <= whole
    requires forall k :: 0 <= k < |m.patterns| ==> at + |m.patterns[k]| <= |text|
    ensures TokenAt(whole, at, m) == TokenAt(text, at, m) && NextAt(whole, at, m) == NextAt(text, at, m)
  {
    SamePattern(text, whole, at, m.patterns);
    hide PatternAt;
  }

  lemma {:induction false} SamePattern(text: bytes, whole: bytes, at: nat, patterns: seq<bytes>)
    requires text <= whole
    requires forall k :: 0 <= k < |patterns| ==> at + |patterns[k]| <= |text|
    ensures PatternAt(whole, at, patterns) == PatternAt(text, at, patterns)
  {
    if patterns != [] {
      OccursInPrefix(text, whole, at, patterns[0]);
      SamePattern(text, whole, at, patterns[1..]);
    }
  }

  lemma {:induction false} UntilKnown(text: bytes, at: nat, safe: nat, m: PlaceholderMatcher, es: seq<Entry>)
    requires Usable(m) && KnownIds(m, es) && at <= |text| && safe <= |text|
    ensures Known(TokensUntil(text, at, safe, m), es)
    decreases |text| - at
  {
    if at < safe {
      UntilKnown(text, NextAt(text, at, m), safe, m, es);
    }
  }

  // ----- the loop over matches

  /** No match starts in the stretch up to `safe`. */
  predicate NoneBefore(found: seq<PlaceholderMatch>, safe: nat) {
    found == [] || found[0].start >= safe
  }

  /** Up to the next match, or up to `safe` when none starts before it, bytes are emitted raw. */
  lemma {:induction false} UntilMatch(text: bytes, at: nat, safe: nat, m: PlaceholderMatcher)
    requires Usable(m) && at <= safe <= |text|
    ensures var found := FindIn(text, at, m);
            var to := if NoneBefore(found, safe) then safe else found[0].start;
            && at <= to
            && TokensUntil(text, at, safe, m) == RawTokens(text, at, to) + TokensUntil(text, to, safe, m)
            && StopAt(text, at, safe, m) == StopAt(text, to, safe, m)
            && (!NoneBefore(found, safe)
                ==> && TokenAt(text, to, m) == Secret(found[0].id)
                    && NextAt(text, to, m) == found[0].end
                    && FindIn(text, found[0].end, m) == found[1..])
    decreases |text| - at
  {
    var found := FindIn(text, at, m);
    var to := if NoneBefore(found, safe) then safe else found[0].start;
    if at < safe && PatternAt(text, at, m.patterns).None? {
      UntilMatch(text, at + 1, safe, m);
      Assoc([Raw(text[at])], RawTokens(text, at + 1, to), TokensUntil(text, to, safe, m));
    }
  }

  /** The output so far renders the tokens up to `cursor`. */
  ghost predicate UpTo(text: bytes, safe: nat, m: PlaceholderMatcher, es: seq<Entry>,
                       cursor: nat, done: seq<Token>, out: bytes)
  {
    && Usable(m) && safe <= |text| && cursor <= |text|
    && Known(done, es) && out == Render(done, es)
    && TokensUntil(text, 0, safe, m) == done + TokensUntil(text, cursor, safe, m)
    && StopAt(text, 0, safe, m) == StopAt(text, cursor, safe, m)
  }

  lemma TakeRaw(text: bytes, safe: nat, m: PlaceholderMatcher, es: seq<Entry>,
                cursor: nat, done: seq<Token>, out: bytes, to: nat)
    requires UpTo(text, safe, m, es, cursor, done, out) && cursor <= to <= safe
    requires TokensUntil(text, cursor, safe, m) == RawTokens(text, cursor, to) + TokensUntil(text, to, safe, m)
    requires StopAt(text, cursor, safe, m) == StopAt(text, to, safe, m)
    ensures UpTo(text, safe, m, es, to, done + RawTokens(text, cursor, to), out + text[cursor..to])
  {
    Assoc(done, RawTokens(text, cursor, to), TokensUntil(text, to, safe, m));
    RenderRaw(text, cursor, to, es);
    RenderAppend(done, RawTokens(text, cursor, to), es);
  }

  lemma TakeSecret(text: bytes, safe: nat, m: PlaceholderMatcher, es: seq<Entry>,
                   cursor: nat, done: seq<Token>, out: bytes, id: nat)
    requires UpTo(text, safe, m, es, cursor, done, out) && cursor < safe
    requires TokenAt(text, cursor, m) == Secret(id)
    ensures if 1 <= id <= |es|
            then UpTo(text, safe, m, es, NextAt(text, cursor, m), done + [Secret(id)], out + es[id - 1].secret)
            else !Known(TokensUntil(text, 0, safe, m), es)
  {
    var rest := TokensUntil(text, NextAt(text, cursor, m), safe, m);
    Assoc(done, [Secret(id)], rest);
    if 1 <= id <= |es| {
      RenderAppend(done, [Secret(id)], es);
      assert Render([Secret(id)], es) == es[id - 1].secret;
    } else {
      assert (done + [Secret(id)] + rest)[|done|] == Secret(id);
    }
  }

  /** The step of the loop over one match. */
  lemma TakeMatch(text: bytes, safe: nat, m: PlaceholderMatcher, es: seq<Entry>,
                  cursor: nat, done: seq<Token>, out: bytes)
    requires UpTo(text, safe, m, es, cursor, done, out) && cursor <= safe
    requires !NoneBefore(FindIn(text, cursor, m), safe)
    ensures var mat := FindIn(text, cursor, m)[0];
            && FindIn(text, mat.end, m) == FindIn(text, cursor, m)[1..]
            && if 1 <= mat.id <= |es|
               then UpTo(text, safe, m, es, mat.end, done + RawTokens(text, cursor, mat.start) + [Secret(mat.id)],
                         out + text[cursor..mat.start] + es[mat.id - 1].secret)
               else !Known(TokensUntil(text, 0, safe, m), es)
  {
    var mat := FindIn(text, cursor, m)[0];
    UntilMatch(text, cursor, safe, m);
    TakeRaw(text, safe, m, es, cursor, done, out, mat.start);
    TakeSecret(text, safe, m, es, mat.start, done + RawTokens(text, cursor, mat.start),
               out + text[cursor..mat.start], mat.id);
  }

  /** Nothing is done at the start. */
  lemma ProcessStarts(text: bytes, safe: nat, m: PlaceholderMatcher, es: seq<Entry>)
    requires Usable(m) && safe <= |text|
    ensures UpTo(text, safe, m, es, 0, [], [])
  {
    assert [] + TokensUntil(text, 0, safe, m) == TokensUntil(text, 0, safe, m);
  }

  /** The bytes after the last match. */
  lemma TakeRest(text: bytes, safe: nat, m: PlaceholderMatcher, es: seq<Entry>,
                 cursor: nat, done: seq<Token>, out: bytes)
    requires UpTo(text, safe, m, es, cursor, done, out)
    requires NoneBefore(FindIn(text, cursor, m), safe)
    ensures Outcome(Ok(if cursor < safe then out + text[cursor..safe] else out), TokensUntil(text, 0, safe, m), es)
    ensures StopAt(text, 0, safe, m) == Max(cursor, safe)
  {
    if cursor < safe {
      UntilMatch(text, cursor, safe, m);
      TakeRaw(text, safe, m, es, cursor, done, out, safe);
      assert done + RawTokens(text, cursor, safe) + [] == done + RawTokens(text, cursor, safe);
    } else {
      assert done + [] == done;
    }
  }

  /** What a finished or interrupted restoration says about its tokens. */
  ghost predicate Outcome(r: Result<bytes, RegistryError>, tokens: seq<Token>, es: seq<Entry>) {
    if Known(tokens, es) then r == Ok(Render(tokens, es)) else r.Err?
  }

  class ResponseRestorer {
    const matcher: PlaceholderMatcher
    var buffer: bytes
    const carryLen: nat

    ghost predicate Valid()
      reads this
    {
      Usable(matcher) && carryLen == CarryLen(matcher)
    }

    constructor (matcher: PlaceholderMatcher)
      requires Usable(matcher)
      ensures Valid() && buffer == [] && this.matcher == matcher
    {
      this.matcher := matcher;
      buffer := [];
      carryLen := CarryLen(matcher);
    }

    /** Adds a chunk and emits all that no later byte can change. */
    method PushChunk(chunk: bytes, registry: SecretRegistry) returns (r: Result<bytes, RegistryError>)
      requires Valid() && registry.Valid()
      modifies this
      ensures Valid()
      ensures Outcome(r, PushTokens(old(buffer), chunk, matcher, carryLen), registry.entries)
      ensures r.Ok? ==> buffer == PushBuffer(old(buffer), chunk, matcher, carryLen)
    {
      buffer := buffer + chunk;
      var safeEnd := Max(0, |buffer| - carryLen);
      r := ProcessUntil(safeEnd, registry);
    }

    method Finish(registry: SecretRegistry) returns (r: Result<bytes, RegistryError>)
      requires Valid() && registry.Valid()
      modifies this
      ensures Valid()
      ensures Outcome(r, Tokenize(old(buffer), matcher), registry.entries)
      ensures r.Ok? ==> buffer == []
    {
      UntilEnd(buffer, 0, matcher);
      r := ProcessUntil(|buffer|, registry);
    }

    method ProcessUntil(safeEnd: nat, registry: SecretRegistry) returns (r: Result<bytes, RegistryError>)
      requires Valid() && registry.Valid() && safeEnd <= |buffer|
      modifies this
      ensures Valid()
      ensures Outcome(r, TokensUntil(old(buffer), 0, safeEnd, matcher), registry.entries)
      ensures r.Ok? ==> buffer == old(buffer)[StopAt(old(buffer), 0, safeEnd, matcher)..]
    {
      if safeEnd == 0 {
        return Ok([]);
      }
      var matches := FindIn(buffer, 0, matcher);
      ProcessStarts(buffer, safeEnd, matcher, registry.entries);
      var out := [];
      var cursor: nat := 0;
      var commitUntil := safeEnd;
      ghost var done: seq<Token> := [];
      var i := 0;
      assert matches[0..] == matches;
      hide UpTo, FindIn, TokensUntil, StopAt, WellFormed, IdsWith, PlaceholderMap, Known, Render, RawTokens;
      while i < |matches| && matches[i].start < safeEnd
        invariant i <= |matches| && buffer == old(buffer)
        invariant cursor <= |buffer| && commitUntil == Max(safeEnd, cursor)
        invariant UpTo(buffer, safeEnd, matcher, registry.entries, cursor, done, out)
        invariant matches[i..] == FindIn(buffer, cursor, matcher)
      {
        var mat := matches[i];
        assert mat == matches[i..][0] && matches[i..][1..] == matches[i + 1..];
        i := i + 1;
        if mat.start < cursor {
          continue;
        }
        var restored := RestoreMatch(safeEnd, registry, cursor, mat, out, done);
        if restored.Err? {
          return Err(restored.error);
        }
        done := done + RawTokens(buffer, cursor, mat.start) + [Secret(mat.id)];
        out := restored.value;
        cursor := mat.end;
        if cursor > commitUntil {
          commitUntil := cursor;
        }
      }
      TakeRest(buffer, safeEnd, matcher, registry.entries, cursor, done, out);
      if cursor < safeEnd {
        out := out + buffer[cursor..safeEnd];
      }
      buffer := buffer[commitUntil..];
      r := Ok(out);
    }

    /** The bytes before a match and the secret behind it, added to the output. */
    method RestoreMatch(safeEnd: nat, registry: SecretRegistry, cursor: nat, mat: PlaceholderMatch,
                        out: bytes, ghost done: seq<Token>)
      returns (r: Result<bytes, RegistryError>)
      requires Valid() && registry.Valid() && cursor <= safeEnd
      requires UpTo(buffer, safeEnd, matcher, registry.entries, cursor, done, out)
      requires !NoneBefore(FindIn(buffer, cursor, matcher), safeEnd) && mat == FindIn(buffer, cursor, matcher)[0]
      ensures r.Err? ==> Outcome(r, TokensUntil(buffer, 0, safeEnd, matcher), registry.entries)
      ensures r.Ok? ==>
                UpTo(buffer, safeEnd, matcher, registry.entries, mat.end,
                     done + RawTokens(buffer, cursor, mat.start) + [Secret(mat.id)], r.value)
      ensures FindIn(buffer, mat.end, matcher) == FindIn(buffer, cursor, matcher)[1..]
    {
      hide UpTo, FindIn, TokensUntil, StopAt, WellFormed, IdsWith, PlaceholderMap, Known, Render, RawTokens, MaxPatternLen;
      TakeMatch(buffer, safeEnd, matcher, registry.entries, cursor, done, out);
      r := registry.RestoreToVec(mat.id, out + buffer[cursor..mat.start]);
    }
  }

  // ----- any way of cutting the stream

  /** How much of a buffer no later byte can change. */
  function SafeEnd(text: bytes, carry: nat): (n: nat)
    ensures n <= |text|
  {
    Max(0, |text| - carry)
  }

  /** What one push emits, and the buffer it leaves. */
  function PushTokens(buffer: bytes, chunk: bytes, m: PlaceholderMatcher, carry: nat): seq<Token>
    requires Usable(m)
  {
    TokensUntil(buffer + chunk, 0, SafeEnd(buffer + chunk, carry), m)
  }

  function PushBuffer(buffer: bytes, chunk: bytes, m: PlaceholderMatcher, carry: nat): bytes
    requires Usable(m)
  {
    (buffer + chunk)[StopAt(buffer + chunk, 0, SafeEnd(buffer + chunk, carry), m)..]
  }

  function CarryLen(m: PlaceholderMatcher): nat {
    Max(0, MaxPatternLen(m.patterns) - 1)
  }

  /** All pushes and the finish, from a buffer on. */
  function Streamed(buffer: bytes, chunks: seq<bytes>, m: PlaceholderMatcher): seq<Token>
    requires Usable(m)
    decreases |chunks|
  {
    if chunks == [] then Tokenize(buffer, m)
    else
      PushTokens(buffer, chunks[0], m, CarryLen(m))
      + Streamed(PushBuffer(buffer, chunks[0], m, CarryLen(m)), chunks[1..], m)
  }

  /** A push emits a beginning of the one-shot pass over the stream, whatever comes after it. */
  lemma PushIsPrefix(buffer: bytes, chunk: bytes, future: bytes, m: PlaceholderMatcher)
    requires Usable(m)
    ensures Tokenize(buffer + chunk + future, m)
         == PushTokens(buffer, chunk, m, CarryLen(m)) + Tokenize(PushBuffer(buffer, chunk, m, CarryLen(m)) + future, m)
  {
    hide OccursAt;
    var text := buffer + chunk;
    var safe := SafeEnd(text, CarryLen(m));
    var stop := StopAt(text, 0, safe, m);
    if safe > 0 {
      UntilAhead(text, text + future, 0, safe, m);
    }
    TokensDrop(text + future, stop, m);
    assert (text + future)[stop..] == text[stop..] + future;
  }

  /** However the stream is cut, the outputs add up to the one-shot pass over all of it. */
  lemma {:induction false} StreamedIsOneShot(buffer: bytes, chunks: seq<bytes>, m: PlaceholderMatcher)
    requires Usable(m)
    ensures Streamed(buffer, chunks, m) == Tokenize(buffer + Flatten(chunks), m)
    decreases |chunks|
  {
    if chunks == [] {
      assert buffer + [] == buffer;
    } else {
      PushIsPrefix(buffer, chunks[0], Flatten(chunks[1..]), m);
      StreamedIsOneShot(PushBuffer(buffer, chunks[0], m, CarryLen(m)), chunks[1..], m);
      Assoc(buffer, chunks[0], Flatten(chunks[1..]));
    }
  }

  /** After a push the buffer is shorter than the longest placeholder, or empty without one. */
  lemma BufferBound(buffer: bytes, chunk: bytes, m: PlaceholderMatcher)
    requires Usable(m)
    ensures var left := PushBuffer(buffer, chunk, m, CarryLen(m));
            if m.patterns == [] then left == [] else |left| < MaxPatternLen(m.patterns)
  {
    if m.patterns != [] {
      assert m.patterns[0] != [] && |m.patterns[0]| <= MaxPatternLen(m.patterns);
    }
  }

  /** The same for the restored bytes. */
  lemma StreamedRestores(chunks: seq<bytes>, m: PlaceholderMatcher, es: seq<Entry>)
    requires Usable(m) && KnownIds(m, es)
    ensures Known(Streamed([], chunks, m), es)
    ensures Render(Streamed([], chunks, m), es) == Restored(Flatten(chunks), m, es)
  {
    StreamedIsOneShot([], chunks, m);
    assert [] + Flatten(chunks) == Flatten(chunks);
    TokensKnown(Flatten(chunks), 0, m, es);
  }
}
