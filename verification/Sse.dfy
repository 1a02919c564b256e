/** Splitting a stream into server-sent events (src/proxy/server.rs, `SseStreamRestorer`). */
module Sse {
  import opened Bytes

  const LF2: bytes := [LF, LF]
  const CRLF2: bytes := [CR, LF, CR, LF]

  /** `find_sse_event_end`: where the first event ends, and how long its separator is. */
  function FindEventEnd(text: bytes): (r: Option<(nat, nat)>)
    ensures r.Some? ==> r.value.1 > 0 && r.value.0 + r.value.1 <= |text|
  {
    match (Find(text, LF2), Find(text, CRLF2))
    case (Some(lf), Some(crlf)) => if crlf <= lf then Some((crlf, 4)) else Some((lf, 2))
    case (Some(lf), None) => Some((lf, 2))
    case (None, Some(crlf)) => Some((crlf, 4))
    case (None, None) => None
  }

  /** The complete events of a text, and what is left after them. */
  function Split(text: bytes): (r: (seq<bytes>, bytes))
    decreases |text|
  {
    match FindEventEnd(text)
    case None => ([], text)
    case Some((end, len)) =>
      var (events, left) := Split(text[end + len..]);
      ([text[..end]] + events, left)
  }

  // ----- more bytes never change an event that is already complete

  /** The two separators share no byte position at which one could hide the other. */
  lemma SeparatorsApart(text: bytes, lf: nat, crlf: nat)
    requires OccursAt(text, lf, LF2) && OccursAt(text, crlf, CRLF2)
    ensures crlf + 4 <= lf || lf + 2 <= crlf || crlf + 3 == lf
  {
    OccursAtBytes(text, lf, LF2);
    OccursAtBytes(text, crlf, CRLF2);
    assert LF2[0] == LF2[1] == LF && CRLF2[0] == CRLF2[2] == CR && CRLF2[1] == CRLF2[3] == LF;
    assert text[lf + 0] == LF2[0] && text[lf + 1] == LF2[1];
    assert text[crlf + 0] == CRLF2[0] && text[crlf + 1] == CRLF2[1];
    assert text[crlf + 2] == CRLF2[2] && text[crlf + 3] == CRLF2[3];
  }

  lemma EventEndStable(text: bytes, whole: bytes)
    requires text <= whole && FindEventEnd(text).Some?
    ensures FindEventEnd(whole) == FindEventEnd(text)
  {
    FindInPrefix(text, whole, LF2);
    FindInPrefix(text, whole, CRLF2);
    var lf, crlf := Find(whole, LF2), Find(whole, CRLF2);
    if lf.Some? && crlf.Some? {
      SeparatorsApart(whole, lf.value, crlf.value);
    }
  }

  /** Splitting a stream is splitting what came first, and then what was left with what came next. */
  lemma {:induction false} SplitAppend(text: bytes, more: bytes)
    ensures Split(text + more).0 == Split(text).0 + Split(Split(text).1 + more).0
    ensures Split(text + more).1 == Split(Split(text).1 + more).1
    decreases |text|
  {
    match FindEventEnd(text) {
      case None =>
      case Some((end, len)) =>
        EventEndStable(text, text + more);
        var rest := text[end + len..];
        assert (text + more)[end + len..] == rest + more && (text + more)[..end] == text[..end];
        SplitAppend(rest, more);
        Assoc([text[..end]], Split(rest).0, Split(Split(rest).1 + more).0);
    }
  }

  // ----- the restorer around the splitting

  /**
   * Restoring an event depends on the events before it. `event` takes the state and an event to the
   * next state and the restored event, or fails; `tail` is what a finish adds, if it does not fail.
   */
  datatype EventRestorer<!S> = EventRestorer(event: (S, bytes) -> Option<(S, bytes)>, tail: S -> Option<bytes>)

  /** The output for a list of events, each closed by an empty line. */
  function Emitted<S>(r: EventRestorer<S>, s: S, events: seq<bytes>): Option<(S, bytes)> {
    if events == [] then Some((s, []))
    else match r.event(s, events[0])
      case None => None
      case Some((s1, out)) =>
        match Emitted(r, s1, events[1..])
        case None => None
        case Some((s2, rest)) => Some((s2, out + LF2 + rest))
  }

  /** The output of a finish, with the leftover as a last event. */
  function Finished<S>(r: EventRestorer<S>, s: S, left: bytes): Option<bytes> {
    if left == [] then r.tail(s)
    else match r.event(s, left)
      case None => None
      case Some((s1, out)) =>
        match r.tail(s1)
        case None => None
        case Some(rest) => Some(out + rest)
  }

  lemma {:induction false} EmittedAppend<S>(r: EventRestorer<S>, s: S, a: seq<bytes>, b: seq<bytes>)
    ensures Emitted(r, s, a + b)
         == match Emitted(r, s, a)
            case None => None
            case Some((s1, out)) =>
              match Emitted(r, s1, b)
              case None => None
              case Some((s2, rest)) => Some((s2, out + rest))
  {
    if a == [] {
      assert a + b == b;
      match Emitted(r, s, b) {
        case None =>
        case Some((_, rest)) => assert [] + rest == rest;
      }
    } else {
      assert (a + b)[0] == a[0] && (a + b)[1..] == a[1..] + b;
      match r.event(s, a[0]) {
        case None =>
        case Some((s1, out)) =>
          EmittedAppend(r, s1, a[1..], b);
          match Emitted(r, s1, a[1..]) {
            case None =>
            case Some((s2, mid)) =>
              match Emitted(r, s2, b) {
                case None =>
                case Some((_, rest)) => Assoc(out + LF2, mid, rest);
              }
          }
      }
    }
  }

  lemma EmittedOne<S>(r: EventRestorer<S>, s: S, event: bytes)
    ensures Emitted(r, s, [event])
         == match r.event(s, event)
            case None => None
            case Some((s1, out)) => Some((s1, out + LF2))
  {
    match r.event(s, event) {
      case None =>
      case Some((s1, out)) => assert out + LF2 + [] == out + LF2;
    }
  }

  lemma SplitStep(text: bytes)
    ensures FindEventEnd(text).None? ==> Split(text) == ([], text)
    ensures FindEventEnd(text).Some?
            ==> var end, next := FindEventEnd(text).value.0, FindEventEnd(text).value.0 + FindEventEnd(text).value.1;
                && Split(text).0 == [text[..end]] + Split(text[next..]).0
                && Split(text).1 == Split(text[next..]).1
  {
  }

  /** The loop has emitted `events` of all that came in, and more are in the buffer. */
  ghost predicate EmittedSoFar<S>(
    r: EventRestorer<S>, s0: S, all: bytes, events: seq<bytes>, s: S, out: bytes, buffer: bytes)
  {
    && Emitted(r, s0, events) == Some((s, out))
    && Split(all).0 == events + Split(buffer).0
    && Split(all).1 == Split(buffer).1
  }

  lemma NothingEmitted<S>(r: EventRestorer<S>, s: S, all: bytes)
    ensures EmittedSoFar(r, s, all, [], s, [], all)
  {
  }

  /** One turn of the loop. */
  lemma EmitNext<S>(r: EventRestorer<S>, s0: S, all: bytes, events: seq<bytes>, s: S, out: bytes, buffer: bytes)
    requires EmittedSoFar(r, s0, all, events, s, out, buffer) && FindEventEnd(buffer).Some?
    ensures var end, next := FindEventEnd(buffer).value.0, FindEventEnd(buffer).value.0 + FindEventEnd(buffer).value.1;
            var result := r.event(s, buffer[..end]);
            if result.None? then Emitted(r, s0, Split(all).0) == None
            else EmittedSoFar(r, s0, all, events + [buffer[..end]], result.value.0,
                        out + result.value.1 + [LF] + [LF], buffer[next..])
  {
    hide Emitted, Split;
    var (end, len) := FindEventEnd(buffer).value;
    var event, later := buffer[..end], Split(buffer[end + len..]).0;
    SplitStep(buffer);
    Assoc(events, [event], later);
    EmittedAppend(r, s0, events, [event]);
    EmittedAppend(r, s0, events + [event], later);
    EmittedOne(r, s, event);
    match r.event(s, event) {
      case None =>
      case Some((s1, restored)) => assert out + restored + [LF] + [LF] == out + (restored + LF2);
    }
  }

  lemma EmitNone<S>(r: EventRestorer<S>, s0: S, all: bytes, events: seq<bytes>, s: S, out: bytes, buffer: bytes)
    requires EmittedSoFar(r, s0, all, events, s, out, buffer) && FindEventEnd(buffer).None?
    ensures Emitted(r, s0, Split(all).0) == Some((s, out)) && Split(all).1 == buffer
  {
    assert events + [] == events;
  }

  class SseStreamRestorer<!S> {
    const restorer: EventRestorer<S>
    var eventBuffer: bytes
    var state: S

    constructor (restorer: EventRestorer<S>, state: S)
      ensures this.restorer == restorer && this.state == state && eventBuffer == []
    {
      this.restorer := restorer;
      this.state := state;
      eventBuffer := [];
    }

    method PushChunk(chunk: bytes) returns (r: Option<bytes>)
      modifies this
      ensures match Emitted(restorer, old(state), Split(old(eventBuffer) + chunk).0)
              case None => r == None
              case Some((s, out)) => r == Some(out) && state == s && eventBuffer == Split(old(eventBuffer) + chunk).1
    {
      hide Emitted, Split, FindEventEnd;
      eventBuffer := eventBuffer + chunk;
      ghost var all := eventBuffer;
      ghost var events: seq<bytes> := [];
      var out := [];
      NothingEmitted(restorer, state, all);
      var next := FindEventEnd(eventBuffer);
      while next.Some?
        invariant next == FindEventEnd(eventBuffer)
        invariant EmittedSoFar(restorer, old(state), all, events, state, out, eventBuffer)
        decreases |eventBuffer|
      {
        EmitNext(restorer, old(state), all, events, state, out, eventBuffer);
        var (eventEnd, separatorLen) := next.value;
        var event := eventBuffer[..eventEnd];
        eventBuffer := eventBuffer[eventEnd + separatorLen..];
        var restored := restorer.event(state, event);
        if restored.None? {
          return None;
        }
        state := restored.value.0;
        out := out + restored.value.1;
        out := out + [LF];
        out := out + [LF];
        events := events + [event];
        next := FindEventEnd(eventBuffer);
      }
      EmitNone(restorer, old(state), all, events, state, out, eventBuffer);
      r := Some(out);
    }

    method Finish() returns (r: Option<bytes>)
      modifies this
      ensures r == Finished(restorer, old(state), old(eventBuffer))
    {
      var out := [];
      if eventBuffer != [] {
        var restored := restorer.event(state, eventBuffer);
        eventBuffer := [];
        if restored.None? {
          return None;
        }
        state := restored.value.0;
        out := restored.value.1;
      }
      var tail := restorer.tail(state);
      if tail.None? {
        return None;
      }
      assert [] + tail.value == tail.value;
      r := Some(out + tail.value);
    }
  }

  /** All pushes and the finish, from a state and a buffer on. */
  function SseStream<S>(r: EventRestorer<S>, s: S, buffer: bytes, chunks: seq<bytes>): Option<bytes>
    decreases |chunks|
  {
    if chunks == [] then Finished(r, s, buffer)
    else
      var (events, left) := Split(buffer + chunks[0]);
      match Emitted(r, s, events)
      case None => None
      case Some((s1, out)) =>
        match SseStream(r, s1, left, chunks[1..])
        case None => None
        case Some(rest) => Some(out + rest)
  }

  /** What the whole stream gives when it is split in one go. */
  function SseOneShot<S>(r: EventRestorer<S>, s: S, text: bytes): Option<bytes> {
    match Emitted(r, s, Split(text).0)
    case None => None
    case Some((s1, out)) =>
      match Finished(r, s1, Split(text).1)
      case None => None
      case Some(rest) => Some(out + rest)
  }

  /** A buffer that a push leaves holds no complete event. */
  lemma {:induction false} LeftoverIsPartial(text: bytes)
    ensures Split(Split(text).1) == ([], Split(text).1)
    decreases |text|
  {
    match FindEventEnd(text) {
      case None =>
      case Some((end, len)) => LeftoverIsPartial(text[end + len..]);
    }
  }

  /** However the stream is cut, the events, their restoration and the leftover are the same. */
  lemma {:induction false} SseStreamIsOneShot<S>(r: EventRestorer<S>, s: S, buffer: bytes, chunks: seq<bytes>)
    requires Split(buffer) == ([], buffer)
    ensures SseStream(r, s, buffer, chunks) == SseOneShot(r, s, buffer + Flatten(chunks))
    decreases |chunks|
  {
    if chunks == [] {
      assert buffer + [] == buffer;
      match Finished(r, s, buffer) {
        case None =>
        case Some(rest) => assert [] + rest == rest;
      }
    } else {
      var text, future := buffer + chunks[0], Flatten(chunks[1..]);
      var (events, left) := Split(text);
      Assoc(buffer, chunks[0], future);
      SplitAppend(text, future);
      LeftoverIsPartial(text);
      EmittedAppend(r, s, events, Split(left + future).0);
      match Emitted(r, s, events) {
        case None =>
        case Some((s1, out)) =>
          SseStreamIsOneShot(r, s1, left, chunks[1..]);
          match Emitted(r, s1, Split(left + future).0) {
            case None =>
            case Some((s2, mid)) =>
              match Finished(r, s2, Split(left + future).1) {
                case None =>
                case Some(rest) => Assoc(out, mid, rest);
              }
          }
      }
    }
  }
}
