/** What splitting a stream into events and restoring them comes to, written down without the splitter. */
module SseEvents {
  import opened Bytes
  import opened Sse

  // ----- separators

  /** An empty line: two line feeds, or two line ends of carriage return and line feed. */
  predicate IsSeparator(sep: bytes) {
    sep == [LF, LF] || sep == [CR, LF, CR, LF]
  }

  ghost predicate SeparatorAt(text: bytes, at: int) {
    OccursAt(text, at, [LF, LF]) || OccursAt(text, at, [CR, LF, CR, LF])
  }

  ghost predicate HasNoSeparator(text: bytes) {
    forall at :: !SeparatorAt(text, at)
  }

  /** A separator of this length stands at `at`, and none stands earlier. */
  ghost predicate FirstSeparator(text: bytes, at: nat, sep: bytes) {
    IsSeparator(sep) && OccursAt(text, at, sep) && forall k :: k < at ==> !SeparatorAt(text, k)
  }

  /** The end of the first event is where the first of the two separators stands, whichever it is. */
  lemma FirstEventEnds(text: bytes, at: nat, sep: bytes)
    requires IsSeparator(sep)
    ensures FindEventEnd(text) == Some((at, |sep|)) <==> FirstSeparator(text, at, sep)
    ensures FindEventEnd(text).None? <==> HasNoSeparator(text)
  {
    if OccursAt(text, at, [LF, LF]) {
      OccursFirst(text, at, [LF, LF]);
    }
    if OccursAt(text, at, [CR, LF, CR, LF]) {
      OccursFirst(text, at, [CR, LF, CR, LF]);
    }
    var lf, crlf := Find(text, [LF, LF]), Find(text, [CR, LF, CR, LF]);
    if lf.Some? {
      OccursFirst(text, lf.value, [LF, LF]);
      assert SeparatorAt(text, lf.value);
    }
    if crlf.Some? {
      OccursFirst(text, crlf.value, [CR, LF, CR, LF]);
      assert SeparatorAt(text, crlf.value);
    }
  }

  // ----- events

  /** The text: each event followed by its separator, and then the leftover. */
  function Written(events: seq<bytes>, seps: seq<bytes>, left: bytes): bytes
    requires |events| == |seps|
    decreases |events|
  {
    if events == [] then left else events[0] + seps[0] + Written(events[1..], seps[1..], left)
  }

  /** No separator stands in the leftover or, before its own one, in an event. */
  ghost predicate EventsOk(events: seq<bytes>, seps: seq<bytes>, left: bytes) {
    && |events| == |seps| && HasNoSeparator(left)
    && forall i :: 0 <= i < |events| ==> FirstSeparator(events[i] + seps[i], |events[i]|, seps[i])
  }

  lemma FirstInPrefix(prefix: bytes, text: bytes, at: nat, sep: bytes)
    requires prefix <= text && |prefix| == at + |sep| && IsSeparator(sep)
    ensures FirstSeparator(prefix, at, sep) <==> FirstSeparator(text, at, sep)
  {
    OccursInPrefix(prefix, text, at, sep);
    if FirstSeparator(prefix, at, sep) {
      forall k | k < at
        ensures !SeparatorAt(text, k)
      {
        EarlierSeparator(prefix, text, at, sep, k);
      }
    }
    if FirstSeparator(text, at, sep) {
      forall k | k < at
        ensures !SeparatorAt(prefix, k)
      {
        assert !SeparatorAt(text, k);
        if OccursAt(prefix, k, [LF, LF]) {
          OccursInPrefix(prefix, text, k, [LF, LF]);
        } else if OccursAt(prefix, k, [CR, LF, CR, LF]) {
          OccursInPrefix(prefix, text, k, [CR, LF, CR, LF]);
        }
      }
    }
  }

  /** A separator that begins before another one either ends inside what that one closes or is not there. */
  lemma EarlierSeparator(prefix: bytes, text: bytes, at: nat, sep: bytes, k: int)
    requires prefix <= text && |prefix| == at + |sep| && FirstSeparator(prefix, at, sep) && k < at
    ensures !SeparatorAt(text, k)
  {
    assert !SeparatorAt(prefix, k);
    if OccursAt(text, k, [LF, LF]) {
      OccursInPrefix(prefix, text, k, [LF, LF]);
    } else if OccursAt(text, k, [CR, LF, CR, LF]) {
      CrossesNot(text, prefix, at, sep, k);
      OccursInPrefix(prefix, text, k, [CR, LF, CR, LF]);
    }
  }

  lemma CrossesNot(text: bytes, prefix: bytes, at: nat, sep: bytes, k: int)
    requires prefix <= text && |prefix| == at + |sep| && IsSeparator(sep) && OccursAt(prefix, at, sep)
    requires OccursAt(text, k, [CR, LF, CR, LF]) && k < at
    ensures k + 4 <= |prefix|
  {
    ThirdIsReturn(text, k);
    if sep == [LF, LF] {
      SecondIsFeed(prefix, at);
    }
  }

  lemma ThirdIsReturn(text: bytes, k: int)
    requires OccursAt(text, k, [CR, LF, CR, LF])
    ensures text[k + 2] == CR
  {
    var sep: bytes := [CR, LF, CR, LF];
    OccursAtBytes(text, k, sep);
    assert text[k + 2] == sep[2];
  }

  lemma SecondIsFeed(text: bytes, k: int)
    requires OccursAt(text, k, [LF, LF])
    ensures text[k + 1] == LF
  {
    var sep: bytes := [LF, LF];
    OccursAtBytes(text, k, sep);
    assert text[k + 1] == sep[1];
  }

  /** The first event of a text, with its separator. */
  lemma EventTaken(text: bytes) returns (event: bytes, sep: bytes, rest: bytes)
    requires FindEventEnd(text).Some?
    ensures FirstSeparator(event + sep, |event|, sep) && text == event + sep + rest && |rest| < |text|
    ensures Split(text).0 == [event] + Split(rest).0 && Split(text).1 == Split(rest).1
  {
    var (end, len) := FindEventEnd(text).value;
    SeparatorLength(text);
    sep := if len == 2 then [LF, LF] else [CR, LF, CR, LF];
    FirstEventEnds(text, end, sep);
    SplitTakes(text, end, len);
    StandsAt(text, end, sep);
    hide Split, FindEventEnd, FirstSeparator, OccursAt;
    event, rest := text[..end], text[end + len..];
    FirstInPrefix(text[..end + len], text, end, sep);
  }

  lemma StandsAt(text: bytes, at: nat, sep: bytes)
    requires OccursAt(text, at, sep)
    ensures text[..at] + sep == text[..at + |sep|] && text == text[..at] + sep + text[at + |sep|..]
  {
  }

  lemma SeparatorLength(text: bytes)
    requires FindEventEnd(text).Some?
    ensures FindEventEnd(text).value.1 == 2 || FindEventEnd(text).value.1 == 4
  {
  }

  lemma SplitTakes(text: bytes, end: nat, len: nat)
    requires FindEventEnd(text) == Some((end, len))
    ensures Split(text).0 == [text[..end]] + Split(text[end + len..]).0 && Split(text).1 == Split(text[end + len..]).1
  {
  }

  /** Splitting finds such events: none of them and not the leftover holds a separator. */
  lemma {:induction false} SplitIsWritten(text: bytes) returns (seps: seq<bytes>)
    ensures EventsOk(Split(text).0, seps, Split(text).1) && Written(Split(text).0, seps, Split(text).1) == text
    decreases |text|
  {
    if FindEventEnd(text).None? {
      FirstEventEnds(text, 0, [LF, LF]);
      seps := [];
    } else {
      hide Split, FirstSeparator, HasNoSeparator, FindEventEnd, EventsOk, Written;
      var event, sep, rest := EventTaken(text);
      var later := SplitIsWritten(rest);
      seps := [sep] + later;
      EventsMore(event, sep, Split(rest).0, later, Split(rest).1);
    }
  }

  lemma EventsMore(event: bytes, sep: bytes, events: seq<bytes>, seps: seq<bytes>, left: bytes)
    requires FirstSeparator(event + sep, |event|, sep) && EventsOk(events, seps, left)
    ensures EventsOk([event] + events, [sep] + seps, left)
    ensures Written([event] + events, [sep] + seps, left) == event + sep + Written(events, seps, left)
  {
    hide FirstSeparator, HasNoSeparator;
    assert ([event] + events)[1..] == events && ([sep] + seps)[1..] == seps;
  }

  /** And every text written so is split back into the same events and leftover. */
  lemma {:induction false} WrittenIsSplit(events: seq<bytes>, seps: seq<bytes>, left: bytes)
    requires EventsOk(events, seps, left)
    ensures Split(Written(events, seps, left)) == (events, left)
    decreases |events|
  {
    if events == [] {
      FirstEventEnds(left, 0, [LF, LF]);
    } else {
      hide Split, FindEventEnd, FirstSeparator, HasNoSeparator;
      EventsFewer(events, seps, left);
      WrittenIsSplit(events[1..], seps[1..], left);
      FirstIsTaken(events[0], seps[0], Written(events[1..], seps[1..], left));
      assert events == [events[0]] + events[1..];
    }
  }

  lemma EventsFewer(events: seq<bytes>, seps: seq<bytes>, left: bytes)
    requires EventsOk(events, seps, left) && events != []
    ensures EventsOk(events[1..], seps[1..], left)
    ensures FirstSeparator(events[0] + seps[0], |events[0]|, seps[0])
  {
    hide FirstSeparator, HasNoSeparator;
  }

  lemma FirstIsTaken(event: bytes, sep: bytes, rest: bytes)
    requires FirstSeparator(event + sep, |event|, sep)
    ensures Split(event + sep + rest) == ([event] + Split(rest).0, Split(rest).1)
  {
    var text := event + sep + rest;
    assert event + sep <= text && text[..|event|] == event && text[|event| + |sep|..] == rest;
    FirstInPrefix(event + sep, text, |event|, sep);
    FirstEventEnds(text, |event|, sep);
    hide FirstSeparator, FindEventEnd;
    SplitTakes(text, |event|, |sep|);
  }

  // ----- what is put out

  /**
   * A run of the event restorer: the states before and after each event, and the restored events.
   */
  ghost predicate Chain<S>(r: EventRestorer<S>, s: S, events: seq<bytes>, states: seq<S>, outs: seq<bytes>) {
    && |states| == |events| + 1 && |outs| == |events| && states[0] == s
    && forall i :: 0 <= i < |events| ==> r.event(states[i], events[i]) == Some((states[i + 1], outs[i]))
  }

  /** Each restored event with one empty line of line feeds behind it. */
  function Closed(outs: seq<bytes>): bytes {
    if outs == [] then [] else outs[0] + [LF, LF] + Closed(outs[1..])
  }

  lemma {:induction false} EmittedIsChain<S>(r: EventRestorer<S>, s: S, events: seq<bytes>)
    returns (states: seq<S>, outs: seq<bytes>)
    requires Emitted(r, s, events).Some?
    ensures Chain(r, s, events, states, outs)
    ensures Emitted(r, s, events) == Some((states[|events|], Closed(outs)))
    decreases |events|
  {
    if events == [] {
      states, outs := [s], [];
    } else {
      var (s1, out) := r.event(s, events[0]).value;
      var later, rest := EmittedIsChain(r, s1, events[1..]);
      states, outs := [s] + later, [out] + rest;
      assert outs[1..] == rest;
      assert states[|events|] == later[|events| - 1];
    }
  }

  lemma {:induction false} ChainIsEmitted<S>(
      r: EventRestorer<S>, s: S, events: seq<bytes>, states: seq<S>, outs: seq<bytes>)
    requires Chain(r, s, events, states, outs)
    ensures Emitted(r, s, events) == Some((states[|events|], Closed(outs)))
    decreases |events|
  {
    if events != [] {
      assert r.event(states[0], events[0]) == Some((states[1], outs[0]));
      ChainIsEmitted(r, states[1], events[1..], states[1..], outs[1..]);
    }
  }

  /**
   * What a whole stream gives, in whatever chunks: the restored events in order, each closed by an empty
   * line, then the restored leftover if there is one, then the tail.
   */
  lemma StreamGives<S>(r: EventRestorer<S>, s: S, chunks: seq<bytes>, events: seq<bytes>, seps: seq<bytes>, left: bytes,
                       states: seq<S>, outs: seq<bytes>)
    requires EventsOk(events, seps, left) && Flatten(chunks) == Written(events, seps, left)
    requires Chain(r, s, events, states, outs)
    ensures left == [] && r.tail(states[|events|]).Some?
            ==> SseStream(r, s, [], chunks) == Some(Closed(outs) + r.tail(states[|events|]).value)
    ensures left != [] && r.event(states[|events|], left).Some? ==> (
              var (s1, out) := r.event(states[|events|], left).value;
              r.tail(s1).Some? ==> SseStream(r, s, [], chunks) == Some(Closed(outs) + (out + r.tail(s1).value)))
  {
    WrittenIsSplit(events, seps, left);
    ChainIsEmitted(r, s, events, states, outs);
    SseStreamIsOneShot(r, s, [], chunks);
    assert [] + Flatten(chunks) == Flatten(chunks);
    hide Split, SseStream, Emitted;
  }
}
