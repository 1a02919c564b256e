/**
 * The relay of client frames (src/proxy/websocket.rs, `handle_client_frame`): text messages are put
 * together and sanitized, everything else passes through (section 5.4 of RFC 6455). The relay of
 * upstream frames is the same machine with a restoring rewriter and unmasked output.
 */
module WsRelay {
  import opened Bytes
  import opened WsFrame

  const CONTINUATION: byte := 0x0
  const TEXT: byte := 0x1
  const BINARY: byte := 0x2
  const CLOSE: byte := 0x8
  const PING: byte := 0x9
  const PONG: byte := 0xA

  /** What rewrites a complete text payload: it has a state, and it can fail. */
  type Rewriter<!S> = (S, bytes) -> Option<(S, bytes)>

  // ----- one frame, and a run of frames

  /** The value of a `MessageBuffer`. */
  datatype Partial = Partial(active: Option<byte>, payload: bytes)

  const NOTHING := Partial(None, [])

  datatype Status = Going | Closed | Failed

  datatype Relayed<S> = Relayed(partial: Partial, s: S, sent: seq<Frame>, status: Status)

  /** `append_fragment`: the payload grown by a fragment, unless it outgrows the limit. */
  function Grown(payload: bytes, more: bytes): Option<bytes> {
    if |payload| + |more| > MAX_TEXT_MESSAGE_BYTES then None else Some(payload + more)
  }

  /** The relay of one complete text payload. */
  function TextRelayed<S>(step: Rewriter<S>, partial: Partial, s: S, payload: bytes): Relayed<S> {
    match step(s, payload)
    case None => Relayed(partial, s, [], Failed)
    case Some((s1, out)) => Relayed(partial, s1, [Frame(true, TEXT, out)], Going)
  }

  /** `handle_passthrough_frame`. */
  function Passed<S>(partial: Partial, s: S, f: Frame): Relayed<S> {
    if f.opcode == BINARY || f.opcode == CONTINUATION then Relayed(partial, s, [f], Going)
    else if f.opcode == CLOSE then Relayed(partial, s, [f.(fin := true)], Closed)
    else if f.opcode == PING || f.opcode == PONG then Relayed(partial, s, [f.(fin := true)], Going)
    else Relayed(partial, s, [], Failed)
  }

  /** `handle_client_frame`. */
  function Handled<S>(step: Rewriter<S>, partial: Partial, s: S, f: Frame): Relayed<S> {
    if f.opcode == TEXT && f.fin then TextRelayed(step, partial, s, f.payload)
    else if f.opcode == TEXT then
      match Grown(partial.payload, f.payload)
      case None => Relayed(Partial(Some(TEXT), partial.payload), s, [], Failed)
      case Some(payload) => Relayed(Partial(Some(TEXT), payload), s, [], Going)
    else if f.opcode == CONTINUATION && partial.active == Some(TEXT) then
      match Grown(partial.payload, f.payload)
      case None => Relayed(partial, s, [], Failed)
      case Some(payload) =>
        if f.fin then TextRelayed(step, NOTHING, s, payload)
        else Relayed(Partial(Some(TEXT), payload), s, [], Going)
    else Passed(partial, s, f)
  }

  /** A run over frames, up to a close, an error, or the last one. */
  function RelayRun<S>(step: Rewriter<S>, partial: Partial, s: S, frames: seq<Frame>): Relayed<S>
    decreases |frames|
  {
    if frames == [] then Relayed(partial, s, [], Going)
    else
      var one := Handled(step, partial, s, frames[0]);
      if !one.status.Going? then one
      else
        var rest := RelayRun(step, one.partial, one.s, frames[1..]);
        rest.(sent := one.sent + rest.sent)
  }

  // ----- what a sequence of frames means

  predicate IsControl(opcode: byte) {
    opcode == CLOSE || opcode == PING || opcode == PONG
  }

  /**
   * Section 5.4 of RFC 6455: messages are not interleaved, control frames are not fragmented and may
   * stand between fragments. `open` is the opcode of the message under way. A close ends it all.
   */
  predicate Conforming(frames: seq<Frame>, open: Option<byte>)
    decreases |frames|
  {
    frames == [] ||
    var (f, rest) := (frames[0], frames[1..]);
    if IsControl(f.opcode) then
      f.fin && (f.opcode == CLOSE || Conforming(rest, open))
    else if open.Some? then
      f.opcode == CONTINUATION && Conforming(rest, if f.fin then None else open)
    else
      (f.opcode == TEXT || f.opcode == BINARY) && Conforming(rest, if f.fin then None else Some(f.opcode))
  }

  /** What a receiver sees, in the order of completion. */
  datatype Event =
    | Message(opcode: byte, payload: bytes)
    | Control(opcode: byte, payload: bytes)
    | TooLong // the limit on a text message in fragments is passed; nothing is seen behind it

  /** Reassembly. `held` are the fragments so far of the message under way. */
  function Events(frames: seq<Frame>, open: Option<byte>, held: bytes): seq<Event>
    decreases |frames|
  {
    if frames == [] then []
    else
      var (f, rest) := (frames[0], frames[1..]);
      if IsControl(f.opcode) then
        [Control(f.opcode, f.payload)] + (if f.opcode == CLOSE then [] else Events(rest, open, held))
      else
        var opcode := if open.Some? then open.value else f.opcode;
        var payload := held + f.payload;
        if opcode == TEXT && (open.Some? || !f.fin) && |payload| > MAX_TEXT_MESSAGE_BYTES then [TooLong]
        else if f.fin then [Message(opcode, payload)] + Events(rest, None, [])
        else Events(rest, Some(opcode), payload)
  }

  /** The events with every text payload rewritten, up to the first failure; and whether there is none. */
  function RewrittenEvents<S>(step: Rewriter<S>, s: S, events: seq<Event>): (seq<Event>, bool)
    decreases |events|
  {
    if events == [] then ([], true)
    else if events[0].TooLong? then ([], false)
    else if events[0].Message? && events[0].opcode == TEXT then
      match step(s, events[0].payload)
      case None => ([], false)
      case Some((s1, out)) =>
        var rest := RewrittenEvents(step, s1, events[1..]);
        ([Message(TEXT, out)] + rest.0, rest.1)
    else
      var rest := RewrittenEvents(step, s, events[1..]);
      ([events[0]] + rest.0, rest.1)
  }

  // ----- the relay of a conforming sequence

  /** The buffer while the message `open` is under way. */
  function Buffered(open: Option<byte>, held: bytes): Partial {
    if open == Some(TEXT) then Partial(open, held) else NOTHING
  }

  /** The message under way as the receiver sees it: a text message shows only when it is complete. */
  function Shown(open: Option<byte>): Option<byte> {
    if open == Some(TEXT) then None else open
  }

  function ShownHeld(open: Option<byte>, held: bytes): bytes {
    if open == Some(TEXT) then [] else held
  }

  predicate Underway(open: Option<byte>, held: bytes) {
    (open == None && held == []) || open == Some(TEXT) || open == Some(BINARY)
  }

  /** The events of a run are the events of its input, rewritten; and what it sends conforms. */
  ghost predicate Faithful<S>(step: Rewriter<S>, s: S, frames: seq<Frame>, open: Option<byte>, held: bytes) {
    var run := RelayRun(step, Buffered(open, held), s, frames);
    var wanted := RewrittenEvents(step, s, Events(frames, open, held));
    && Conforming(run.sent, Shown(open))
    && Events(run.sent, Shown(open), ShownHeld(open, held)) == wanted.0
    && (run.status.Failed? <==> !wanted.1)
  }

  /**
   * Reassembling what is relayed gives the same messages in the same order of completion, with only
   * the text payloads rewritten, and control frames in place.
   */
  lemma {:induction false} RunIsFaithful<S>(
      step: Rewriter<S>, s: S, frames: seq<Frame>, open: Option<byte>, held: bytes)
    requires Conforming(frames, open) && Underway(open, held)
    ensures Faithful(step, s, frames, open, held)
    decreases |frames|
  {
    if frames != [] {
      var f := frames[0];
      if IsControl(f.opcode) {
        ControlFrame(step, s, frames, open, held);
      } else if open == Some(TEXT) || (open == None && f.opcode == TEXT) {
        TextFrame(step, s, frames, open, held);
      } else {
        BinaryFrame(step, s, frames, open, held);
      }
    }
  }

  lemma {:induction false} ControlFrame<S>(
      step: Rewriter<S>, s: S, frames: seq<Frame>, open: Option<byte>, held: bytes)
    requires Conforming(frames, open) && Underway(open, held)
    requires frames != [] && IsControl(frames[0].opcode)
    ensures Faithful(step, s, frames, open, held)
    decreases |frames|, 0
  {
    var (f, rest) := (frames[0], frames[1..]);
    var events := Events(frames, open, held);
    if f.opcode == CLOSE {
      assert events == [Control(CLOSE, f.payload)];
    } else {
      RunIsFaithful(step, s, rest, open, held);
      var sent := RelayRun(step, Buffered(open, held), s, rest).sent;
      assert ([f] + sent)[1..] == sent;
      assert events[1..] == Events(rest, open, held);
    }
  }

  lemma {:induction false} BinaryFrame<S>(
      step: Rewriter<S>, s: S, frames: seq<Frame>, open: Option<byte>, held: bytes)
    requires Conforming(frames, open) && Underway(open, held)
    requires frames != [] && !IsControl(frames[0].opcode)
    requires open == Some(BINARY) || (open == None && frames[0].opcode == BINARY)
    ensures Faithful(step, s, frames, open, held)
    decreases |frames|, 0
  {
    var (f, rest) := (frames[0], frames[1..]);
    var open1 := if f.fin then None else Some(BINARY);
    var held1 := if f.fin then [] else held + f.payload;
    RunIsFaithful(step, s, rest, open1, held1);
    var sent := RelayRun(step, NOTHING, s, rest).sent;
    assert ([f] + sent)[1..] == sent;
    var events := Events(frames, open, held);
    if f.fin {
      assert events[1..] == Events(rest, None, []);
    }
  }

  lemma {:induction false} TextFrame<S>(
      step: Rewriter<S>, s: S, frames: seq<Frame>, open: Option<byte>, held: bytes)
    requires Conforming(frames, open) && Underway(open, held)
    requires frames != [] && !IsControl(frames[0].opcode)
    requires open == Some(TEXT) || (open == None && frames[0].opcode == TEXT)
    ensures Faithful(step, s, frames, open, held)
    decreases |frames|, 1
  {
    var (f, rest) := (frames[0], frames[1..]);
    var payload := held + f.payload;
    if open.None? {
      assert payload == f.payload;
    }
    if (open.Some? || !f.fin) && |payload| > MAX_TEXT_MESSAGE_BYTES {
      assert Events(frames, open, held) == [TooLong];
    } else if f.fin {
      CompleteText(step, s, frames, open, held);
    } else {
      RunIsFaithful(step, s, rest, Some(TEXT), payload);
      hide Conforming, Events, RewrittenEvents;
      var sent := RelayRun(step, Buffered(Some(TEXT), payload), s, rest).sent;
      assert [] + sent == sent;
      assert RelayRun(step, Buffered(open, held), s, frames) == RelayRun(step, Buffered(Some(TEXT), payload), s, rest);
      PartialEvents(frames, open, held);
    }
  }

  lemma PartialEvents(frames: seq<Frame>, open: Option<byte>, held: bytes)
    requires frames != [] && Underway(open, held)
    requires !IsControl(frames[0].opcode) && !frames[0].fin
    requires open == Some(TEXT) || (open == None && frames[0].opcode == TEXT)
    requires |held + frames[0].payload| <= MAX_TEXT_MESSAGE_BYTES
    ensures Events(frames, open, held) == Events(frames[1..], Some(TEXT), held + frames[0].payload)
  {
  }

  lemma {:induction false} CompleteText<S>(
      step: Rewriter<S>, s: S, frames: seq<Frame>, open: Option<byte>, held: bytes)
    requires Conforming(frames, open) && Underway(open, held)
    requires frames != [] && !IsControl(frames[0].opcode) && frames[0].fin
    requires open == Some(TEXT) || (open == None && frames[0].opcode == TEXT)
    requires open == None || |held + frames[0].payload| <= MAX_TEXT_MESSAGE_BYTES
    ensures Faithful(step, s, frames, open, held)
    decreases |frames|, 0
  {
    var (f, rest) := (frames[0], frames[1..]);
    var payload := held + f.payload;
    var events := Events(frames, open, held);
    if open.None? {
      assert payload == f.payload;
    }
    assert events[1..] == Events(rest, None, []);
    match step(s, payload) {
      case None =>
      case Some((s1, out)) =>
        RunIsFaithful(step, s1, rest, None, []);
        var sent := RelayRun(step, NOTHING, s1, rest).sent;
        assert ([Frame(true, TEXT, out)] + sent)[1..] == sent;
        assert [] + out == out;
    }
  }

  // ----- any sequence at all

  /** With no text message under way the buffer is empty. */
  predicate Tidy(partial: Partial) {
    partial.active == Some(TEXT) || partial == NOTHING
  }

  /** A payload the rewriter has given out. */
  ghost predicate GivenOut<S(!new)>(step: Rewriter<S>, payload: bytes) {
    exists s: S, raw: bytes :: step(s, raw).Some? && step(s, raw).value.1 == payload
  }

  /**
   * Whatever the client sends: with no active text message the buffer is empty, every text frame sent
   * is complete and carries what the rewriter gave out, and nothing is sent behind a close.
   */
  lemma {:induction false} AnyRun<S(!new)>(step: Rewriter<S>, partial: Partial, s: S, frames: seq<Frame>)
    requires Tidy(partial)
    ensures var run := RelayRun(step, partial, s, frames);
            && Tidy(run.partial)
            && (forall i :: 0 <= i < |run.sent| && run.sent[i].opcode == TEXT ==>
                  run.sent[i].fin && GivenOut(step, run.sent[i].payload))
            && (forall i :: 0 <= i < |run.sent| && run.sent[i].opcode == CLOSE ==>
                  run.sent[i].fin && i == |run.sent| - 1 && run.status.Closed?)
            && (run.status.Closed? ==> run.sent != [] && run.sent[|run.sent| - 1].opcode == CLOSE)
    decreases |frames|
  {
    if frames != [] {
      OneFrame(step, partial, s, frames[0]);
      var one := Handled(step, partial, s, frames[0]);
      if one.status.Going? {
        AnyRun(step, one.partial, one.s, frames[1..]);
      }
    }
  }

  lemma OneFrame<S(!new)>(step: Rewriter<S>, partial: Partial, s: S, f: Frame)
    requires Tidy(partial)
    ensures var one := Handled(step, partial, s, f);
            && Tidy(one.partial) && |one.sent| <= 1
            && (one.sent != [] && one.sent[0].opcode == TEXT ==> one.sent[0].fin && GivenOut(step, one.sent[0].payload))
            && (one.status.Closed? <==> one.sent != [] && one.sent[0].opcode == CLOSE)
            && (one.status.Closed? ==> one.sent[0].fin)
  {
    var one := Handled(step, partial, s, f);
    if one.sent != [] && one.sent[0].opcode == TEXT {
      var raw := if f.opcode == TEXT then f.payload else partial.payload + f.payload;
      assert step(s, raw).Some? && step(s, raw).value.1 == one.sent[0].payload;
    }
  }

  // ----- the objects

  class MessageBuffer {
    var activeOpcode: Option<byte>
    var payload: bytes

    ghost function Value(): Partial
      reads this
    {
      Partial(activeOpcode, payload)
    }

    constructor ()
      ensures Value() == NOTHING
    {
      activeOpcode, payload := None, [];
    }

    method AppendFragment(more: bytes) returns (ok: bool)
      modifies this`payload
      ensures match Grown(old(payload), more)
              case None => !ok && payload == old(payload)
              case Some(grown) => ok && payload == grown
    {
      if |payload| + |more| > MAX_TEXT_MESSAGE_BYTES {
        return false;
      }
      payload := payload + more;
      ok := true;
    }
  }

  class ClientRelay<!S> {
    const step: Rewriter<S>
    const buffer: MessageBuffer
    var sanitizer: S
    var upstream: seq<Frame>

    constructor (step: Rewriter<S>, sanitizer: S)
      ensures this.step == step && this.sanitizer == sanitizer && upstream == []
      ensures fresh(buffer) && buffer.Value() == NOTHING
    {
      this.step, this.sanitizer, upstream := step, sanitizer, [];
      buffer := new MessageBuffer();
    }

    method SanitizeAndWrite(payload: bytes) returns (ok: bool)
      modifies this
      ensures var one := TextRelayed(step, buffer.Value(), old(sanitizer), payload);
              && ok == one.status.Going?
              && sanitizer == one.s && upstream == old(upstream) + one.sent
    {
      match step(sanitizer, payload) {
        case None =>
          assert upstream == upstream + [];
          return false;
        case Some((next, out)) =>
          sanitizer := next;
          upstream := upstream + [Frame(true, TEXT, out)];
          ok := true;
      }
    }

    method HandlePassthroughFrame(f: Frame) returns (status: Status)
      modifies this`upstream
      ensures var one := Passed(buffer.Value(), sanitizer, f);
              status == one.status && upstream == old(upstream) + one.sent
    {
      if f.opcode == BINARY || f.opcode == CONTINUATION {
        upstream := upstream + [f];
        return Going;
      } else if f.opcode == CLOSE {
        upstream := upstream + [Frame(true, CLOSE, f.payload)];
        return Closed;
      } else if f.opcode == PING || f.opcode == PONG {
        upstream := upstream + [Frame(true, f.opcode, f.payload)];
        return Going;
      }
      assert upstream == upstream + [];
      return Failed;
    }

    method HandleClientFrame(f: Frame) returns (status: Status)
      modifies this, buffer
      ensures var one := Handled(step, old(buffer.Value()), old(sanitizer), f);
              && status == one.status && buffer.Value() == one.partial
              && sanitizer == one.s && upstream == old(upstream) + one.sent
    {
      assert upstream == upstream + [];
      if f.opcode == TEXT {
        if f.fin {
          var ok := SanitizeAndWrite(f.payload);
          status := if ok then Going else Failed;
        } else {
          buffer.activeOpcode := Some(TEXT);
          var ok := buffer.AppendFragment(f.payload);
          status := if ok then Going else Failed;
        }
      } else if f.opcode == CONTINUATION && buffer.activeOpcode == Some(TEXT) {
        var ok := buffer.AppendFragment(f.payload);
        if ok && f.fin {
          var payload := buffer.payload;
          buffer.payload := [];
          buffer.activeOpcode := None;
          ok := SanitizeAndWrite(payload);
        }
        status := if ok then Going else Failed;
      } else {
        status := HandlePassthroughFrame(f);
      }
    }

    /** The relay loop, seen from the client's side. */
    method RelayClient(reader: FrameReader) returns (status: Status)
      modifies this, buffer, reader
      ensures var run := RunBytes(step, old(buffer.Value()), old(sanitizer), old(reader.data));
              && status == run.status && upstream == old(upstream) + run.sent
    {
      ghost var all := RunBytes(step, buffer.Value(), sanitizer, reader.data);
      ghost var earlier := upstream;
      assert upstream == upstream + [];
      while true
        invariant var run := RunBytes(step, buffer.Value(), sanitizer, reader.data);
                  all.status == run.status && earlier + all.sent == upstream + run.sent
        decreases |reader.data|
      {
        hide ReadFrameFrom, Handled;
        ghost var (partial, s, sent) := (buffer.Value(), sanitizer, upstream);
        GotIsShorter(reader.data, true);
        var next := reader.ReadFrame(true);
        match next {
          case Eof =>
            assert upstream + [] == upstream;
            return Going;
          case Refused =>
            assert upstream + [] == upstream;
            return Failed;
          case Got(f, rest) =>
            status := HandleClientFrame(f);
            ghost var one := Handled(step, partial, s, f);
            if !status.Going? {
              return;
            }
            Assoc(sent, one.sent, RunBytes(step, buffer.Value(), sanitizer, rest).sent);
        }
      }
    }
  }

  // ----- from bytes to bytes

  /** A run over the frames that a byte stream holds; reading stops at a close. */
  function RunBytes<S>(step: Rewriter<S>, partial: Partial, s: S, text: bytes): Relayed<S>
    decreases |text|
  {
    GotIsShorter(text, true);
    match ReadFrameFrom(text, true)
    case Eof => Relayed(partial, s, [], Going)
    case Refused => Relayed(partial, s, [], Failed)
    case Got(f, left) =>
      var one := Handled(step, partial, s, f);
      if !one.status.Going? then one
      else
        var rest := RunBytes(step, one.partial, one.s, left);
        rest.(sent := one.sent + rest.sent)
  }

  lemma {:induction false} RunOfWritten<S>(
      step: Rewriter<S>, partial: Partial, s: S, frames: seq<(Frame, Option<Mask>)>)
    requires forall sent :: sent in frames ==> Sendable(sent.0) && sent.1.Some?
    ensures RunBytes(step, partial, s, WriteFrames(frames)) == RelayRun(step, partial, s, FramesOf(frames))
    decreases |frames|
  {
    if frames == [] {
      assert FramesOf(frames) == [];
    } else {
      hide ReadFrameFrom, WriteFrame, Handled;
      FrameRoundTrip(frames[0].0, frames[0].1, WriteFrames(frames[1..]));
      assert FramesOf(frames) == [frames[0].0] + FramesOf(frames[1..]);
      var one := Handled(step, partial, s, frames[0].0);
      if one.status.Going? {
        RunOfWritten(step, one.partial, one.s, frames[1..]);
      }
    }
  }

  /**
   * A conforming client's bytes, each frame under its own mask key: the frames the relay sends mean
   * what the client's frames mean, with the text rewritten.
   */
  lemma RelayOfBytes<S>(step: Rewriter<S>, s: S, frames: seq<(Frame, Option<Mask>)>)
    requires forall sent :: sent in frames ==> Sendable(sent.0) && sent.1.Some?
    requires Conforming(FramesOf(frames), None)
    ensures var run := RunBytes(step, NOTHING, s, WriteFrames(frames));
            && Conforming(run.sent, None)
            && Events(run.sent, None, []) == RewrittenEvents(step, s, Events(FramesOf(frames), None, [])).0
  {
    hide RelayRun, Events, RewrittenEvents, Conforming;
    RunOfWritten(step, NOTHING, s, frames);
    RunIsFaithful(step, s, FramesOf(frames), None, []);
  }

  /**
   * From bytes to bytes: `out` are the relayed frames, each under the mask key drawn for it. A server
   * that reads what is written for them sees what the client meant, with the text rewritten.
   */
  lemma RelayEndToEnd<S>(step: Rewriter<S>, s: S, frames: seq<(Frame, Option<Mask>)>, out: seq<(Frame, Option<Mask>)>)
    requires forall sent :: sent in frames ==> Sendable(sent.0) && sent.1.Some?
    requires Conforming(FramesOf(frames), None)
    requires FramesOf(out) == RunBytes(step, NOTHING, s, WriteFrames(frames)).sent
    requires forall sent :: sent in out ==> Sendable(sent.0) && sent.1.Some?
    ensures var read := ReadFrames(WriteFrames(out), true);
            && read.Some? && Conforming(read.value, None)
            && Events(read.value, None, []) == RewrittenEvents(step, s, Events(FramesOf(frames), None, [])).0
  {
    hide RunBytes, Events, RewrittenEvents, Conforming, WriteFrames, ReadFrames;
    RelayOfBytes(step, s, frames);
    FramesRoundTrip(out, true);
  }

  // ----- reads given up midway

  /**
   * The relay waits for either side at once, and gives up the client's read when the other side comes
   * first; the bytes that read had taken are gone. `lost[k]` counts those lost before the k-th client
   * frame is read, none behind the list.
   */
  function RunWithLosses<S>(step: Rewriter<S>, partial: Partial, s: S, text: bytes, lost: seq<nat>): Relayed<S>
    decreases |lost|
  {
    if lost == [] then RunBytes(step, partial, s, text)
    else
      match ReadFrameFrom(text[Min(lost[0], |text|)..], true)
      case Eof => Relayed(partial, s, [], Going)
      case Refused => Relayed(partial, s, [], Failed)
      case Got(f, left) =>
        var one := Handled(step, partial, s, f);
        if !one.status.Going? then one
        else
          var rest := RunWithLosses(step, one.partial, one.s, left, lost[1..]);
          rest.(sent := one.sent + rest.sent)
  }

  /** As long as no read is given up with bytes in hand, the other side makes no difference. */
  lemma {:induction false} NothingLost<S>(step: Rewriter<S>, partial: Partial, s: S, text: bytes, lost: seq<nat>)
    requires forall k :: 0 <= k < |lost| ==> lost[k] == 0
    ensures RunWithLosses(step, partial, s, text, lost) == RunBytes(step, partial, s, text)
    decreases |lost|
  {
    if lost != [] {
      assert text[0..] == text;
      match ReadFrameFrom(text, true) {
        case Eof =>
        case Refused =>
        case Got(f, left) =>
          var one := Handled(step, partial, s, f);
          NothingLost(step, one.partial, one.s, left, lost[1..]);
      }
    }
  }

  /** One byte lost: a ping that would be passed on, under the mask key of zeros, ends the relay with an error. */
  lemma LostByteFails<S>(step: Rewriter<S>, s: S)
    ensures var ping := WriteFrames([(Frame(true, PING, []), Some([0, 0, 0, 0]))]);
            && RunBytes(step, NOTHING, s, ping) == Relayed(NOTHING, s, [Frame(true, PING, [])], Going)
            && RunWithLosses(step, NOTHING, s, ping, [1]) == Relayed(NOTHING, s, [], Failed)
  {
    var frame, key: Mask := Frame(true, PING, []), [0, 0, 0, 0];
    var frames := [(frame, Some(key))];
    RunOfWritten(step, NOTHING, s, frames);
    assert FramesOf(frames) == [frame] && FramesOf(frames)[1..] == [];
    assert WriteFrames(frames) == WriteFrame(frame, Some(key)) == [0x89, 0x80, 0, 0, 0, 0];
    assert WriteFrames(frames)[1..] == [0x80, 0, 0, 0, 0];
  }
}
