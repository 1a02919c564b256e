/**
 * The relay of any frames at all (src/proxy/websocket.rs, `handle_client_frame`), conforming or not: what each
 * frame gives is told by the frames before it alone.
 */
module WsHistory {
  import opened Bytes
  import opened WsFrame
  import opened WsRelay

  /** Before the `i`-th frame a text message was begun by the `j`-th, and no last continuation came since. */
  ghost predicate OpenSince(frames: seq<Frame>, j: int, i: nat)
    requires i <= |frames|
  {
    && 0 <= j < i && frames[j].opcode == TEXT && !frames[j].fin
    && forall k :: j < k < i ==> !(frames[k].opcode == CONTINUATION && frames[k].fin)
  }

  ghost predicate TextOpen(frames: seq<Frame>, i: nat)
    requires i <= |frames|
  {
    exists j :: OpenSince(frames, j, i)
  }

  /** The payload of the `k`-th frame is held, or completes what is held. */
  ghost predicate Joins(frames: seq<Frame>, k: nat)
    requires k < |frames|
  {
    || (frames[k].opcode == TEXT && !frames[k].fin)
    || (frames[k].opcode == CONTINUATION && TextOpen(frames, k))
  }

  /** The payloads held before the `i`-th frame. */
  ghost function Held(frames: seq<Frame>, i: nat): bytes
    requires i <= |frames|
  {
    if i == 0 || !TextOpen(frames, i) then []
    else Held(frames, i - 1) + (if Joins(frames, i - 1) then frames[i - 1].payload else [])
  }

  /** What the `i`-th frame is answered with, and the state of the rewriter behind it. */
  ghost predicate Answered<S>(step: Rewriter<S>, frames: seq<Frame>, i: nat, s: S, s1: S, sent: seq<Frame>)
    requires i < |frames|
  {
    var f := frames[i];
    if f.opcode == TEXT && f.fin then
      |sent| == 1 && sent[0].fin && sent[0].opcode == TEXT && step(s, f.payload) == Some((s1, sent[0].payload))
    else if Joins(frames, i) && f.fin then
      && |sent| == 1 && sent[0].fin && sent[0].opcode == TEXT
      && step(s, Held(frames, i) + f.payload) == Some((s1, sent[0].payload))
    else if Joins(frames, i) then s1 == s && sent == []
    else if f.opcode == BINARY || f.opcode == CONTINUATION then s1 == s && sent == [f]
    else s1 == s && sent == [Frame(true, f.opcode, f.payload)]
  }

  /** An opcode of section 5.2 of RFC 6455 that is not reserved. */
  predicate KnownOpcode(opcode: byte) {
    opcode <= 2 || 8 <= opcode <= 10
  }

  /** The `i`-th frame is refused: its opcode is reserved, the text grows too long, or it is not rewritten. */
  ghost predicate RefusedAt<S>(step: Rewriter<S>, frames: seq<Frame>, i: nat, s: S)
    requires i < |frames|
  {
    var f := frames[i];
    || !KnownOpcode(f.opcode)
    || (Joins(frames, i) && |Held(frames, i)| + |f.payload| > MAX_TEXT_MESSAGE_BYTES)
    || (f.opcode == TEXT && f.fin && step(s, f.payload).None?)
    || (Joins(frames, i) && f.fin && step(s, Held(frames, i) + f.payload).None?)
  }

  ghost function PartialAt(frames: seq<Frame>, i: nat): Partial
    requires i <= |frames|
  {
    if TextOpen(frames, i) then Partial(Some(TEXT), Held(frames, i)) else NOTHING
  }

  /** One more frame opens a text message, ends it, or leaves it as it was. */
  lemma OpenNext(frames: seq<Frame>, i: nat)
    requires i < |frames|
    ensures var f := frames[i];
            TextOpen(frames, i + 1)
            <==> (f.opcode == TEXT && !f.fin) || (TextOpen(frames, i) && !(f.opcode == CONTINUATION && f.fin))
  {
    var f := frames[i];
    if f.opcode == TEXT && !f.fin {
      assert OpenSince(frames, i, i + 1);
    } else if TextOpen(frames, i) && !(f.opcode == CONTINUATION && f.fin) {
      var j :| OpenSince(frames, j, i);
      assert OpenSince(frames, j, i + 1);
    } else if TextOpen(frames, i + 1) {
      var j :| OpenSince(frames, j, i + 1);
      assert OpenSince(frames, j, i);
    }
  }

  lemma NothingHeld(frames: seq<Frame>, i: nat)
    requires i <= |frames| && !TextOpen(frames, i)
    ensures Held(frames, i) == []
  {
  }

  /** The machine's buffer follows the history, and its answer is told by it. */
  lemma StepByHistory<S>(step: Rewriter<S>, s: S, frames: seq<Frame>, i: nat)
    requires i < |frames|
    ensures var one := Handled(step, PartialAt(frames, i), s, frames[i]);
            && (one.status.Failed? <==> RefusedAt(step, frames, i, s))
            && (one.status.Closed? <==> frames[i].opcode == CLOSE)
            && (one.status.Failed? ==> one.sent == [])
            && (!one.status.Failed? ==>
                  Answered(step, frames, i, s, one.s, one.sent) && one.partial == PartialAt(frames, i + 1))
  {
    var f := frames[i];
    OpenNext(frames, i);
    if !TextOpen(frames, i) {
      NothingHeld(frames, i);
      assert [] + f.payload == f.payload;
    }
    assert Held(frames, i) + [] == Held(frames, i);
    hide TextOpen;
  }

  function AllSent(sents: seq<seq<Frame>>): seq<Frame> {
    if sents == [] then [] else sents[0] + AllSent(sents[1..])
  }

  /** How a run goes from the `k`-th frame on: `n` frames answered, the states between them, and its end. */
  ghost predicate RunsSo<S>(step: Rewriter<S>, frames: seq<Frame>, k: nat, states: seq<S>, sents: seq<seq<Frame>>,
                            run: Relayed<S>)
    requires k <= |frames|
  {
    var n := |sents|;
    && |states| == n + 1 && k + n <= |frames|
    && (forall i :: 0 <= i < n ==> AnsweredAt(step, frames, k + i, states[i], states[i + 1], sents[i]))
    && (forall j :: k <= j < k + n - 1 ==> frames[j].opcode != CLOSE)
    && run.sent == AllSent(sents)
    && match run.status
       case Going => k + n == |frames| && (n > 0 ==> frames[|frames| - 1].opcode != CLOSE)
       case Closed => n > 0 && frames[k + n - 1].opcode == CLOSE
       case Failed =>
         && k + n < |frames| && RefusedAt(step, frames, k + n, states[n])
         && (n > 0 ==> frames[k + n - 1].opcode != CLOSE)
  }

  ghost predicate AnsweredAt<S>(step: Rewriter<S>, frames: seq<Frame>, i: nat, s: S, s1: S, sent: seq<Frame>) {
    i < |frames| && Answered(step, frames, i, s, s1, sent) && !RefusedAt(step, frames, i, s)
  }

  lemma {:induction false} RunFrom<S>(step: Rewriter<S>, s: S, frames: seq<Frame>, k: nat)
    returns (states: seq<S>, sents: seq<seq<Frame>>)
    requires k <= |frames|
    ensures RunsSo(step, frames, k, states, sents, RelayRun(step, PartialAt(frames, k), s, frames[k..]))
    ensures states != [] && states[0] == s
    decreases |frames| - k
  {
    if k == |frames| {
      states, sents := [s], [];
    } else {
      StepByHistory(step, s, frames, k);
      var one := Handled(step, PartialAt(frames, k), s, frames[k]);
      assert frames[k..][0] == frames[k] && frames[k..][1..] == frames[k + 1..];
      hide Handled, PartialAt, Answered, RefusedAt;
      if one.status.Failed? {
        states, sents := [s], [];
      } else if one.status.Closed? {
        states, sents := [s, one.s], [one.sent];
        SentOne(one.sent);
      } else {
        var states1, sents1 := RunFrom(step, one.s, frames, k + 1);
        states, sents := [s] + states1, [one.sent] + sents1;
        RunsCons(step, s, frames, k, one.sent, states1, sents1,
                 RelayRun(step, one.partial, one.s, frames[k + 1..]));
      }
    }
  }

  lemma SentOne(sent: seq<Frame>)
    ensures AllSent([sent]) == sent
  {
    assert [sent][1..] == [] && sent + [] == sent;
  }

  lemma RunsCons<S>(step: Rewriter<S>, s: S, frames: seq<Frame>, k: nat, sent: seq<Frame>, states: seq<S>,
                    sents: seq<seq<Frame>>, run: Relayed<S>)
    requires k < |frames| && frames[k].opcode != CLOSE && RunsSo(step, frames, k + 1, states, sents, run)
    requires AnsweredAt(step, frames, k, s, states[0], sent)
    ensures RunsSo(step, frames, k, [s] + states, [sent] + sents, run.(sent := sent + run.sent))
  {
    hide AnsweredAt, RefusedAt;
    var allStates, all := [s] + states, [sent] + sents;
    assert all[1..] == sents;
    forall i | 0 <= i < |all|
      ensures AnsweredAt(step, frames, k + i, allStates[i], allStates[i + 1], all[i])
    {
      if i > 0 {
        assert allStates[i + 1] == states[i] && all[i] == sents[i - 1];
        assert AnsweredAt(step, frames, k + 1 + (i - 1), states[i - 1], states[i], sents[i - 1]);
      }
    }
  }

  /**
   * Any frames: those up to a close, a refused one or the end are answered one by one as the frames
   * before them tell, and nothing else is sent; the run fails exactly at the first frame that is refused.
   */
  lemma AnyFrames<S>(step: Rewriter<S>, s: S, frames: seq<Frame>) returns (states: seq<S>, sents: seq<seq<Frame>>)
    ensures RunsSo(step, frames, 0, states, sents, RelayRun(step, NOTHING, s, frames))
    ensures states != [] && states[0] == s
  {
    assert !TextOpen(frames, 0);
    assert frames[0..] == frames;
    states, sents := RunFrom(step, s, frames, 0);
  }
}
