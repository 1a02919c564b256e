/**
 * What the conversation sanitizer (src/sanitize.rs, `sanitize_text`) puts out for a text with directives:
 * plain parts and placeholders in place first, and then every chosen span replaced.
 */
module ConversationText {
  import opened Bytes
  import opened Placeholder
  import opened Registry
  import opened Span
  import opened Scanner
  import opened RoundTrip
  import opened Directive
  import opened DirectiveText
  import opened Conversation

  // ----- the text to scan

  /** The blocks stand in the text one behind another, each from its cut to the next. */
  ghost predicate Tiled(text: bytes, blocks: seq<bytes>, cuts: seq<nat>) {
    && |cuts| == |blocks| + 1 && cuts[0] == 0 && cuts[|blocks|] == |text|
    && forall i :: 0 <= i < |blocks| ==> OccursAt(text, cuts[i], blocks[i]) && cuts[i + 1] == cuts[i] + |blocks[i]|
  }

  /** What stands in the text for a part: its own bytes, or a placeholder. */
  function Shown(mark: DirectivePart): bytes {
    if mark.PlainPart? then mark.text else mark.placeholder
  }

  function AllShown(marks: seq<DirectivePart>): (r: seq<bytes>)
    ensures |r| == |marks| && forall i :: 0 <= i < |marks| ==> r[i] == Shown(marks[i])
  {
    seq(|marks|, i requires 0 <= i < |marks| => Shown(marks[i]))
  }

  lemma {:induction false} NormalTextTiled(marks: seq<DirectivePart>) returns (cuts: seq<nat>)
    ensures Tiled(NormalText(marks), AllShown(marks), cuts)
    decreases |marks|
  {
    if marks == [] {
      cuts := [0];
    } else {
      var rest := NormalTextTiled(marks[1..]);
      var size := |Shown(marks[0])|;
      cuts := [0] + seq(|rest|, i requires 0 <= i < |rest| => size + rest[i]);
      assert AllShown(marks)[1..] == AllShown(marks[1..]);
      TiledCons(Shown(marks[0]), NormalText(marks[1..]), AllShown(marks[1..]), rest, cuts);
      assert AllShown(marks) == [Shown(marks[0])] + AllShown(marks[1..]);
    }
  }

  lemma TiledCons(block: bytes, text: bytes, blocks: seq<bytes>, rest: seq<nat>, cuts: seq<nat>)
    requires Tiled(text, blocks, rest)
    requires |cuts| == |rest| + 1 && cuts[0] == 0 && forall i :: 0 <= i < |rest| ==> cuts[i + 1] == |block| + rest[i]
    ensures Tiled(block + text, [block] + blocks, cuts)
  {
    var all := [block] + blocks;
    forall i | 0 <= i < |all|
      ensures OccursAt(block + text, cuts[i], all[i]) && cuts[i + 1] == cuts[i] + |all[i]|
    {
      if i == 0 {
        assert (block + text)[0..|block|] == block;
      } else {
        OccursInRight(block, text, cuts[i], all[i]);
        assert OccursAt(text, rest[i - 1], blocks[i - 1]) && rest[i] == rest[i - 1] + |blocks[i - 1]|;
      }
    }
  }

  /** A mark stands for its part: the same bytes, or the placeholder and the id of the part's secret. */
  ghost predicate StandsFor(es: seq<Entry>, part: Part, mark: DirectivePart) {
    if part.Plain? then mark == PlainPart(part.text)
    else
      && mark.SecretPart? && 1 <= mark.id <= |es|
      && es[mark.id - 1].secret == part.text && es[mark.id - 1].placeholder == mark.placeholder
  }

  ghost predicate AllStandFor(es: seq<Entry>, parts: seq<Part>, marks: seq<DirectivePart>) {
    |marks| == |parts| && forall i :: 0 <= i < |parts| ==> StandsFor(es, parts[i], marks[i])
  }

  lemma MarkedStandsFor(keys: SessionKeys, es: seq<Entry>, part: Part, mark: DirectivePart)
    requires WellFormed(keys, es) && Marked(es, part, mark)
    ensures StandsFor(es, part, mark)
  {
    if part.Secret? {
      assert EntryOk(keys, es[IdOf(es, part.text) - 1], IdOf(es, part.text));
    }
  }

  /** The text to scan has the plain parts in place and the placeholder of each directive where it was. */
  lemma NormalizedInPlace(keys: SessionKeys, es: seq<Entry>, text: bytes) returns (cuts: seq<nat>)
    requires WellFormed(keys, es) && Parse(text).Ok?
    ensures var n := Normalized(keys, es, text);
            if HasSecret(Parse(text).value)
            then AllStandFor(n.es, Parse(text).value, n.marks) && Tiled(n.text, AllShown(n.marks), cuts)
            else n.text == text && n.marks == []
  {
    cuts := [];
    hide Parse, WellFormed, Tiled, NormalText, Marked, StandsFor;
    if HasSecret(Parse(text).value) {
      NormalizedProperty(keys, es, text);
      var n := Normalized(keys, es, text);
      cuts := NormalTextTiled(n.marks);
      forall i | 0 <= i < |n.marks|
        ensures StandsFor(n.es, Parse(text).value[i], n.marks[i])
      {
        MarkedStandsFor(keys, n.es, Parse(text).value[i], n.marks[i]);
      }
    }
  }

  // ----- its spans

  /** `s` is a place of the placeholder of the `j`-th mark. */
  ghost predicate PlaceOf(text: bytes, marks: seq<DirectivePart>, s: RedactionSpan, j: nat) {
    && j < |marks| && marks[j].SecretPart? && marks[j].placeholder != []
    && s == RedactionSpan(s.start, |marks[j].placeholder|, marks[j].id, [])
    && OccursAt(text, s.start, marks[j].placeholder)
  }

  /** The directives' spans are all the places of their placeholders, and nothing else. */
  lemma {:induction false} MarkSpansArePlaces(text: bytes, marks: seq<DirectivePart>, s: RedactionSpan)
    ensures s in MarkSpans(text, marks) <==> exists j: nat :: PlaceOf(text, marks, s, j)
    decreases |marks|
  {
    if marks != [] {
      var rest := marks[1..];
      MarkSpansArePlaces(text, rest, s);
      assert PlaceOf(text, marks, s, 0)
        <==> marks[0].SecretPart? && s in PlacesOf(text, marks[0].placeholder, marks[0].id, 0);
      if exists j: nat :: PlaceOf(text, rest, s, j) {
        var j: nat :| PlaceOf(text, rest, s, j);
        assert PlaceOf(text, marks, s, j + 1);
      }
      if exists j: nat :: j > 0 && PlaceOf(text, marks, s, j) {
        var j: nat :| j > 0 && PlaceOf(text, marks, s, j);
        assert PlaceOf(text, rest, s, j - 1);
      }
    }
  }

  /** No held secret has a brace. */
  ghost predicate BraceFreeSecrets(es: seq<Entry>) {
    forall i :: 0 <= i < |es| ==> BraceFree(es[i].secret)
  }

  /** A stretch at least as long as a placeholder that shares a byte with it covers one of its outer braces. */
  lemma LongerHasBrace(text: bytes, at: nat, p: bytes, b: nat, secret: bytes)
    requires Shaped(p) && OccursAt(text, at, p) && OccursAt(text, b, secret)
    requires b < at + |p| && at < b + |secret| && |secret| >= |p|
    ensures !BraceFree(secret)
  {
    OccursAtBytes(text, at, p);
    OccursAtBytes(text, b, secret);
    if b <= at {
      assert secret[at - b] == text[at] == p[0];
    } else {
      var last := at + |p| - 1;
      assert secret[last - b] == text[last] == p[|p| - 1];
    }
  }

  /** No scanned secret without braces is in the way of a placeholder. */
  lemma NoSecretInTheWay(keys: SessionKeys, text: bytes, es: seq<Entry>, at: nat, p: bytes, b: RedactionSpan)
    requires WellFormed(keys, es) && BraceFreeSecrets(es) && Shaped(p) && OccursAt(text, at, p)
    requires b in Bares(Scan(text, es)) && b.start < at + |p| && at < b.start + b.len
    ensures b.len < |p|
  {
    hide Scan, WellFormed, BraceFree, Shaped;
    ScanTrueSpans(keys, text, es);
    var i :| 0 <= i < |Scan(text, es)| && b == Bare(Scan(text, es)[i]);
    var s := Scan(text, es)[i];
    assert IsOccurrence(text, es, s);
    TrueSpan(keys, text, es, s);
    if b.len >= |p| {
      LongerHasBrace(text, at, p, s.start, es[s.id - 1].secret);
    }
  }

  /** Nor is the placeholder of another directive. */
  lemma NoMarkInTheWay(text: bytes, es: seq<Entry>, marks: seq<DirectivePart>, c: RedactionSpan, i: nat,
                       b: RedactionSpan, j: nat)
    requires DistinctPlaceholders(es) && PlaceOf(text, marks, c, i) && PlaceOf(text, marks, b, j)
    requires 1 <= c.id <= |es| && 1 <= b.id <= |es|
    requires es[c.id - 1].placeholder == marks[i].placeholder && es[b.id - 1].placeholder == marks[j].placeholder
    requires Shaped(marks[i].placeholder) && Shaped(marks[j].placeholder) && b.Overlaps(c)
    ensures b == c
  {
    NoPartialOverlap(text, b.start, marks[j].placeholder, c.start, marks[i].placeholder);
  }

  lemma MarkKnown(keys: SessionKeys, es: seq<Entry>, more: seq<Entry>, parts: seq<Part>, marks: seq<DirectivePart>, j: nat)
    requires AllStandFor(es, parts, marks) && es <= more && WellFormed(keys, more)
    requires j < |marks| && marks[j].SecretPart?
    ensures 1 <= marks[j].id <= |more| && more[marks[j].id - 1].placeholder == marks[j].placeholder
    ensures Shaped(marks[j].placeholder) && more[marks[j].id - 1].secret == parts[j].text
  {
    assert StandsFor(es, parts[j], marks[j]);
    assert EntryOk(keys, more[marks[j].id - 1], marks[j].id);
  }

  /**
   * The placeholder of a directive is chosen, or left out for a chosen span that shares a byte with it and is
   * longer, or as long and further left, or the same stretch under a smaller id. Without braces in
   * the held secrets and with distinct placeholders it is chosen.
   */
  lemma DirectiveChosen(keys: SessionKeys, n: Normal, parts: seq<Part>, es: seq<Entry>, i: nat, at: nat)
    requires WellFormed(keys, es) && n.es <= es
    requires AllMarked(n.es, parts, n.marks) && AllStandFor(n.es, parts, n.marks)
    requires i < |n.marks| && n.marks[i].SecretPart? && OccursAt(n.text, at, n.marks[i].placeholder)
    ensures var c := RedactionSpan(at, |n.marks[i].placeholder|, n.marks[i].id, []);
            && (c in TextChoice(n, es)
                || exists b :: b in TextChoice(n, es) && b.start < at + c.len && at < b.start + b.len && Ranked(b, c))
            && (BraceFreeSecrets(es) && DistinctPlaceholders(es) ==> c in TextChoice(n, es))
  {
    hide WellFormed, AllMarked, AllStandFor, TextChoice, PlaceOf, BraceFreeSecrets, DistinctPlaceholders, Proper;
    var c := RedactionSpan(at, |n.marks[i].placeholder|, n.marks[i].id, []);
    MarkKnown(keys, n.es, es, parts, n.marks, i);
    CandidatePlaced(n.text, n.marks, i, at);
    assert c in Elements(AllSpans(n.text, es, n.marks));
    TextChoiceSound(keys, n, parts, es);
    if c !in TextChoice(n, es) {
      var b :| b in TextChoice(n, es) && b.Overlaps(c) && Ranked(b, c);
      if BraceFreeSecrets(es) && DistinctPlaceholders(es) {
        NothingInTheWay(keys, n, parts, es, i, c, b);
      }
    }
  }

  lemma CandidatePlaced(text: bytes, marks: seq<DirectivePart>, i: nat, at: nat)
    requires i < |marks| && marks[i].SecretPart? && Shaped(marks[i].placeholder)
    requires OccursAt(text, at, marks[i].placeholder)
    ensures var c := RedactionSpan(at, |marks[i].placeholder|, marks[i].id, []);
            PlaceOf(text, marks, c, i) && c in MarkSpans(text, marks)
  {
    var c := RedactionSpan(at, |marks[i].placeholder|, marks[i].id, []);
    assert PlaceOf(text, marks, c, i);
    MarkSpansArePlaces(text, marks, c);
  }

  lemma NothingInTheWay(keys: SessionKeys, n: Normal, parts: seq<Part>, es: seq<Entry>, i: nat, c: RedactionSpan,
                        b: RedactionSpan)
    requires WellFormed(keys, es) && n.es <= es && AllStandFor(n.es, parts, n.marks)
    requires BraceFreeSecrets(es) && DistinctPlaceholders(es)
    requires PlaceOf(n.text, n.marks, c, i) && b in AllSpans(n.text, es, n.marks) && b.Overlaps(c)
    ensures !Ranked(b, c)
  {
    hide WellFormed, AllStandFor, BraceFreeSecrets, DistinctPlaceholders, Scan, Bares, MarkSpans, Shaped;
    MarkKnown(keys, n.es, es, parts, n.marks, i);
    if b in Bares(Scan(n.text, es)) {
      NoSecretInTheWay(keys, n.text, es, c.start, n.marks[i].placeholder, b);
    } else {
      PlacedMark(n.text, es, n.marks, b);
      var j: nat :| PlaceOf(n.text, n.marks, b, j);
      hide PlaceOf;
      PlaceIsMark(n.text, n.marks, b, j);
      PlaceIsMark(n.text, n.marks, c, i);
      MarkKnown(keys, n.es, es, parts, n.marks, j);
      NoMarkInTheWay(n.text, es, n.marks, c, i, b, j);
    }
  }

  lemma PlacedMark(text: bytes, es: seq<Entry>, marks: seq<DirectivePart>, b: RedactionSpan)
    requires b in AllSpans(text, es, marks) && b !in Bares(Scan(text, es))
    ensures exists j: nat :: PlaceOf(text, marks, b, j)
  {
    hide Scan, Bares, MarkSpans, PlaceOf;
    MarkSpansArePlaces(text, marks, b);
  }

  lemma PlaceIsMark(text: bytes, marks: seq<DirectivePart>, s: RedactionSpan, j: nat)
    requires PlaceOf(text, marks, s, j)
    ensures j < |marks| && marks[j].SecretPart? && s.id == marks[j].id && s.len == |marks[j].placeholder|
  {
  }

  // ----- what goes out

  /** Where a stretch of the text from the `k`-th span's end on, or from `cursor` on for the first, begins. */
  function GapStart(cursor: nat, spans: seq<RedactionSpan>, k: nat): nat
    requires k <= |spans|
  {
    if k == 0 then cursor else spans[k - 1].End()
  }

  /** The gap in front of the `k`-th span, or the last one. */
  function Gap(text: bytes, cursor: nat, spans: seq<RedactionSpan>, k: nat): bytes
    requires Fits(text, cursor, spans) && k <= |spans|
  {
    text[GapStart(cursor, spans, k)..if k < |spans| then spans[k].start else |text|]
  }

  /** The `k`-th gap ends at `at[k]`, and begins right behind the replacement before it. */
  ghost predicate GapPlaced(
      text: bytes, out: bytes, cursor: nat, spans: seq<RedactionSpan>, m: Memo, at: seq<nat>, k: nat)
    requires Fits(text, cursor, spans) && Covered(spans, m) && |at| == |spans| + 1 && k <= |spans|
  {
    var gap := Gap(text, cursor, spans, k);
    && OccursAt(out, at[k] - |gap|, gap)
    && at[k] - |gap| == if k == 0 then 0 else at[k - 1] + |m.replacements[spans[k - 1].id]|
  }

  /**
   * The output is the text's gaps and the replacements by turns: the `k`-th replacement stands at `at[k]`,
   * right behind the gap in front of the `k`-th span, and the last gap ends the output.
   */
  ghost predicate Interleaved(text: bytes, out: bytes, cursor: nat, spans: seq<RedactionSpan>, m: Memo, at: seq<nat>)
    requires Fits(text, cursor, spans) && Covered(spans, m)
  {
    && |at| == |spans| + 1
    && at[|spans|] == |out|
    && (forall k :: 0 <= k < |spans| ==> OccursAt(out, at[k], m.replacements[spans[k].id]))
    && (forall k :: 0 <= k <= |spans| ==> GapPlaced(text, out, cursor, spans, m, at, k))
  }

  lemma {:induction false} ReplacedInterleaves(text: bytes, cursor: nat, spans: seq<RedactionSpan>, m: Memo)
    returns (at: seq<nat>)
    requires Fits(text, cursor, spans) && Covered(spans, m)
    ensures Interleaved(text, Replaced(text, cursor, spans, m), cursor, spans, m, at)
    decreases |spans|
  {
    var out := Replaced(text, cursor, spans, m);
    if spans == [] {
      at := [|out|];
      assert out[0..|out|] == out;
    } else {
      var rest := ReplacedInterleaves(text, spans[0].End(), spans[1..], m);
      var size := spans[0].start - cursor + |m.replacements[spans[0].id]|;
      at := [spans[0].start - cursor] + seq(|rest|, i requires 0 <= i < |rest| => size + rest[i]);
      InterleavedCons(text, cursor, spans, m, Replaced(text, spans[0].End(), spans[1..], m), rest, at);
    }
  }

  /** One more span in front. */
  ghost predicate Prepends(text: bytes, cursor: nat, spans: seq<RedactionSpan>, m: Memo, tail: bytes, rest: seq<nat>,
                           at: seq<nat>)
  {
    && Fits(text, cursor, spans) && Covered(spans, m) && spans != []
    && Fits(text, spans[0].End(), spans[1..]) && Covered(spans[1..], m)
    && Interleaved(text, tail, spans[0].End(), spans[1..], m, rest)
    && |at| == |rest| + 1 && at[0] == spans[0].start - cursor
    && forall i :: 0 <= i < |rest| ==> at[i + 1] == at[0] + |m.replacements[spans[0].id]| + rest[i]
  }

  lemma InterleavedCons(text: bytes, cursor: nat, spans: seq<RedactionSpan>, m: Memo, tail: bytes, rest: seq<nat>,
                        at: seq<nat>)
    requires Prepends(text, cursor, spans, m, tail, rest, at)
    ensures Interleaved(text, text[cursor..spans[0].start] + m.replacements[spans[0].id] + tail, cursor, spans, m, at)
  {
    var front := text[cursor..spans[0].start] + m.replacements[spans[0].id];
    hide Prepends, GapPlaced, OccursAt;
    Ends(text, cursor, spans, m, tail, rest, at);
    forall k | 0 <= k < |spans|
      ensures OccursAt(front + tail, at[k], m.replacements[spans[k].id])
    {
      NextReplacement(text, cursor, spans, m, tail, rest, at, k);
    }
    forall k | 0 <= k <= |spans|
      ensures GapPlaced(text, front + tail, cursor, spans, m, at, k)
    {
      NextGap(text, cursor, spans, m, tail, rest, at, k);
    }
  }

  lemma Ends(text: bytes, cursor: nat, spans: seq<RedactionSpan>, m: Memo, tail: bytes, rest: seq<nat>, at: seq<nat>)
    requires Prepends(text, cursor, spans, m, tail, rest, at)
    ensures Fits(text, cursor, spans) && Covered(spans, m) && spans != [] && |at| == |spans| + 1
    ensures at[|spans|] == |text[cursor..spans[0].start] + m.replacements[spans[0].id] + tail|
  {
  }

  lemma NextReplacement(text: bytes, cursor: nat, spans: seq<RedactionSpan>, m: Memo, tail: bytes, rest: seq<nat>,
                        at: seq<nat>, k: nat)
    requires Prepends(text, cursor, spans, m, tail, rest, at) && k < |spans|
    ensures OccursAt(text[cursor..spans[0].start] + m.replacements[spans[0].id] + tail, at[k],
                     m.replacements[spans[k].id])
  {
    var gap, r := text[cursor..spans[0].start], m.replacements[spans[0].id];
    hide GapPlaced;
    if k == 0 {
      assert (gap + r + tail)[|gap|..|gap| + |r|] == r;
    } else {
      assert spans[1..][k - 1] == spans[k];
      OccursInRight(gap + r, tail, at[k], m.replacements[spans[k].id]);
    }
  }

  lemma NextGap(text: bytes, cursor: nat, spans: seq<RedactionSpan>, m: Memo, tail: bytes, rest: seq<nat>,
                at: seq<nat>, k: nat)
    requires Prepends(text, cursor, spans, m, tail, rest, at) && k <= |spans|
    ensures GapPlaced(text, text[cursor..spans[0].start] + m.replacements[spans[0].id] + tail, cursor, spans, m, at, k)
  {
    var gap0, r := text[cursor..spans[0].start], m.replacements[spans[0].id];
    if k == 0 {
      assert (gap0 + r + tail)[0..|gap0|] == gap0;
    } else {
      SameGap(text, cursor, spans, k - 1);
      assert GapPlaced(text, tail, spans[0].End(), spans[1..], m, rest, k - 1);
      var gap := Gap(text, cursor, spans, k);
      OccursInRight(gap0 + r, tail, at[k] - |gap|, gap);
    }
  }

  lemma SameGap(text: bytes, cursor: nat, spans: seq<RedactionSpan>, k: nat)
    requires Fits(text, cursor, spans) && spans != [] && Fits(text, spans[0].End(), spans[1..]) && k < |spans|
    ensures Gap(text, cursor, spans, k + 1) == Gap(text, spans[0].End(), spans[1..], k)
    ensures k > 0 ==> spans[1..][k - 1] == spans[k]
  {
    assert k < |spans[1..]| ==> spans[1..][k] == spans[k + 1];
  }

  /** A call on a text with directives that is not refused. */
  ghost predicate Accepted(h: Habits, s: SanitizerState, text: bytes) {
    && GoodState(h, s) && Parse(text).Ok? && HasSecret(Parse(text).value)
    && AfterMatches(h.keys, Normalized(h.keys, s.es, text).es, h.patterns(Normalized(h.keys, s.es, text).text)).1
  }

  /**
   * The whole call: plain parts and placeholders are in place in the text to scan, and the output is that
   * text with each chosen span replaced.
   */
  lemma TextPutOut(h: Habits, s: SanitizerState, text: bytes) returns (cuts: seq<nat>, at: seq<nat>)
    requires Accepted(h, s, text)
    ensures var n := Normalized(h.keys, s.es, text);
            var (out, spans) := TextOutput(h, s, text);
            var m := AfterCall(h, s, Text(text)).memo;
            && AllStandFor(n.es, Parse(text).value, n.marks) && Tiled(n.text, AllShown(n.marks), cuts)
            && Fits(n.text, 0, spans) && Covered(spans, m)
            && Interleaved(n.text, out, 0, spans, m, at)
  {
    hide Parse, HasSecret, Normalized, AfterMatches, Interleaved, AllStandFor, Tiled, TextChoice, Fits, Covered,
         AfterCall;
    cuts := NormalizedPlaced(h, s, text);
    TextCovered(h, s, text);
    at := ReplacedInterleaves(
      Normalized(h.keys, s.es, text).text, 0, TextOutput(h, s, text).1, AfterCall(h, s, Text(text)).memo);
  }

  lemma NormalizedPlaced(h: Habits, s: SanitizerState, text: bytes) returns (cuts: seq<nat>)
    requires Accepted(h, s, text)
    ensures var n := Normalized(h.keys, s.es, text);
            AllStandFor(n.es, Parse(text).value, n.marks) && Tiled(n.text, AllShown(n.marks), cuts)
  {
    hide Parse, HasSecret, Normalized, AfterMatches, AllStandFor, Tiled;
    cuts := NormalizedInPlace(h.keys, s.es, text);
  }

  /**
   * Without braces in the held secrets and with distinct placeholders each directive comes out as the
   * one replacement of its own secret: as long as the secret, and different from it.
   */
  lemma DirectiveReplaced(h: Habits, s: SanitizerState, text: bytes, i: nat) returns (k: nat, cuts: seq<nat>, at: seq<nat>)
    requires Accepted(h, s, text) && i < |Parse(text).value| && Parse(text).value[i].Secret?
    requires BraceFreeSecrets(AfterCall(h, s, Text(text)).es) && DistinctPlaceholders(AfterCall(h, s, Text(text)).es)
    ensures var n := Normalized(h.keys, s.es, text);
            var (out, spans) := TextOutput(h, s, text);
            var s' := AfterCall(h, s, Text(text));
            && AllStandFor(n.es, Parse(text).value, n.marks) && Tiled(n.text, AllShown(n.marks), cuts)
            && Fits(n.text, 0, spans) && Covered(spans, s'.memo) && Interleaved(n.text, out, 0, spans, s'.memo, at)
            && k < |spans| && spans[k].start == cuts[i] && spans[k].End() == cuts[i + 1]
            && 1 <= spans[k].id <= |s'.es| && s'.es[spans[k].id - 1].secret == Parse(text).value[i].text
    ensures var r := AfterCall(h, s, Text(text)).memo.replacements[TextOutput(h, s, text).1[k].id];
            |r| == |Parse(text).value[i].text| && r != Parse(text).value[i].text
  {
    hide Parse, HasSecret, Normalized, AfterMatches, Interleaved, TextOutput, Fits, Covered, AllStandFor,
         Tiled, MemoSound, AfterCall, AllMarked, TextChoice, BraceFreeSecrets, DistinctPlaceholders,
         EntriesThen;
    cuts, at := TextPutOut(h, s, text);
    MarksOfAll(h, s, text);
    EntriesThenKept(h, s, text);
    EntriesThenUsed(h, s, text);
    k := DirectivePicked(
      h.keys, Normalized(h.keys, s.es, text), Parse(text).value, EntriesThen(h, s, text), i, cuts);
    CallKept(h, s, text, TextOutput(h, s, text).1, k);
  }

  lemma CallKept(h: Habits, s: SanitizerState, text: bytes, spans: seq<RedactionSpan>, k: nat)
    requires GoodState(h, s) && k < |spans| && Covered(spans, AfterCall(h, s, Text(text)).memo)
    ensures var s' := AfterCall(h, s, Text(text));
            && 1 <= spans[k].id <= |s'.es|
            && |s'.memo.replacements[spans[k].id]| == |s'.es[spans[k].id - 1].secret|
            && s'.memo.replacements[spans[k].id] != s'.es[spans[k].id - 1].secret
  {
    hide AfterCall, WellFormed;
    CallKeeps(h, s, Text(text));
  }

  lemma DirectivePicked(keys: SessionKeys, n: Normal, parts: seq<Part>, es: seq<Entry>, i: nat, cuts: seq<nat>)
    returns (k: nat)
    requires WellFormed(keys, es) && n.es <= es
    requires AllMarked(n.es, parts, n.marks) && AllStandFor(n.es, parts, n.marks)
    requires Tiled(n.text, AllShown(n.marks), cuts) && i < |parts| && parts[i].Secret?
    requires BraceFreeSecrets(es) && DistinctPlaceholders(es)
    ensures var spans := TextChoice(n, es);
            && i + 1 < |cuts|
            && k < |spans| && spans[k].start == cuts[i] && spans[k].End() == cuts[i + 1]
            && 1 <= spans[k].id <= |es| && es[spans[k].id - 1].secret == parts[i].text
  {
    hide TextChoice, WellFormed, BraceFreeSecrets, DistinctPlaceholders;
    MarkTiled(n, parts, i, cuts);
    MarkKnown(keys, n.es, es, parts, n.marks, i);
    DirectiveChosen(keys, n, parts, es, i, cuts[i]);
    var c := RedactionSpan(cuts[i], |n.marks[i].placeholder|, n.marks[i].id, []);
    k :| 0 <= k < |TextChoice(n, es)| && TextChoice(n, es)[k] == c;
  }

  lemma MarkTiled(n: Normal, parts: seq<Part>, i: nat, cuts: seq<nat>)
    requires AllStandFor(n.es, parts, n.marks) && Tiled(n.text, AllShown(n.marks), cuts)
    requires i < |parts| && parts[i].Secret?
    ensures |cuts| == |parts| + 1 && |n.marks| == |parts| && n.marks[i].SecretPart?
    ensures OccursAt(n.text, cuts[i], n.marks[i].placeholder) && cuts[i + 1] == cuts[i] + |n.marks[i].placeholder|
  {
    assert StandsFor(n.es, parts[i], n.marks[i]);
    assert AllShown(n.marks)[i] == Shown(n.marks[i]);
  }

  lemma MarksOfAll(h: Habits, s: SanitizerState, text: bytes)
    requires Accepted(h, s, text)
    ensures AllMarked(Normalized(h.keys, s.es, text).es, Parse(text).value, Normalized(h.keys, s.es, text).marks)
  {
    hide Parse, AfterMatches, WellFormed, MemoSound, Marked;
    NormalizedProperty(h.keys, s.es, text);
  }

  /** The entries that the text is scanned with. */
  ghost function EntriesThen(h: Habits, s: SanitizerState, text: bytes): (es: seq<Entry>)
    requires Accepted(h, s, text)
  {
    AfterMatches(h.keys, Normalized(h.keys, s.es, text).es, h.patterns(Normalized(h.keys, s.es, text).text)).0
  }

  lemma EntriesThenKept(h: Habits, s: SanitizerState, text: bytes)
    requires Accepted(h, s, text)
    ensures WellFormed(h.keys, EntriesThen(h, s, text)) && Normalized(h.keys, s.es, text).es <= EntriesThen(h, s, text)
  {
    hide Parse, HasSecret, AfterMatches, WellFormed, MemoSound, Normalized;
    NormalizedProperty(h.keys, s.es, text);
    AfterMatchesProperty(
      h.keys, Normalized(h.keys, s.es, text).es, h.patterns(Normalized(h.keys, s.es, text).text));
  }

  lemma EntriesThenUsed(h: Habits, s: SanitizerState, text: bytes)
    requires Accepted(h, s, text)
    ensures EntriesThen(h, s, text) == AfterCall(h, s, Text(text)).es
    ensures TextOutput(h, s, text).1 == TextChoice(Normalized(h.keys, s.es, text), EntriesThen(h, s, text))
  {
    hide Parse, HasSecret, AfterMatches, TextChoice, WellFormed, MemoSound, Normalized;
  }
}
