/** Redaction and restoration together: what comes back is the original text. */
module RoundTrip {
  import opened Bytes
  import opened Placeholder
  import opened Registry
  import opened Span
  import opened Scanner
  import opened Matcher
  import Restore

  /** A text in which gaps of plain bytes alternate with secrets, each named by its id. */
  datatype Weave = End(gap: bytes) | Then(gap: bytes, id: nat, rest: Weave) {

    predicate KnownIn(es: seq<Entry>) {
      Then? ==> 1 <= id <= |es| && rest.KnownIn(es)
    }

    /** The text as it goes out, with placeholders. */
    function Redacted(es: seq<Entry>): bytes
      requires KnownIn(es)
    {
      match this
      case End(g) => g
      case Then(g, id, rest) => g + es[id - 1].placeholder + rest.Redacted(es)
    }

    /** The text as it was, with secrets. */
    function Original(es: seq<Entry>): bytes
      requires KnownIn(es)
    {
      match this
      case End(g) => g
      case Then(g, id, rest) => g + es[id - 1].secret + rest.Original(es)
    }

    ghost predicate Clean(es: seq<Entry>) {
      PlaceholderFree(gap, es) && (Then? ==> rest.Clean(es))
    }
  }

  ghost predicate PlaceholderFree(text: bytes, es: seq<Entry>) {
    forall k, i :: 0 <= k < |es| ==> !OccursAt(text, i, es[k].placeholder)
  }

  /** A pattern of the matcher is the placeholder of the entry it is filed under. */
  lemma PatternEntry(keys: SessionKeys, es: seq<Entry>, m: PlaceholderMatcher, k: nat)
    requires WellFormed(keys, es) && MatcherFor(m, es) && k < |m.patterns|
    ensures 1 <= m.ids[k] <= |es| && es[m.ids[k] - 1].placeholder == m.patterns[k]
  {
    PlaceholderTraced(es, m.patterns[k]);
  }

  /** Before a placeholder that stands at `hi`, a placeholder-free gap holds no match. */
  lemma GapHasNoMatch(keys: SessionKeys, es: seq<Entry>, m: PlaceholderMatcher, text: bytes, gap: bytes)
    requires WellFormed(keys, es) && MatcherFor(m, es)
    requires gap <= text && PlaceholderFree(gap, es)
    requires gap == text || exists k :: 0 <= k < |es| && OccursAt(text, |gap|, es[k].placeholder)
    ensures NoMatchIn(text, 0, |gap|, m)
  {
    forall i, k | 0 <= i < |gap| && 0 <= k < |m.patterns|
      ensures !OccursAt(text, i, m.patterns[k])
    {
      if OccursAt(text, i, m.patterns[k]) {
        PatternEntry(keys, es, m, k);
        if gap != text {
          var e :| 0 <= e < |es| && OccursAt(text, |gap|, es[e].placeholder);
          assert EntryOk(keys, es[e], e + 1);
          NoPartialOverlap(text, i, m.patterns[k], |gap|, es[e].placeholder);
        }
        OccursInPrefix(gap, text, i, m.patterns[k]);
      }
    }
  }

  /** Where the placeholder of an entry stands, the pass puts back that entry's secret. */
  lemma TokenAtPlaceholder(keys: SessionKeys, es: seq<Entry>, m: PlaceholderMatcher, text: bytes, at: nat, id: nat)
    requires WellFormed(keys, es) && MatcherFor(m, es) && DistinctPlaceholders(es)
    requires 1 <= id <= |es| && at < |text| && OccursAt(text, at, es[id - 1].placeholder)
    ensures TokenAt(text, at, m) == Secret(id)
    ensures NextAt(text, at, m) == at + |es[id - 1].placeholder|
  {
    var p := es[id - 1].placeholder;
    assert EntryOk(keys, es[id - 1], id);
    PlaceholderIndexed(es, id - 1);
    assert p in m.patterns;
    PatternAtFirst(text, at, m.patterns);
    match PatternAt(text, at, m.patterns) {
      case Some(k) => NoPartialOverlap(text, at, m.patterns[k], at, p);
      case None =>
    }
  }

  function WeaveTokens(w: Weave): seq<Token> {
    match w
    case End(g) => RawTokens(g, 0, |g|)
    case Then(g, id, rest) => RawTokens(g, 0, |g|) + ([Secret(id)] + WeaveTokens(rest))
  }

  lemma {:induction false} SameRaw(a: bytes, b: bytes, lo: nat, hi: nat)
    requires a <= b && hi <= |a|
    ensures RawTokens(a, lo, hi) == RawTokens(b, lo, hi)
    decreases hi - lo
  {
    if lo < hi {
      SameRaw(a, b, lo + 1, hi);
    }
  }

  /** The pass over a gap and the placeholder after it. */
  lemma TokenizeGapAndMark(keys: SessionKeys, es: seq<Entry>, m: PlaceholderMatcher,
                           gap: bytes, id: nat, tail: bytes)
    requires WellFormed(keys, es) && MatcherFor(m, es) && DistinctPlaceholders(es)
    requires 1 <= id <= |es| && PlaceholderFree(gap, es)
    ensures Tokenize(gap + es[id - 1].placeholder + tail, m)
         == RawTokens(gap, 0, |gap|) + ([Secret(id)] + Tokenize(tail, m))
  {
    var p := es[id - 1].placeholder;
    assert EntryOk(keys, es[id - 1], id);
    Seams(gap, p, tail);
    GapHasNoMatch(keys, es, m, gap + p + tail, gap);
    TokensGap(gap + p + tail, 0, |gap|, m);
    TokenAtPlaceholder(keys, es, m, gap + p + tail, |gap|, id);
    GapThenSecret(gap + p + tail, gap, |gap| + |p|, id, m);
  }

  lemma GapThenSecret(text: bytes, gap: bytes, next: nat, id: nat, m: PlaceholderMatcher)
    requires Usable(m) && gap <= text && |gap| < next <= |text|
    requires TokenAt(text, |gap|, m) == Secret(id)
    requires NextAt(text, |gap|, m) == next
    requires Tokens(text, 0, m) == RawTokens(text, 0, |gap|) + Tokens(text, |gap|, m)
    ensures Tokenize(text, m) == RawTokens(gap, 0, |gap|) + ([Secret(id)] + Tokenize(text[next..], m))
  {
    SameRaw(gap, text, 0, |gap|);
    TokensStep(text, |gap|, m);
    TokensDrop(text, next, m);
  }

  lemma Seams(gap: bytes, p: bytes, tail: bytes)
    ensures gap <= gap + p + tail
    ensures OccursAt(gap + p + tail, |gap|, p)
    ensures (gap + p + tail)[|gap| + |p|..] == tail
  {
    assert (gap + p + tail)[|gap|..|gap| + |p|] == p;
  }

  /** No placeholder arises across a seam. */
  lemma {:induction false} WeaveTokenized(keys: SessionKeys, es: seq<Entry>, m: PlaceholderMatcher, w: Weave)
    requires WellFormed(keys, es) && MatcherFor(m, es) && DistinctPlaceholders(es)
    requires w.KnownIn(es) && w.Clean(es)
    ensures Tokenize(w.Redacted(es), m) == WeaveTokens(w)
    decreases w
  {
    match w
    case End(gap) =>
      GapHasNoMatch(keys, es, m, gap, gap);
      TokensGap(gap, 0, |gap|, m);
      assert RawTokens(gap, 0, |gap|) + [] == RawTokens(gap, 0, |gap|);
    case Then(gap, id, rest) =>
      WeaveTokenized(keys, es, m, rest);
      TokenizeGapAndMark(keys, es, m, gap, id, rest.Redacted(es));
  }

  lemma {:induction false} WeaveRendered(es: seq<Entry>, w: Weave)
    requires w.KnownIn(es)
    ensures Known(WeaveTokens(w), es) && Render(WeaveTokens(w), es) == w.Original(es)
    decreases w
  {
    RenderRaw(w.gap, 0, |w.gap|, es);
    assert w.gap[0..|w.gap|] == w.gap;
    match w
    case End(gap) =>
    case Then(gap, id, rest) =>
      WeaveRendered(es, rest);
      var marked := [Secret(id)] + WeaveTokens(rest);
      assert Render(marked, es) == es[id - 1].secret + rest.Original(es);
      RenderAppend(RawTokens(gap, 0, |gap|), marked, es);
      Assoc(gap, es[id - 1].secret, rest.Original(es));
  }

  /** Restoring a woven text gives the original. */
  lemma WeaveRestores(keys: SessionKeys, es: seq<Entry>, m: PlaceholderMatcher, w: Weave)
    requires WellFormed(keys, es) && MatcherFor(m, es) && DistinctPlaceholders(es)
    requires w.KnownIn(es) && w.Clean(es)
    ensures KnownIds(m, es)
    ensures Restored(w.Redacted(es), m, es) == w.Original(es)
  {
    MatcherForKnown(m, keys, es);
    WeaveTokenized(keys, es, m, w);
    WeaveRendered(es, w);
  }

  // ----- the weave of a redacted text

  /** Each span marks a true occurrence. */
  ghost predicate TrueSpans(text: bytes, es: seq<Entry>, spans: seq<RedactionSpan>) {
    forall i :: 0 <= i < |spans| ==> IsOccurrence(text, es, spans[i])
  }

  function SpanWeave(text: bytes, cursor: nat, spans: seq<RedactionSpan>): (w: Weave)
    requires Fits(text, cursor, spans)
    decreases |spans|
  {
    if spans == [] then End(text[cursor..])
    else Then(text[cursor..spans[0].start], spans[0].id, SpanWeave(text, spans[0].End(), spans[1..]))
  }

  /** Each span names an entry with its placeholder and with the secret it covers. */
  ghost predicate Marks(text: bytes, es: seq<Entry>, spans: seq<RedactionSpan>) {
    forall i :: 0 <= i < |spans|
      ==> && 1 <= spans[i].id <= |es|
          && es[spans[i].id - 1].placeholder == spans[i].placeholder
          && spans[i].End() <= |text|
          && es[spans[i].id - 1].secret == text[spans[i].start..spans[i].End()]
  }

  lemma {:induction false} SpanWeaveProperty(text: bytes, cursor: nat, spans: seq<RedactionSpan>, es: seq<Entry>)
    requires Fits(text, cursor, spans) && Marks(text, es, spans)
    ensures var w := SpanWeave(text, cursor, spans);
            && w.KnownIn(es)
            && w.Redacted(es) == Applied(text, cursor, spans)
            && w.Original(es) == text[cursor..]
    decreases |spans|
  {
    if spans != [] {
      var s := spans[0];
      SpanWeaveProperty(text, s.End(), spans[1..], es);
      SplitAt(text, cursor, s.start, s.End());
    }
  }

  lemma TrueSpan(keys: SessionKeys, text: bytes, es: seq<Entry>, s: RedactionSpan)
    requires WellFormed(keys, es) && IsOccurrence(text, es, s)
    ensures es[s.id - 1].placeholder == s.placeholder && Shaped(s.placeholder)
    ensures s.End() <= |text| && es[s.id - 1].secret == text[s.start..s.End()]
  {
    assert EntryOk(keys, es[s.id - 1], s.id);
  }

  lemma SplitAt(text: bytes, a: nat, b: nat, c: nat)
    requires a <= b <= c <= |text|
    ensures text[a..] == text[a..b] + text[b..c] + text[c..]
  {
  }

  lemma {:induction false} SpanWeaveClean(text: bytes, cursor: nat, spans: seq<RedactionSpan>, es: seq<Entry>)
    requires Fits(text, cursor, spans) && PlaceholderFree(text, es)
    ensures SpanWeave(text, cursor, spans).Clean(es)
    decreases |spans|
  {
    if spans == [] {
      SliceIsFree(text, cursor, |text|, es);
      assert text[cursor..|text|] == text[cursor..];
    } else {
      SliceIsFree(text, cursor, spans[0].start, es);
      SpanWeaveClean(text, spans[0].End(), spans[1..], es);
    }
  }

  lemma SliceIsFree(text: bytes, lo: nat, hi: nat, es: seq<Entry>)
    requires lo <= hi <= |text| && PlaceholderFree(text, es)
    ensures PlaceholderFree(text[lo..hi], es)
  {
    forall k, i | 0 <= k < |es|
      ensures !OccursAt(text[lo..hi], i, es[k].placeholder)
    {
      if i + |es[k].placeholder| <= hi - lo {
        OccursInSlice(text, lo, hi, i, es[k].placeholder);
      }
    }
  }

  /**
   * The round trip: a text without placeholders, redacted over any disjoint true occurrences and
   * fed to the streaming restorer in any chunks, comes back unchanged.
   */
  lemma RedactThenRestore(keys: SessionKeys, es: seq<Entry>, m: PlaceholderMatcher,
                          text: bytes, spans: seq<RedactionSpan>, chunks: seq<bytes>)
    requires WellFormed(keys, es) && MatcherFor(m, es) && DistinctPlaceholders(es)
    requires Fits(text, 0, spans) && TrueSpans(text, es, spans) && PlaceholderFree(text, es)
    requires Flatten(chunks) == Applied(text, 0, spans)
    ensures Known(Restore.Streamed([], chunks, m), es)
    ensures Render(Restore.Streamed([], chunks, m), es) == text
  {
    var w := SpanWeave(text, 0, spans);
    forall i | 0 <= i < |spans|
      ensures es[spans[i].id - 1].placeholder == spans[i].placeholder
      ensures es[spans[i].id - 1].secret == text[spans[i].start..spans[i].End()]
    {
      TrueSpan(keys, text, es, spans[i]);
    }
    SpanWeaveProperty(text, 0, spans, es);
    SpanWeaveClean(text, 0, spans, es);
    WeaveRestores(keys, es, m, w);
    Restore.StreamedRestores(chunks, m, es);
    assert text[0..] == text;
  }

  lemma ScanTrueSpans(keys: SessionKeys, text: bytes, es: seq<Entry>)
    requires WellFormed(keys, es)
    ensures TrueSpans(text, es, Scan(text, es)) && Fits(text, 0, Scan(text, es))
  {
    ScanIsChoice(keys, text, es);
    OccurrencesProper(keys, text, es);
  }

  /** The whole-string path, for every registry reached by ingests. */
  lemma ScanThenRestore(keys: SessionKeys, calls: seq<(Label, bytes)>, m: PlaceholderMatcher,
                        text: bytes, chunks: seq<bytes>)
    requires var es := IngestAll(keys, calls);
             MatcherFor(m, es) && DistinctPlaceholders(es) && PlaceholderFree(text, es)
    ensures var es := IngestAll(keys, calls);
            && Fits(text, 0, Scan(text, es))
            && (Flatten(chunks) == Applied(text, 0, Scan(text, es))
                ==> && Known(Restore.Streamed([], chunks, m), es)
                    && Render(Restore.Streamed([], chunks, m), es) == text)
  {
    ReachedWellFormed(keys, calls);
    var es := IngestAll(keys, calls);
    ScanTrueSpans(keys, text, es);
    if Flatten(chunks) == Applied(text, 0, Scan(text, es)) {
      RedactThenRestore(keys, es, m, text, Scan(text, es), chunks);
    }
  }
}
