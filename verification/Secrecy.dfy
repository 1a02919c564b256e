/** What a redacted text can still contain. */
module Secrecy {
  import opened Bytes
  import opened Placeholder
  import opened Registry
  import opened Span
  import opened Scanner
  import opened RoundTrip
  import opened Window

  // ----- seams

  /**
   * `x` cannot stand across an edge of `p`: it does not contain `p`, no proper suffix of it begins
   * `p`, and no proper prefix of it ends `p`.
   */
  ghost predicate Seamless(x: bytes, p: bytes) {
    && !Contains(x, p)
    && (forall n :: 0 < n < |x| && n <= |p| ==> x[|x| - n..] != p[..n])
    && (forall n :: 0 < n < |x| && n <= |p| ==> x[..n] != p[|p| - n..])
  }

  /** This can be looked up in the registry before anything is redacted. */
  ghost predicate SeamlessIn(x: bytes, es: seq<Entry>) {
    forall k :: 0 <= k < |es| ==> Seamless(x, es[k].placeholder)
  }

  /** A string without braces is one such case. */
  lemma BraceFreeIsSeamless(keys: SessionKeys, es: seq<Entry>, x: bytes)
    requires WellFormed(keys, es) && BraceFree(x)
    ensures SeamlessIn(x, es)
  {
    forall k | 0 <= k < |es|
      ensures Seamless(x, es[k].placeholder)
    {
      assert EntryOk(keys, es[k], k + 1);
      BraceFreeApart(x, es[k].placeholder);
    }
  }

  lemma BraceFreeApart(x: bytes, p: bytes)
    requires BraceFree(x) && Shaped(p)
    ensures Seamless(x, p)
  {
    forall i
      ensures !OccursAt(x, i, p)
    {
      if OccursAt(x, i, p) {
        OccursFirst(x, i, p);
      }
    }
    forall n | 0 < n < |x| && n <= |p|
      ensures x[|x| - n..] != p[..n] && x[..n] != p[|p| - n..]
    {
      assert x[|x| - n..][0] == x[|x| - n] && p[..n][0] == p[0] && NotBrace(x[|x| - n]);
      assert x[..n][n - 1] == x[n - 1] && p[|p| - n..][n - 1] == p[|p| - 1] && NotBrace(x[n - 1]);
    }
  }

  /** What stands across an edge of `p` begins or ends in it. */
  lemma AcrossFront(gap: bytes, p: bytes, rest: bytes, x: bytes, i: nat)
    requires OccursAt(gap + p + rest, i, x) && i < |gap| < i + |x| < |gap| + |p|
    ensures var n := i + |x| - |gap|;
            x[|x| - n..] == p[..n]
  {
    var out, n := gap + p + rest, i + |x| - |gap|;
    assert x[|x| - n..] == out[i..i + |x|][|x| - n..] == out[|gap|..|gap| + n] == p[..n];
  }

  lemma AcrossBack(gap: bytes, p: bytes, rest: bytes, x: bytes, i: nat)
    requires OccursAt(gap + p + rest, i, x) && |gap| < i < |gap| + |p| < i + |x|
    ensures var n := |gap| + |p| - i;
            x[..n] == p[|p| - n..]
  {
    var out, n := gap + p + rest, |gap| + |p| - i;
    assert x[..n] == out[i..i + |x|][..n] == out[i..|gap| + |p|] == p[|p| - n..];
  }

  lemma AcrossWhole(gap: bytes, p: bytes, rest: bytes, x: bytes, i: nat)
    requires OccursAt(gap + p + rest, i, x) && i <= |gap| && |gap| + |p| <= i + |x|
    ensures Contains(x, p)
  {
    var out, at := gap + p + rest, |gap| - i;
    assert out[|gap|..|gap| + |p|] == p;
    OccursInSlice(out, i, i + |x|, at, p);
  }

  /** A seamless string stands on one side of `p`, on the other, or inside. */
  lemma SeamSplit(gap: bytes, p: bytes, rest: bytes, x: bytes)
    requires x != [] && Seamless(x, p)
    ensures Contains(gap + p + rest, x) <==> Contains(gap, x) || Contains(p, x) || Contains(rest, x)
  {
    var out := gap + p + rest;
    if Contains(out, x) {
      var i :| OccursAt(out, i, x);
      if i + |x| <= |gap| {
        OccursInPrefix(gap, out, i, x);
      } else if |gap| + |p| <= i {
        OccursInRight(gap + p, rest, i, x);
      } else if |gap| <= i && i + |x| <= |gap| + |p| {
        OccursInSlice(out, |gap|, |gap| + |p|, i - |gap|, x);
        assert out[|gap|..|gap| + |p|] == p;
      } else if i <= |gap| && |gap| + |p| <= i + |x| {
        AcrossWhole(gap, p, rest, x, i);
      } else if i < |gap| {
        AcrossFront(gap, p, rest, x, i);
      } else {
        AcrossBack(gap, p, rest, x, i);
      }
    }
    PiecesShow(gap, p, rest, x);
  }

  lemma PiecesShow(gap: bytes, p: bytes, rest: bytes, x: bytes)
    ensures Contains(gap, x) || Contains(p, x) || Contains(rest, x) ==> Contains(gap + p + rest, x)
  {
    var out := gap + p + rest;
    if i :| OccursAt(gap, i, x) {
      OccursInPrefix(gap, out, i, x);
    } else if i :| OccursAt(p, i, x) {
      assert out[|gap|..|gap| + |p|] == p;
      OccursInSlice(out, |gap|, |gap| + |p|, i, x);
      assert OccursAt(out, |gap| + i, x);
    } else if i :| OccursAt(rest, i, x) {
      OccursInRight(gap + p, rest, |gap + p| + i, x);
      assert OccursAt(out, |gap + p| + i, x);
    }
  }

  // ----- a redacted text, whatever its spans

  /** `j..j + n` shares no byte with any span. */
  predicate ApartFrom(spans: seq<RedactionSpan>, j: nat, n: nat) {
    forall i :: 0 <= i < |spans| ==> spans[i].End() <= j || j + n <= spans[i].start
  }

  ghost predicate InPlaceholder(spans: seq<RedactionSpan>, x: bytes) {
    exists k :: 0 <= k < |spans| && Contains(spans[k].placeholder, x)
  }

  /** `x` stands in the text, from `cursor` on, apart from every span. */
  ghost predicate InTheClear(text: bytes, cursor: nat, spans: seq<RedactionSpan>, x: bytes) {
    exists j: nat :: cursor <= j && OccursAt(text, j, x) && ApartFrom(spans, j, |x|)
  }

  /** An occurrence apart from all spans stands before the first one, or behind it and apart from the rest. */
  lemma ClearStep(text: bytes, cursor: nat, spans: seq<RedactionSpan>, x: bytes)
    requires spans != [] && Fits(text, cursor, spans) && x != []
    ensures InTheClear(text, cursor, spans, x)
            <==> Contains(text[cursor..spans[0].start], x) || InTheClear(text, spans[0].End(), spans[1..], x)
  {
    var s, rest, gap := spans[0], spans[1..], text[cursor..spans[0].start];
    if j: nat :| cursor <= j && OccursAt(text, j, x) && ApartFrom(spans, j, |x|) {
      if j + |x| <= s.start {
        OccursInSlice(text, cursor, s.start, j - cursor, x);
        assert OccursAt(gap, j - cursor, x);
      } else {
        assert ApartFrom(rest, j, |x|) && s.End() <= j;
      }
    }
    if i :| OccursAt(gap, i, x) {
      OccursInSlice(text, cursor, s.start, i, x);
      assert OccursAt(text, cursor + i, x) && ApartFrom(spans, cursor + i, |x|);
    }
    if j: nat :| s.End() <= j && OccursAt(text, j, x) && ApartFrom(rest, j, |x|) {
      assert forall k :: 0 < k < |spans| ==> spans[k] == rest[k - 1];
      assert OccursAt(text, j, x) && ApartFrom(spans, j, |x|);
    }
  }

  lemma InPlaceholderStep(spans: seq<RedactionSpan>, x: bytes)
    requires spans != []
    ensures InPlaceholder(spans, x) <==> Contains(spans[0].placeholder, x) || InPlaceholder(spans[1..], x)
  {
    if k :| 0 <= k < |spans[1..]| && Contains(spans[1..][k].placeholder, x) {
      assert Contains(spans[k + 1].placeholder, x);
    }
    if k :| 0 <= k < |spans| && Contains(spans[k].placeholder, x) {
      assert k > 0 ==> spans[k] == spans[1..][k - 1];
    }
  }

  /**
   * A seamless string occurs in a redacted text exactly when it is part of a placeholder that was put
   * in, or stands in the original apart from every span.
   */
  lemma {:induction false} RedactionShows(text: bytes, cursor: nat, spans: seq<RedactionSpan>, x: bytes)
    requires Fits(text, cursor, spans) && x != []
    requires forall k :: 0 <= k < |spans| ==> Seamless(x, spans[k].placeholder)
    ensures Contains(Applied(text, cursor, spans), x)
            <==> InPlaceholder(spans, x) || InTheClear(text, cursor, spans, x)
    decreases |spans|
  {
    hide Seamless, Contains, ApartFrom, InPlaceholder, InTheClear;
    if spans == [] {
      NothingRedacted(text, cursor, x);
    } else {
      var s, gap := spans[0], text[cursor..spans[0].start];
      var rest := Applied(text, s.End(), spans[1..]);
      SeamSplit(gap, s.placeholder, rest, x);
      RedactionShows(text, s.End(), spans[1..], x);
      ClearStep(text, cursor, spans, x);
      InPlaceholderStep(spans, x);
    }
  }

  lemma NothingRedacted(text: bytes, cursor: nat, x: bytes)
    requires cursor <= |text|
    ensures Contains(text[cursor..], x) <==> InTheClear(text, cursor, [], x)
    ensures !InPlaceholder([], x)
  {
    if i :| OccursAt(text[cursor..], i, x) {
      OccursAfterDrop(text, cursor, i, x);
      assert OccursAt(text, cursor + i, x) && ApartFrom([], cursor + i, |x|);
    }
    if j: nat :| cursor <= j && OccursAt(text, j, x) && ApartFrom([], j, |x|) {
      OccursAfterDrop(text, cursor, j - cursor, x);
    }
  }

  lemma SpansSeamless(keys: SessionKeys, text: bytes, es: seq<Entry>, spans: seq<RedactionSpan>, x: bytes)
    requires WellFormed(keys, es) && TrueSpans(text, es, spans) && SeamlessIn(x, es)
    ensures forall k :: 0 <= k < |spans| ==> Seamless(x, spans[k].placeholder)
  {
    hide Seamless;
    forall k | 0 <= k < |spans|
      ensures Seamless(x, spans[k].placeholder)
    {
      TrueSpan(keys, text, es, spans[k]);
    }
  }

  // ----- the scan of the whole string

  /** No occurrence of a secret stays clear of every span that the scan chose. */
  lemma ApartIsImpossible(keys: SessionKeys, text: bytes, es: seq<Entry>, e: nat, j: nat)
    requires WellFormed(keys, es) && e < |es| && OccursAt(text, j, es[e].secret)
    ensures !ApartFrom(Scan(text, es), j, |es[e].secret|)
  {
    hide Scan;
    ScanIsChoice(keys, text, es);
    OccurrencesProper(keys, text, es);
    assert EntryOk(keys, es[e], e + 1);
    var o := SpanOf(es[e], j);
    assert IsOccurrence(text, es, o) && o in Occurrences(text, es);
    var spans := Scan(text, es);
    if o in spans {
      var k :| 0 <= k < |spans| && spans[k] == o;
    } else {
      var b :| b in spans && b.Overlaps(o) && Ranked(b, o);
      var k :| 0 <= k < |spans| && spans[k] == b;
    }
  }

  lemma NothingInTheClear(keys: SessionKeys, text: bytes, es: seq<Entry>, x: bytes)
    requires WellFormed(keys, es) && Holds(es, x)
    ensures x != [] && !InTheClear(text, 0, Scan(text, es), x)
  {
    hide Scan;
    var e :| 0 <= e < |es| && es[e].secret == x;
    assert EntryOk(keys, es[e], e + 1);
    if j: nat :| 0 <= j && OccursAt(text, j, x) && ApartFrom(Scan(text, es), j, |x|) {
      ApartIsImpossible(keys, text, es, e, j);
    }
  }

  /**
   * A registered secret that is seamless, so one without brace bytes, occurs in the redacted text
   * exactly when it is part of a placeholder that was put in; no trace of it is left otherwise, at
   * seams either.
   */
  lemma NoSecretSurvives(keys: SessionKeys, text: bytes, es: seq<Entry>, x: bytes)
    requires WellFormed(keys, es) && Holds(es, x) && SeamlessIn(x, es)
    ensures Fits(text, 0, Scan(text, es))
    ensures Contains(Applied(text, 0, Scan(text, es)), x) <==> InPlaceholder(Scan(text, es), x)
  {
    hide Scan, Contains, Applied, InPlaceholder, InTheClear, Seamless;
    ScanTrueSpans(keys, text, es);
    SpansSeamless(keys, text, es, Scan(text, es), x);
    NothingInTheClear(keys, text, es, x);
    RedactionShows(text, 0, Scan(text, es), x);
  }

  // ----- the windowed scan

  /**
   * On the windowed path a secret also stays where no window's choice covers it: exactly there, and in
   * placeholders that contain it.
   */
  lemma WindowShows(keys: SessionKeys, text: bytes, es: seq<Entry>, chunk: nat, x: bytes)
    requires WellFormed(keys, es) && chunk > 0 && x != [] && SeamlessIn(x, es)
    ensures Fits(text, 0, WindowScan(text, es, chunk))
    ensures Contains(Applied(text, 0, WindowScan(text, es, chunk)), x)
            <==> || InPlaceholder(WindowScan(text, es, chunk), x)
                 || InTheClear(text, 0, WindowScan(text, es, chunk), x)
  {
    hide WindowScan, Contains, Applied, InPlaceholder, InTheClear, Seamless;
    WindowScanIsChoice(keys, text, es, chunk);
    SpansSeamless(keys, text, es, WindowScan(text, es, chunk), x);
    RedactionShows(text, 0, WindowScan(text, es, chunk), x);
  }

  /** So the windowed path hides what the whole scan hides, wherever overlap is local or transitive. */
  lemma WindowsHideSecrets(keys: SessionKeys, text: bytes, es: seq<Entry>, chunk: nat, x: bytes)
    requires WellFormed(keys, es) && chunk > 0 && Holds(es, x) && SeamlessIn(x, es)
    requires OverlapTransitive(text, es) || OverlapLocal(text, es, chunk)
    ensures Fits(text, 0, WindowScan(text, es, chunk))
    ensures Contains(Applied(text, 0, WindowScan(text, es, chunk)), x)
            <==> InPlaceholder(WindowScan(text, es, chunk), x)
  {
    hide WindowScan, Scan, Contains, Applied, InPlaceholder, OverlapTransitive, OverlapLocal, Seamless;
    if OverlapTransitive(text, es) {
      TransitiveWindowScan(keys, text, es, chunk);
    } else {
      LocalWindowScan(keys, text, es, chunk);
    }
    NoSecretSurvives(keys, text, es, x);
  }
}
