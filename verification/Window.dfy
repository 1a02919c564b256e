/**
 * The windowed scan of a large string (src/redact/cache.rs, `sanitize_large_string_detailed`),
 * taken without the cache, and when it agrees with one scan of the whole string.
 */
module Window {
  import opened Bytes
  import opened Registry
  import opened Span
  import opened Scanner
  import opened RoundTrip
  import Matcher
  import Restore

  /** One less than the longest secret. */
  function OverlapLen(es: seq<Entry>): nat {
    Max(0, MaxLen(es) - 1)
  }

  /** Where the share of the window that begins at `start` ends. */
  function BaseEnd(text: bytes, chunk: nat, start: nat): nat {
    Min(start + chunk, |text|)
  }

  function ScanStart(es: seq<Entry>, start: nat): nat {
    Max(0, start - OverlapLen(es))
  }

  function ScanEnd(text: bytes, es: seq<Entry>, chunk: nat, start: nat): nat {
    Min(BaseEnd(text, chunk, start) + OverlapLen(es), |text|)
  }

  /** The bytes that the window sees: its share and the overlap on both sides. */
  function WindowAt(text: bytes, es: seq<Entry>, chunk: nat, start: nat): bytes
    requires start < |text|
  {
    text[ScanStart(es, start)..ScanEnd(text, es, chunk, start)]
  }

  /** The spans of a window moved to where they stand in the text, and those that start in `lo..hi`. */
  function ShareOf(spans: seq<RedactionSpan>, offset: nat, lo: nat, hi: nat): seq<RedactionSpan> {
    if spans == [] then []
    else
      var moved := spans[0].Shift(offset);
      var rest := ShareOf(spans[1..], offset, lo, hi);
      if lo <= moved.start < hi then [moved] + rest else rest
  }

  lemma {:induction false} ShareMembers(spans: seq<RedactionSpan>, offset: nat, lo: nat, hi: nat, s: RedactionSpan)
    ensures s in ShareOf(spans, offset, lo, hi)
            <==> lo <= s.start < hi && offset <= s.start && s.(start := s.start - offset) in spans
  {
    if spans != [] {
      ShareMembers(spans[1..], offset, lo, hi, s);
      assert offset <= s.start ==> (s == spans[0].Shift(offset) <==> s.(start := s.start - offset) == spans[0]);
    }
  }

  /** What the window that begins at `start` finds, in its own offsets. */
  function WindowSpans(text: bytes, es: seq<Entry>, chunk: nat, start: nat): seq<RedactionSpan>
    requires start < |text|
  {
    Scan(WindowAt(text, es, chunk, start), es)
  }

  /** What the windows from `start` on contribute. */
  function FromWindows(text: bytes, es: seq<Entry>, chunk: nat, start: nat): seq<RedactionSpan>
    requires chunk > 0
    decreases |text| - start
  {
    if start >= |text| then []
    else
      ShareOf(WindowSpans(text, es, chunk, start), ScanStart(es, start), start, BaseEnd(text, chunk, start))
      + FromWindows(text, es, chunk, BaseEnd(text, chunk, start))
  }

  function WindowScan(text: bytes, es: seq<Entry>, chunk: nat): seq<RedactionSpan>
    requires chunk > 0
  {
    Select(FromWindows(text, es, chunk, 0))
  }

  /** The window whose share holds the position `at`. */
  function Owner(text: bytes, chunk: nat, start: nat, at: nat): (w: nat)
    requires chunk > 0 && start <= at < |text|
    ensures start <= w <= at < BaseEnd(text, chunk, w)
    decreases |text| - start
  {
    if at < BaseEnd(text, chunk, start) then start else Owner(text, chunk, BaseEnd(text, chunk, start), at)
  }

  /** The window that begins at `w` finds `s`, wherever `s` starts. */
  ghost predicate FoundBy(text: bytes, es: seq<Entry>, chunk: nat, w: nat, s: RedactionSpan)
    requires w < |text|
  {
    ScanStart(es, w) <= s.start && s.(start := s.start - ScanStart(es, w)) in WindowSpans(text, es, chunk, w)
  }

  /** `s` is chosen by the window that owns its start. */
  ghost predicate ChosenByOwner(text: bytes, es: seq<Entry>, chunk: nat, start: nat, s: RedactionSpan)
    requires chunk > 0
  {
    start <= s.start < |text| && FoundBy(text, es, chunk, Owner(text, chunk, start, s.start), s)
  }

  lemma FromWindowsStep(text: bytes, es: seq<Entry>, chunk: nat, start: nat, s: RedactionSpan)
    requires chunk > 0 && start < |text|
    ensures var end := BaseEnd(text, chunk, start);
            s in FromWindows(text, es, chunk, start)
            <==> (start <= s.start < end && FoundBy(text, es, chunk, start, s)) || s in FromWindows(text, es, chunk, end)
  {
    hide WindowSpans, OverlapLen;
    ShareMembers(WindowSpans(text, es, chunk, start), ScanStart(es, start), start, BaseEnd(text, chunk, start), s);
  }

  lemma {:induction false} FromWindowsMembers(text: bytes, es: seq<Entry>, chunk: nat, start: nat, s: RedactionSpan)
    requires chunk > 0
    ensures s in FromWindows(text, es, chunk, start) <==> ChosenByOwner(text, es, chunk, start, s)
    decreases |text| - start
  {
    if start < |text| {
      FromWindowsStep(text, es, chunk, start, s);
      FromWindowsMembers(text, es, chunk, BaseEnd(text, chunk, start), s);
    }
  }

  /** An occurrence in a window is an occurrence in the text. */
  lemma WindowOccurrence(text: bytes, es: seq<Entry>, lo: nat, hi: nat, s: RedactionSpan)
    requires lo <= hi <= |text| && IsOccurrence(text[lo..hi], es, s)
    ensures IsOccurrence(text, es, s.Shift(lo))
  {
    OccursInSlice(text, lo, hi, s.start, es[s.id - 1].secret);
  }

  lemma OwnerCovers(text: bytes, es: seq<Entry>, chunk: nat, at: nat, len: nat)
    requires chunk > 0 && 1 <= len <= MaxLen(es) && at + len <= |text|
    ensures var w := Owner(text, chunk, 0, at);
            ScanStart(es, w) <= at && at + len <= ScanEnd(text, es, chunk, w)
  {
  }

  /** Every occurrence is seen in full by the window that owns its start. */
  lemma OwnerSeesOccurrence(keys: SessionKeys, text: bytes, es: seq<Entry>, chunk: nat, s: RedactionSpan)
    requires WellFormed(keys, es) && chunk > 0 && IsOccurrence(text, es, s)
    ensures s.start < |text|
    ensures var w := Owner(text, chunk, 0, s.start);
            && ScanStart(es, w) <= s.start
            && IsOccurrence(WindowAt(text, es, chunk, w), es, s.(start := s.start - ScanStart(es, w)))
  {
    hide MaxLen, Owner;
    var e := es[s.id - 1];
    assert EntryOk(keys, e, s.id);
    assert e in es && e.len <= MaxLen(es);
    var w := Owner(text, chunk, 0, s.start);
    var lo, hi := ScanStart(es, w), ScanEnd(text, es, chunk, w);
    OwnerCovers(text, es, chunk, s.start, e.len);
    OccursInSlice(text, lo, hi, s.start - lo, e.secret);
  }

  /** All that the windows contribute are true occurrences, so the result is a proper choice of them. */
  lemma WindowScanIsChoice(keys: SessionKeys, text: bytes, es: seq<Entry>, chunk: nat)
    requires WellFormed(keys, es) && chunk > 0
    ensures Elements(FromWindows(text, es, chunk, 0)) <= Occurrences(text, es)
    ensures Proper(Elements(FromWindows(text, es, chunk, 0)))
    ensures IsChoice(Elements(FromWindows(text, es, chunk, 0)), WindowScan(text, es, chunk))
    ensures TrueSpans(text, es, WindowScan(text, es, chunk)) && Fits(text, 0, WindowScan(text, es, chunk))
  {
    OccurrencesProper(keys, text, es);
    forall s | s in FromWindows(text, es, chunk, 0)
      ensures s in Occurrences(text, es)
    {
      FromWindowsMembers(text, es, chunk, 0, s);
      var w := Owner(text, chunk, 0, s.start);
      var lo, hi := ScanStart(es, w), ScanEnd(text, es, chunk, w);
      var inner := s.(start := s.start - lo);
      ScanTrueSpans(keys, text[lo..hi], es);
      var i :| 0 <= i < |Scan(text[lo..hi], es)| && Scan(text[lo..hi], es)[i] == inner;
      WindowOccurrence(text, es, lo, hi, inner);
    }
    SelectIsChoice(FromWindows(text, es, chunk, 0));
    var r := WindowScan(text, es, chunk);
    forall i | 0 <= i < |r|
      ensures IsOccurrence(text, es, r[i]) && r[i].End() <= |text|
    {
      assert r[i] in Occurrences(text, es);
      TrueSpan(keys, text, es, r[i]);
    }
  }

  /**
   * The windowed scan equals the scan of the whole string exactly when every span of the whole scan
   * is also chosen by the window that owns its start.
   */
  lemma WindowScanAgrees(keys: SessionKeys, text: bytes, es: seq<Entry>, chunk: nat)
    requires WellFormed(keys, es) && chunk > 0
    ensures WindowScan(text, es, chunk) == Scan(text, es)
            <==> forall s :: s in Scan(text, es) ==> ChosenByOwner(text, es, chunk, 0, s)
  {
    var whole, windowed := Scan(text, es), WindowScan(text, es, chunk);
    var pool := Elements(FromWindows(text, es, chunk, 0));
    WindowScanIsChoice(keys, text, es, chunk);
    ScanIsChoice(keys, text, es);
    if windowed == whole {
      forall s | s in whole
        ensures ChosenByOwner(text, es, chunk, 0, s)
      {
        assert s in windowed && s in pool;
        FromWindowsMembers(text, es, chunk, 0, s);
      }
    }
    if forall s :: s in whole ==> ChosenByOwner(text, es, chunk, 0, s) {
      forall i | 0 <= i < |whole|
        ensures whole[i] in pool
      {
        assert whole[i] in whole;
        FromWindowsMembers(text, es, chunk, 0, whole[i]);
      }
      assert IsChoice(pool, whole);
      ChoiceUnique(pool, windowed, whole);
    }
  }

  /** Overlap among the occurrences in the text is transitive. */
  ghost predicate OverlapTransitive(text: bytes, es: seq<Entry>) {
    forall a, b, c ::
      IsOccurrence(text, es, a) && IsOccurrence(text, es, b) && IsOccurrence(text, es, c)
      ==> a.Overlaps(b) && b.Overlaps(c) ==> a.Overlaps(c)
  }

  /** Then no window is misled by an occurrence that the whole scan drops. */
  lemma OwnerChooses(keys: SessionKeys, text: bytes, es: seq<Entry>, chunk: nat, s: RedactionSpan)
    requires WellFormed(keys, es) && chunk > 0 && OverlapTransitive(text, es)
    requires s in Scan(text, es)
    ensures ChosenByOwner(text, es, chunk, 0, s)
  {
    hide Scan, MaxLen, AllOccurrences, IsChoice, Proper, WellFormed, OverlapTransitive;
    ScanTrueSpans(keys, text, es);
    OwnerSeesOccurrence(keys, text, es, chunk, s);
    var w := Owner(text, chunk, 0, s.start);
    var lo, hi := ScanStart(es, w), ScanEnd(text, es, chunk, w);
    var window, inner := text[lo..hi], s.(start := s.start - lo);
    if inner !in Scan(window, es) {
      var b := DroppedFor(keys, window, es, inner);
      WindowOccurrence(text, es, lo, hi, b);
      NoRival(keys, text, es, b.Shift(lo), s);
    }
  }

  /** An occurrence left out of a scan has an overlapping one in it that ranks before it. */
  lemma DroppedFor(keys: SessionKeys, text: bytes, es: seq<Entry>, s: RedactionSpan) returns (b: RedactionSpan)
    requires WellFormed(keys, es) && IsOccurrence(text, es, s) && s !in Scan(text, es)
    ensures b in Scan(text, es) && IsOccurrence(text, es, b) && b.Overlaps(s) && Ranked(b, s)
  {
    hide Scan, MaxLen, AllOccurrences;
    ScanIsChoice(keys, text, es);
    OccurrencesProper(keys, text, es);
    b :| b in Scan(text, es) && b.Overlaps(s) && Ranked(b, s);
  }

  /** Under transitive overlap nothing that overlaps a chosen span ranks before it. */
  lemma NoRival(keys: SessionKeys, text: bytes, es: seq<Entry>, rival: RedactionSpan, s: RedactionSpan)
    requires WellFormed(keys, es) && OverlapTransitive(text, es)
    requires IsOccurrence(text, es, rival) && s in Scan(text, es) && rival.Overlaps(s)
    ensures !Ranked(rival, s)
  {
    ScanIsChoice(keys, text, es);
    OccurrencesProper(keys, text, es);
    if rival in Scan(text, es) {
      DisjointMembers(Scan(text, es), rival, s);
    } else {
      var c :| c in Scan(text, es) && c.Overlaps(rival) && Ranked(c, rival);
      assert c in Occurrences(text, es) && s in Occurrences(text, es);
      DisjointMembers(Scan(text, es), c, s);
    }
  }

  lemma TransitiveWindowScan(keys: SessionKeys, text: bytes, es: seq<Entry>, chunk: nat)
    requires WellFormed(keys, es) && chunk > 0 && OverlapTransitive(text, es)
    ensures WindowScan(text, es, chunk) == Scan(text, es)
  {
    forall s | s in Scan(text, es)
      ensures ChosenByOwner(text, es, chunk, 0, s)
    {
      OwnerChooses(keys, text, es, chunk, s);
    }
    WindowScanAgrees(keys, text, es, chunk);
  }

  // ----- overlap that stays inside a window

  /**
   * True occurrences inside `lo..hi` that no other occurrence has a say in: whatever overlaps one of
   * them and ranks before it is one of them.
   */
  ghost predicate Closed(text: bytes, es: seq<Entry>, lo: nat, hi: nat, c: set<RedactionSpan>) {
    && (forall s :: s in c ==> IsOccurrence(text, es, s) && lo <= s.start && s.End() <= hi)
    && (forall s, t :: s in c && IsOccurrence(text, es, t) && t.Overlaps(s) && Ranked(t, s) ==> t in c)
  }

  /** Every occurrence lies among such ones inside the window that owns its start. */
  ghost predicate OverlapLocal(text: bytes, es: seq<Entry>, chunk: nat)
    requires chunk > 0
  {
    forall s :: IsOccurrence(text, es, s) ==> ClosedAround(text, es, chunk, s)
  }

  ghost predicate ClosedAround(text: bytes, es: seq<Entry>, chunk: nat, s: RedactionSpan)
    requires chunk > 0
  {
    && s.start < |text|
    && var w := Owner(text, chunk, 0, s.start);
    && exists c :: s in c && Closed(text, es, ScanStart(es, w), ScanEnd(text, es, chunk, w), c)
  }

  /** The same occurrence, seen from a window. */
  lemma IntoWindow(keys: SessionKeys, text: bytes, es: seq<Entry>, lo: nat, hi: nat, s: RedactionSpan)
    requires WellFormed(keys, es) && lo <= hi <= |text| && lo <= s.start && s.End() <= hi
    ensures IsOccurrence(text[lo..hi], es, s.(start := s.start - lo)) <==> IsOccurrence(text, es, s)
  {
    if 1 <= s.id <= |es| && s.len == es[s.id - 1].len {
      assert EntryOk(keys, es[s.id - 1], s.id);
      OccursInSlice(text, lo, hi, s.start - lo, es[s.id - 1].secret);
    }
  }

  /** Among closed occurrences a window chooses as the whole scan does. */
  lemma {:induction false} ClosedAgrees(keys: SessionKeys, text: bytes, es: seq<Entry>, lo: nat, hi: nat,
                                        c: set<RedactionSpan>, s: RedactionSpan)
    requires WellFormed(keys, es) && lo <= hi <= |text| && Closed(text, es, lo, hi, c) && s in c
    ensures s in Scan(text, es) <==> s.(start := s.start - lo) in Scan(text[lo..hi], es)
    decreases |RankedBefore(c, s)|
  {
    hide Scan, WellFormed, RankedBefore, IsOccurrence;
    var window, inner := text[lo..hi], s.(start := s.start - lo);
    IntoWindow(keys, text, es, lo, hi, s);
    if s !in Scan(text, es) {
      var b := DroppedFor(keys, text, es, s);
      RankedSmaller(c, b, s);
      ClosedAgrees(keys, text, es, lo, hi, c, b);
      BothChosen(keys, window, es, b.(start := b.start - lo), inner);
    } else if inner !in Scan(window, es) {
      var b := DroppedInWindow(keys, text, es, lo, hi, s);
      RankedSmaller(c, b, s);
      ClosedAgrees(keys, text, es, lo, hi, c, b);
      BothChosen(keys, text, es, b, s);
    }
  }

  /** What a window's choice prefers to `s`, seen from the text. */
  lemma DroppedInWindow(keys: SessionKeys, text: bytes, es: seq<Entry>, lo: nat, hi: nat, s: RedactionSpan)
    returns (b: RedactionSpan)
    requires WellFormed(keys, es) && lo <= hi <= |text| && lo <= s.start && s.End() <= hi
    requires IsOccurrence(text, es, s) && s.(start := s.start - lo) !in Scan(text[lo..hi], es)
    ensures lo <= b.start && b.(start := b.start - lo) in Scan(text[lo..hi], es)
    ensures IsOccurrence(text, es, b) && b.Overlaps(s) && Ranked(b, s)
  {
    hide Scan, WellFormed, IsOccurrence;
    IntoWindow(keys, text, es, lo, hi, s);
    var b' := DroppedFor(keys, text[lo..hi], es, s.(start := s.start - lo));
    WindowOccurrence(text, es, lo, hi, b');
    b := b'.Shift(lo);
    assert b.(start := b.start - lo) == b';
  }

  lemma RankedSmaller(c: set<RedactionSpan>, b: RedactionSpan, s: RedactionSpan)
    requires b in c && Ranked(b, s)
    ensures |RankedBefore(c, b)| < |RankedBefore(c, s)|
  {
    assert b in RankedBefore(c, s) && b !in RankedBefore(c, b);
    SubsetSize(RankedBefore(c, b), RankedBefore(c, s));
  }

  lemma BothChosen(keys: SessionKeys, text: bytes, es: seq<Entry>, b: RedactionSpan, s: RedactionSpan)
    requires WellFormed(keys, es) && b in Scan(text, es) && b.Overlaps(s) && b != s
    ensures s !in Scan(text, es)
  {
    ScanIsChoice(keys, text, es);
    if s in Scan(text, es) {
      DisjointMembers(Scan(text, es), b, s);
    }
  }

  /**
   * The scans agree when every occurrence lies among closed ones inside its owner's window. Overlap far
   * from a window edge, however long its chains, does no harm.
   */
  lemma LocalWindowScan(keys: SessionKeys, text: bytes, es: seq<Entry>, chunk: nat)
    requires WellFormed(keys, es) && chunk > 0 && OverlapLocal(text, es, chunk)
    ensures WindowScan(text, es, chunk) == Scan(text, es)
  {
    hide Scan, WindowScan, Closed, WellFormed, ScanStart, ScanEnd, Owner;
    ScanTrueSpans(keys, text, es);
    forall s | s in Scan(text, es)
      ensures ChosenByOwner(text, es, chunk, 0, s)
    {
      assert ClosedAround(text, es, chunk, s);
      LocallyChosen(keys, text, es, chunk, s);
    }
    WindowScanAgrees(keys, text, es, chunk);
  }

  lemma LocallyChosen(keys: SessionKeys, text: bytes, es: seq<Entry>, chunk: nat, s: RedactionSpan)
    requires WellFormed(keys, es) && chunk > 0 && s in Scan(text, es) && ClosedAround(text, es, chunk, s)
    ensures ChosenByOwner(text, es, chunk, 0, s)
  {
    hide Scan, WellFormed;
    var w := Owner(text, chunk, 0, s.start);
    var lo, hi := ScanStart(es, w), ScanEnd(text, es, chunk, w);
    var c :| s in c && Closed(text, es, lo, hi, c);
    ClosedAgrees(keys, text, es, lo, hi, c, s);
  }

  /** The windowed path restores too, whether or not it agrees with the whole scan. */
  lemma WindowThenRestore(keys: SessionKeys, es: seq<Entry>, m: Matcher.PlaceholderMatcher,
                          text: bytes, chunk: nat, chunks: seq<bytes>)
    requires WellFormed(keys, es) && Matcher.MatcherFor(m, es) && DistinctPlaceholders(es)
    requires chunk > 0 && PlaceholderFree(text, es)
    ensures Fits(text, 0, WindowScan(text, es, chunk))
    ensures Flatten(chunks) == Applied(text, 0, WindowScan(text, es, chunk))
            ==> && Matcher.Known(Restore.Streamed([], chunks, m), es)
                && Matcher.Render(Restore.Streamed([], chunks, m), es) == text
  {
    WindowScanIsChoice(keys, text, es, chunk);
    if Flatten(chunks) == Applied(text, 0, WindowScan(text, es, chunk)) {
      RedactThenRestore(keys, es, m, text, WindowScan(text, es, chunk), chunks);
    }
  }
}
