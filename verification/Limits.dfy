/** Concrete inputs that show where a property ends. */
module Limits {
  import opened Bytes
  import opened Placeholder
  import opened Registry
  import opened Span
  import opened Scanner
  import opened Window
  import opened Cache
  import opened CacheTrace
  import opened JsonTree
  import opened Secrecy

  function Made(keys: SessionKeys, secrets: seq<bytes>): (es: seq<Entry>)
    ensures |es| == |secrets|
    ensures forall i :: 0 <= i < |es| ==> es[i] == NewEntry(keys, i + 1, [95], secrets[i])
  {
    seq(|secrets|, i requires 0 <= i < |secrets| => NewEntry(keys, i + 1, [95], secrets[i]))
  }

  lemma MadeWellFormed(keys: SessionKeys, secrets: seq<bytes>)
    requires forall i :: 0 <= i < |secrets| ==> secrets[i] != []
    requires forall i, j :: 0 <= i < j < |secrets| ==> secrets[i] != secrets[j]
    ensures WellFormed(keys, Made(keys, secrets))
  {
    var es := Made(keys, secrets);
    forall i | 0 <= i < |es|
      ensures EntryOk(keys, es[i], i + 1)
    {
      NewPlaceholderShaped([95], keys.mac([95], KeyedDigest(secrets[i])));
    }
  }

  /** Nothing blocks an occurrence that no occurrence ranks before. */
  lemma FirstIsChosen(keys: SessionKeys, text: bytes, es: seq<Entry>, s: RedactionSpan)
    requires WellFormed(keys, es) && IsOccurrence(text, es, s)
    requires forall b :: IsOccurrence(text, es, b) && b.Overlaps(s) && Ranked(b, s) ==> b !in Scan(text, es)
    ensures s in Scan(text, es)
  {
    ScanIsChoice(keys, text, es);
    OccurrencesProper(keys, text, es);
    assert s in Occurrences(text, es);
    assert forall b :: b in Scan(text, es) ==> b in Occurrences(text, es);
  }

  lemma OverlapDropped(keys: SessionKeys, text: bytes, es: seq<Entry>, s: RedactionSpan, t: RedactionSpan)
    requires WellFormed(keys, es) && s in Scan(text, es) && s.Overlaps(t) && s != t
    ensures t !in Scan(text, es)
  {
    ScanIsChoice(keys, text, es);
    if t in Scan(text, es) {
      DisjointMembers(Scan(text, es), s, t);
    }
  }

  /** "abcd" overlaps "def", which overlaps "fg"; the edge of the second window is before the "f". */
  function ChainText(chunk: nat): bytes
    requires chunk >= 1024
  {
    seq(chunk - 5, _ => 120) + [97, 98, 99, 100, 101, 102, 103]
  }

  function ChainSecrets(): seq<bytes> {
    [[97, 98, 99, 100], [100, 101, 102], [102, 103]]
  }

  /** Where each of the three secrets stands. */
  lemma ChainStands(keys: SessionKeys, es: seq<Entry>, chunk: nat)
    requires es == Made(keys, ChainSecrets()) && chunk >= 1024
    ensures WellFormed(keys, es)
    ensures var text := ChainText(chunk);
            && IsOccurrence(text, es, SpanOf(es[0], chunk - 5))
            && IsOccurrence(text, es, SpanOf(es[1], chunk - 2))
            && IsOccurrence(text, es, SpanOf(es[2], chunk))
            && (forall s :: IsOccurrence(text, es, s)
                  ==> s.start == (if s.id == 1 then chunk - 5 else if s.id == 2 then chunk - 2 else chunk))
  {
    MadeWellFormed(keys, ChainSecrets());
    var text := ChainText(chunk);
    assert OccursAt(text, chunk - 5, es[0].secret) && OccursAt(text, chunk - 2, es[1].secret);
    assert OccursAt(text, chunk, es[2].secret);
    forall s | IsOccurrence(text, es, s)
      ensures s.start == (if s.id == 1 then chunk - 5 else if s.id == 2 then chunk - 2 else chunk)
    {
      OccursAtBytes(text, s.start, es[s.id - 1].secret);
      assert text[s.start] == es[s.id - 1].secret[0];
    }
  }

  /** The whole scan chooses the first and the third. */
  lemma ChainChosen(keys: SessionKeys, es: seq<Entry>, chunk: nat)
    requires es == Made(keys, ChainSecrets()) && chunk >= 1024
    ensures var scan := Scan(ChainText(chunk), es);
            && SpanOf(es[0], chunk - 5) in scan
            && SpanOf(es[1], chunk - 2) !in scan
            && SpanOf(es[2], chunk) in scan
  {
    hide Scan, WellFormed, ChainText;
    var text := ChainText(chunk);
    ChainStands(keys, es, chunk);
    FirstIsChosen(keys, text, es, SpanOf(es[0], chunk - 5));
    OverlapDropped(keys, text, es, SpanOf(es[0], chunk - 5), SpanOf(es[1], chunk - 2));
    FirstIsChosen(keys, text, es, SpanOf(es[2], chunk));
  }

  /**
   * A chain of three overlapping secrets across a window edge, for any size of the windows: the whole
   * scan chooses the third, the windowed scan loses it, because the second wins in the only window that
   * owns the third.
   */
  lemma ChainAcrossEdge(keys: SessionKeys, chunk: nat)
    requires chunk >= 1024
    ensures var es := Made(keys, ChainSecrets());
            && WellFormed(keys, es)
            && WindowScan(ChainText(chunk), es, chunk) != Scan(ChainText(chunk), es)
  {
    hide Scan, WindowScan, ChosenByOwner, ChainText;
    var es := Made(keys, ChainSecrets());
    ChainStands(keys, es, chunk);
    ChainChosen(keys, es, chunk);
    ChainWindow(keys, es, chunk);
    WindowScanAgrees(keys, ChainText(chunk), es, chunk);
  }

  /** So "fg", a secret without braces, goes out in the clear on the windowed path. */
  lemma ChainLeaks(keys: SessionKeys, chunk: nat)
    requires chunk >= 1024
    ensures var (es, text) := (Made(keys, ChainSecrets()), ChainText(chunk));
            && WellFormed(keys, es) && Holds(es, [102, 103])
            && InTheClear(text, 0, WindowScan(text, es, chunk), [102, 103])
            && Fits(text, 0, WindowScan(text, es, chunk))
            && Contains(Applied(text, 0, WindowScan(text, es, chunk)), [102, 103])
  {
    hide Scan, WindowScan, ChosenByOwner, ChainText, IsOccurrence;
    var (es, text) := (Made(keys, ChainSecrets()), ChainText(chunk));
    var x: bytes := [102, 103];
    ChainStands(keys, es, chunk);
    assert es[2].secret == x;
    WindowScanIsChoice(keys, text, es, chunk);
    var spans := WindowScan(text, es, chunk);
    forall i | 0 <= i < |spans|
      ensures spans[i].End() <= chunk
    {
      assert spans[i] in Elements(FromWindows(text, es, chunk, 0));
      FromWindowsMembers(text, es, chunk, 0, spans[i]);
      OnlyFirstContributed(keys, es, chunk, spans[i]);
    }
    StandsAt(text, es, SpanOf(es[2], chunk));
    assert ApartFrom(spans, chunk, |x|);
    BraceFreeIsSeamless(keys, es, x);
    WindowShows(keys, text, es, chunk, x);
  }

  lemma StandsAt(text: bytes, es: seq<Entry>, s: RedactionSpan)
    requires IsOccurrence(text, es, s)
    ensures OccursAt(text, s.start, es[s.id - 1].secret)
  {
  }

  /** No window contributes the second or the third of the chain. */
  lemma OnlyFirstContributed(keys: SessionKeys, es: seq<Entry>, chunk: nat, s: RedactionSpan)
    requires es == Made(keys, ChainSecrets()) && WellFormed(keys, es) && chunk >= 1024
    requires IsOccurrence(ChainText(chunk), es, s) && ChosenByOwner(ChainText(chunk), es, chunk, 0, s)
    ensures s.End() <= chunk
  {
    hide Scan;
    ChainStands(keys, es, chunk);
    if s.id == 2 {
      ChainFirstWindow(keys, es, chunk);
      ChainChosen(keys, es, chunk);
    } else if s.id == 3 {
      ChainWindow(keys, es, chunk);
    }
  }

  lemma ChainFirstWindow(keys: SessionKeys, es: seq<Entry>, chunk: nat)
    requires es == Made(keys, ChainSecrets()) && chunk >= 1024
    ensures var text := ChainText(chunk);
            && Owner(text, chunk, 0, chunk - 2) == 0 && ScanStart(es, 0) == 0
            && WindowAt(text, es, chunk, 0) == text
  {
    assert es[0] in es && es[0].len == 4;
    assert MaxLen(es) == 4;
  }

  lemma ChainSlice(chunk: nat)
    requires chunk >= 1024
    ensures ChainText(chunk)[chunk - 3..chunk + 2] == [99, 100, 101, 102, 103]
  {
    var text, tail: bytes := ChainText(chunk), [97, 98, 99, 100, 101, 102, 103];
    assert text[chunk - 5..] == tail;
    assert text[chunk - 3..chunk + 2] == tail[2..];
  }

  lemma ChainBounds(keys: SessionKeys, es: seq<Entry>, chunk: nat)
    requires es == Made(keys, ChainSecrets()) && chunk >= 1024
    ensures Owner(ChainText(chunk), chunk, 0, chunk) == chunk
    ensures ScanStart(es, chunk) == chunk - 3 && ScanEnd(ChainText(chunk), es, chunk, chunk) == chunk + 2
  {
    assert es[0] in es && es[0].len == 4;
    assert MaxLen(es) == 4;
  }

  lemma ChainWindow(keys: SessionKeys, es: seq<Entry>, chunk: nat)
    requires es == Made(keys, ChainSecrets()) && WellFormed(keys, es) && chunk >= 1024
    ensures !ChosenByOwner(ChainText(chunk), es, chunk, 0, SpanOf(es[2], chunk))
  {
    hide ScanStart, ScanEnd, Owner, Scan;
    ChainBounds(keys, es, chunk);
    ChainSlice(chunk);
    ChainWindowScan(keys, es);
  }

  lemma ChainWindowScan(keys: SessionKeys, es: seq<Entry>)
    requires es == Made(keys, ChainSecrets()) && WellFormed(keys, es)
    ensures SpanOf(es[2], 3) !in Scan([99, 100, 101, 102, 103], es)
  {
    var window: bytes := [99, 100, 101, 102, 103];
    var s2 := SpanOf(es[1], 1);
    assert OccursAt(window, 1, es[1].secret);
    forall b | IsOccurrence(window, es, b)
      ensures b.id != 1 && (b.id == 2 ==> b.start == 1)
    {
      OccursAtBytes(window, b.start, es[b.id - 1].secret);
      assert window[b.start] == es[b.id - 1].secret[0];
    }
    FirstIsChosen(keys, window, es, s2);
    OverlapDropped(keys, window, es, s2, SpanOf(es[2], 3));
  }

  /**
   * A secret with brace bytes can come back at a seam: "a{{" is not in the text and in no
   * placeholder, but it is in the redacted text, where an "a" meets an inserted placeholder.
   */
  lemma BraceSecretReappears(keys: SessionKeys)
    ensures var es := Made(keys, [[97, 123, 123], [107]]);
            && WellFormed(keys, es)
            && Scan([97, 107], es) == [SpanOf(es[1], 1)]
            && !Contains([97, 107], es[0].secret)
            && !Contains(es[1].placeholder, es[0].secret)
            && Fits([97, 107], 0, Scan([97, 107], es))
            && Contains(Applied([97, 107], 0, Scan([97, 107], es)), es[0].secret)
  {
    var secrets: seq<bytes> := [[97, 123, 123], [107]];
    var es := Made(keys, secrets);
    MadeWellFormed(keys, secrets);
    assert EntryOk(keys, es[1], 2);
    hide Made, Scan;
    assert OccursAt([97, 107], 1, [107]) && IsOccurrence([97, 107], es, SpanOf(es[1], 1));
    OnlyK(keys, es, SpanOf(es[1], 1));
    NotInPlaceholder(es[1].placeholder);
    SeamShows(SpanOf(es[1], 1));
  }

  lemma NotInPlaceholder(p: bytes)
    requires Shaped(p)
    ensures !Contains(p, [97, 123, 123])
  {
    var x: bytes := [97, 123, 123];
    assert x[0] == 97 && x[1] == 123;
    forall i
      ensures !OccursAt(p, i, x)
    {
      if OccursAt(p, i, x) {
        OccursAtBytes(p, i, x);
      }
    }
  }

  lemma SeamShows(s: RedactionSpan)
    requires Shaped(s.placeholder) && s.start == 1 && s.len == 1
    ensures Contains(Applied([97, 107], 0, [s]), [97, 123, 123])
  {
    var out, p := Applied([97, 107], 0, [s]), s.placeholder;
    assert [s][1..] == [] && Applied([97, 107], 2, []) == [];
    assert out == [97] + p + [];
    assert OccursAt(out, 0, [97, 123, 123]);
  }

  lemma OnlyK(keys: SessionKeys, es: seq<Entry>, s: RedactionSpan)
    requires WellFormed(keys, es) && |es| == 2 && es[0].secret == [97, 123, 123] && es[1].secret == [107]
    requires s == SpanOf(es[1], 1) && IsOccurrence([97, 107], es, s)
    ensures Scan([97, 107], es) == [s] && Fits([97, 107], 0, [s])
  {
    var text: bytes := [97, 107];
    OccurrencesProper(keys, text, es);
    forall o | o in Occurrences(text, es)
      ensures o == s
    {
      OccursAtBytes(text, o.start, es[o.id - 1].secret);
      assert text[o.start] == es[o.id - 1].secret[0];
    }
    assert IsChoice(Occurrences(text, es), [s]);
    ScanUnique(keys, text, es, [s]);
    ScanIsChoice(keys, text, es);
  }

  /** A text that is all of the one secret. */
  lemma WholeSecret(keys: SessionKeys, es: seq<Entry>, k: bytes)
    requires WellFormed(keys, es) && |es| == 1 && es[0].secret == k
    ensures Scan(k, es) == [SpanOf(es[0], 0)]
  {
    var s := SpanOf(es[0], 0);
    assert EntryOk(keys, es[0], 1);
    assert OccursAt(k, 0, k) && IsOccurrence(k, es, s);
    OccurrencesProper(keys, k, es);
    assert forall o :: o in Occurrences(k, es) ==> o == s;
    assert IsChoice(Occurrences(k, es), [s]);
    ScanUnique(keys, k, es, [s]);
  }

  const EMPTY_OBJECT: bytes := [LBRACE, RBRACE]

  /**
   * A string that an object was stored under is answered with the object's entry. With the secret "{}"
   * the empty object is left as it is by its traversal and stored under its own bytes, and the string
   * "{}" then goes out in the clear.
   */
  lemma ObjectEntryServedToString<S>(p: Setup, r: Rules<S>, path: seq<bytes>, state: S)
    requires p.chunk >= 2 && p.capacity >= 1
    ensures var empty := Obj(NoMember([]));
            && Rewritten(r, empty, path, state) == Some((empty, state))
            && Print(empty) == EMPTY_OBJECT
            && var stored := Print(empty);
            && var s := AfterOps(p, [Ingest([95], EMPTY_OBJECT), ObjectStore(1, stored, stored, [])]);
            && TextAnswer(p.keys, s.cache, p.capacity, p.chunk, s.es, EMPTY_OBJECT).text == EMPTY_OBJECT
            && Uncached(p, s.es, EMPTY_OBJECT).text != EMPTY_OBJECT
  {
    var k := EMPTY_OBJECT;
    EmptyObjectStays(r, path, state);
    hide Rewritten, Print;
    AfterObjectStored(p, k);
    var s := AfterOps(p, [Ingest([95], k), ObjectStore(1, k, k, [])]);
    hide AfterOps, Scan;
    WholeSecret(p.keys, s.es, k);
    WholeRedacted(p.keys, s.es, k);
    AnswerIsFresh(p, s, k);
  }

  lemma EmptyObjectStays<S>(r: Rules<S>, path: seq<bytes>, state: S)
    ensures var empty := Obj(NoMember([]));
            Rewritten(r, empty, path, state) == Some((empty, state)) && Print(empty) == EMPTY_OBJECT
  {
  }

  lemma WholeRedacted(keys: SessionKeys, es: seq<Entry>, k: bytes)
    requires WellFormed(keys, es) && |es| == 1 && es[0].secret == k && |k| < 5
    ensures MinLen(es) == |k|
    ensures Fits(k, 0, [SpanOf(es[0], 0)]) && Applied(k, 0, [SpanOf(es[0], 0)]) != k
  {
    var spans := [SpanOf(es[0], 0)];
    assert EntryOk(keys, es[0], 1);
    assert Applied(k, |k|, spans[1..]) == [];
    assert |Applied(k, 0, spans)| == |es[0].placeholder|;
  }

  lemma AfterObjectStored(p: Setup, k: bytes)
    requires p.chunk >= 1 && p.capacity >= 1 && k != []
    ensures var s := AfterOps(p, [Ingest([95], k), ObjectStore(1, k, k, [])]);
            && s.es == [NewEntry(p.keys, 1, [95], k)]
            && Shadowed(s.cache, s.es, k)
            && s.cache.entries[Key(1, k)] == Sanitized(k, [])
  {
    var ops := [Ingest([95], k), ObjectStore(1, k, k, [])];
    AfterOneIngest(p, k);
    var s1 := AfterOps(p, [ops[0]]);
    assert ops[..1] == [ops[0]];
    assert AfterOps(p, ops) == AfterOp(p, s1, ops[1]);
    hide AfterOps;
    StoredKept(Synced(s1.cache, 1), p.capacity, Key(1, k), Sanitized(k, []));
  }

  lemma AfterOneIngest(p: Setup, secret: bytes)
    requires p.chunk >= 1 && secret != []
    ensures AfterOps(p, [Ingest([95], secret)]) == Session([NewEntry(p.keys, 1, [95], secret)], EMPTY_CACHE)
  {
    var ops := [Ingest([95], secret)];
    assert ops[..0] == [];
    assert AfterOps(p, []) == Session([], EMPTY_CACHE);
    assert AfterOps(p, ops) == AfterOp(p, AfterOps(p, ops[..0]), ops[0]);
  }
}
