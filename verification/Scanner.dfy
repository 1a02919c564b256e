/** The scan for secrets in one string (src/redact/scanner.rs). */
module Scanner {
  import opened Bytes
  import opened Registry
  import opened Span

  function SpanOf(e: Entry, start: nat): RedactionSpan {
    RedactionSpan(start, e.len, e.id, e.placeholder)
  }

  /** `s` marks a place where the secret of the entry it names really stands. */
  predicate IsOccurrence(text: bytes, es: seq<Entry>, s: RedactionSpan) {
    && 1 <= s.id <= |es|
    && s == SpanOf(es[s.id - 1], s.start)
    && OccursAt(text, s.start, es[s.id - 1].secret)
  }

  // ----- the specification: test every secret at every start

  function OccurrencesOf(text: bytes, e: Entry, from: nat): (r: seq<RedactionSpan>)
    ensures forall s :: s in r
                        <==> from <= s.start && s == SpanOf(e, s.start) && OccursAt(text, s.start, e.secret)
    decreases |text| - from
  {
    if from + |e.secret| > |text| then []
    else
      var rest := if from == |text| then [] else OccurrencesOf(text, e, from + 1);
      if OccursAt(text, from, e.secret) then [SpanOf(e, from)] + rest else rest
  }

  function AllOccurrences(text: bytes, es: seq<Entry>): (r: seq<RedactionSpan>) {
    if es == [] then []
    else AllOccurrences(text, es[..|es| - 1]) + OccurrencesOf(text, es[|es| - 1], 0)
  }

  lemma {:induction false} AllOccurrencesMembers(keys: SessionKeys, text: bytes, es: seq<Entry>)
    requires WellFormed(keys, es)
    ensures forall s :: s in AllOccurrences(text, es) <==> IsOccurrence(text, es, s)
  {
    if es != [] {
      var front := es[..|es| - 1];
      AllOccurrencesMembers(keys, text, front);
      forall s
        ensures s in AllOccurrences(text, es) <==> IsOccurrence(text, es, s)
      {
        assert s in AllOccurrences(text, front) <==> IsOccurrence(text, front, s);
      }
    }
  }

  ghost function Occurrences(text: bytes, es: seq<Entry>): set<RedactionSpan> {
    Elements(AllOccurrences(text, es))
  }

  /** The longest-first choice among all true occurrences. */
  function Scan(text: bytes, es: seq<Entry>): seq<RedactionSpan> {
    Select(AllOccurrences(text, es))
  }

  lemma OccurrencesProper(keys: SessionKeys, text: bytes, es: seq<Entry>)
    requires WellFormed(keys, es)
    ensures Proper(Occurrences(text, es))
    ensures forall s :: s in Occurrences(text, es) <==> IsOccurrence(text, es, s)
  {
    AllOccurrencesMembers(keys, text, es);
    forall s | s in Occurrences(text, es)
      ensures s.len > 0
    {
      assert EntryOk(keys, es[s.id - 1], s.id);
    }
  }

  lemma ScanIsChoice(keys: SessionKeys, text: bytes, es: seq<Entry>)
    requires WellFormed(keys, es)
    ensures IsChoice(Occurrences(text, es), Scan(text, es))
    ensures Fits(text, 0, Scan(text, es))
  {
    OccurrencesProper(keys, text, es);
    SelectIsChoice(AllOccurrences(text, es));
    var spans := Scan(text, es);
    forall i | 0 <= i < |spans|
      ensures spans[i].End() <= |text|
    {
      assert IsOccurrence(text, es, spans[i]);
      assert EntryOk(keys, es[spans[i].id - 1], spans[i].id);
    }
  }

  /** The scan is the only list that meets the conditions of the choice. */
  lemma ScanUnique(keys: SessionKeys, text: bytes, es: seq<Entry>, spans: seq<RedactionSpan>)
    requires WellFormed(keys, es)
    ensures IsChoice(Occurrences(text, es), spans) <==> spans == Scan(text, es)
  {
    ScanIsChoice(keys, text, es);
    OccurrencesProper(keys, text, es);
    if IsChoice(Occurrences(text, es), spans) {
      ChoiceUnique(Occurrences(text, es), spans, Scan(text, es));
    }
  }

  /**
   * An occurrence is left out only for a chosen one that shares a byte with it and is longer, or is as
   * long and starts further left; two of the same length at the same place are the same.
   */
  lemma WhyLeftOut(keys: SessionKeys, text: bytes, es: seq<Entry>, t: RedactionSpan) returns (b: RedactionSpan)
    requires WellFormed(keys, es) && IsOccurrence(text, es, t) && t !in Scan(text, es)
    ensures b in Scan(text, es) && IsOccurrence(text, es, b)
    ensures b.start < t.start + t.len && t.start < b.start + b.len
    ensures b.len > t.len || (b.len == t.len && b.start < t.start)
  {
    OccurrencesProper(keys, text, es);
    ScanIsChoice(keys, text, es);
    hide WellFormed, Scan, IsOccurrence, Proper;
    b :| b in Scan(text, es) && b.Overlaps(t) && Ranked(b, t);
    SameStretch(keys, text, es, b, t);
  }

  lemma SameStretch(keys: SessionKeys, text: bytes, es: seq<Entry>, a: RedactionSpan, b: RedactionSpan)
    requires WellFormed(keys, es) && IsOccurrence(text, es, a) && IsOccurrence(text, es, b)
    ensures a.start == b.start && a.len == b.len ==> a == b
  {
    assert EntryOk(keys, es[a.id - 1], a.id) && EntryOk(keys, es[b.id - 1], b.id);
  }

  lemma ScanEmpty(keys: SessionKeys, text: bytes, es: seq<Entry>)
    requires WellFormed(keys, es)
    requires forall i :: 0 <= i < |es| ==> |text| < es[i].len
    ensures Scan(text, es) == []
  {
    OccurrencesProper(keys, text, es);
    assert forall i :: 0 <= i < |es| ==> EntryOk(keys, es[i], i + 1);
    assert forall s :: s !in Occurrences(text, es);
    ScanUnique(keys, text, es, []);
  }

  // ----- the scan through the index

  /**
   * `found` lists the occurrences with a length in `done`, and those of length `len` that start
   * before `start`, or at `start` for an entry in `tried`.
   */
  ghost predicate Progress(text: bytes, es: seq<Entry>, found: seq<RedactionSpan>,
                           done: set<nat>, len: nat, start: nat, tried: seq<Entry>)
  {
    forall s :: s in found
      <==> IsOccurrence(text, es, s)
           && (s.len in done || (s.len == len && (s.start < start || (s.start == start && es[s.id - 1] in tried))))
  }

  lemma ProgressNextStart(keys: SessionKeys, text: bytes, es: seq<Entry>, found: seq<RedactionSpan>,
                          done: set<nat>, len: nat, start: nat, tried: seq<Entry>)
    requires WellFormed(keys, es) && start + len <= |text|
    requires Progress(text, es, found, done, len, start, tried)
    requires forall e :: e in tried
                         <==> e in es && e.len == len && e.fingerprint == keys.fingerprint(text[start..start + len])
    ensures Progress(text, es, found, done, len, start + 1, [])
  {
    forall s
      ensures s in found
              <==> IsOccurrence(text, es, s) && (s.len in done || (s.len == len && s.start < start + 1))
    {
      if IsOccurrence(text, es, s) && s.len == len && s.start == start {
        assert EntryOk(keys, es[s.id - 1], s.id);
        assert es[s.id - 1] in es;
      }
    }
  }

  /** `found` lists the occurrences with a length in `done`. */
  ghost predicate Settled(text: bytes, es: seq<Entry>, found: seq<RedactionSpan>, done: set<nat>) {
    forall s :: s in found <==> IsOccurrence(text, es, s) && s.len in done
  }

  lemma SettleLength(keys: SessionKeys, text: bytes, es: seq<Entry>, found: seq<RedactionSpan>,
                     done: set<nat>, len: nat, start: nat)
    requires WellFormed(keys, es) && start + len > |text|
    requires Progress(text, es, found, done, len, start, [])
    ensures Settled(text, es, found, done + {len})
  {
    forall s
      ensures s in found <==> IsOccurrence(text, es, s) && s.len in done + {len}
    {
      if IsOccurrence(text, es, s) {
        assert EntryOk(keys, es[s.id - 1], s.id);
      }
    }
  }

  lemma ProgressNextEntry(keys: SessionKeys, text: bytes, es: seq<Entry>, found: seq<RedactionSpan>,
                          done: set<nat>, len: nat, start: nat, tried: seq<Entry>, e: Entry)
    requires WellFormed(keys, es) && start + len <= |text|
    requires e in es && e.len == len
    requires Progress(text, es, found, done, len, start, tried)
    ensures Progress(text, es,
              if text[start..start + len] == e.secret then found + [SpanOf(e, start)] else found,
              done, len, start, tried + [e])
  {
    var i :| 0 <= i < |es| && es[i] == e;
    assert EntryOk(keys, es[i], i + 1);
    var found' := if text[start..start + len] == e.secret then found + [SpanOf(e, start)] else found;
    forall s
      ensures s in found'
              <==> IsOccurrence(text, es, s)
                   && (s.len in done
                       || (s.len == len && (s.start < start || (s.start == start && es[s.id - 1] in tried + [e]))))
    {
      if IsOccurrence(text, es, s) {
        assert EntryOk(keys, es[s.id - 1], s.id);
      }
    }
  }

  lemma SettledAll(keys: SessionKeys, text: bytes, es: seq<Entry>, found: seq<RedactionSpan>, done: set<nat>)
    requires WellFormed(keys, es)
    requires forall i :: 0 <= i < |es| ==> es[i].len in done
    requires Settled(text, es, found, done)
    ensures Elements(found) == Occurrences(text, es) && Proper(Elements(found))
  {
    OccurrencesProper(keys, text, es);
    assert forall s :: s in Elements(found) <==> s in Occurrences(text, es);
  }

  /** The windows of one length: every start, and every candidate the index gives for it. */
  method ScanLength(text: bytes, registry: SecretRegistry, len: nat, before: seq<RedactionSpan>, ghost done: set<nat>)
    returns (found: seq<RedactionSpan>)
    requires registry.Valid() && len <= |text| && len !in done
    requires Settled(text, registry.entries, before, done)
    ensures Settled(text, registry.entries, found, done + {len})
  {
    found := before;
    for start := 0 to |text| - len + 1
      invariant Progress(text, registry.entries, found, done, len, start, [])
    {
      var window := text[start..start + len];
      var candidates := registry.Candidates(len, registry.keys.fingerprint(window));
      for k := 0 to |candidates|
        invariant Progress(text, registry.entries, found, done, len, start, candidates[..k])
      {
        var entry := candidates[k];
        ProgressNextEntry(registry.keys, text, registry.entries, found, done, len, start, candidates[..k], entry);
        assert candidates[..k] + [entry] == candidates[..k + 1];
        if KeyedDigest(window) == entry.digest {
          found := found + [RedactionSpan(start, len, entry.id, entry.placeholder)];
        }
      }
      assert candidates[..|candidates|] == candidates;
      ProgressNextStart(registry.keys, text, registry.entries, found, done, len, start, candidates);
    }
    SettleLength(registry.keys, text, registry.entries, found, done, len, |text| - len + 1);
  }

  /** All lengths, one after the other. */
  method ScanLengths(text: bytes, registry: SecretRegistry) returns (found: seq<RedactionSpan>)
    requires registry.Valid()
    ensures Elements(found) == Occurrences(text, registry.entries) && Proper(Elements(found))
  {
    found := [];
    var lengths := LengthsOf(registry.entries);
    ghost var done: set<nat> := {};
    for l := 0 to |lengths|
      invariant forall n :: n in done <==> n in lengths[..l]
      invariant Settled(text, registry.entries, found, done)
    {
      assert lengths[..l + 1] == lengths[..l] + [lengths[l]];
      if lengths[l] > |text| {
        SettleLength(registry.keys, text, registry.entries, found, done, lengths[l], 0);
      } else {
        found := ScanLength(text, registry, lengths[l], found, done);
      }
      done := done + {lengths[l]};
    }
    assert lengths[..|lengths|] == lengths;
    assert forall i :: 0 <= i < |registry.entries| ==> registry.entries[i] in registry.entries;
    SettledAll(registry.keys, text, registry.entries, found, done);
  }

  /**
   * `scan_string_token`: the search by length, start and prefilter finds what testing all secrets
   * finds.
   */
  method ScanStringToken(text: bytes, registry: SecretRegistry) returns (spans: seq<RedactionSpan>)
    requires registry.Valid()
    ensures spans == Scan(text, registry.entries)
    ensures IsChoice(Occurrences(text, registry.entries), spans)
    ensures Fits(text, 0, spans)
  {
    ScanIsChoice(registry.keys, text, registry.entries);
    var minLen := registry.MinSecretLen();
    if registry.IsEmpty() || (minLen.Some? && |text| < minLen.value) {
      ScanEmpty(registry.keys, text, registry.entries);
      return [];
    }
    hide IsChoice, Proper, Fits;
    var found := ScanLengths(text, registry);
    spans := SelectLongestNonOverlapping(found);
    ScanUnique(registry.keys, text, registry.entries, spans);
  }
}
