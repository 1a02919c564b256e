/** The conversation sanitizer as the program keeps it (src/sanitize.rs, `ConversationSanitizer`). */
module ConversationRun {
  import opened Bytes
  import opened Registry
  import opened Span
  import opened Scanner
  import opened Directive
  import opened DirectiveText
  import opened Conversation

  class ConversationSanitizer {
    const registry: SecretRegistry
    const draws: Draws
    const patterns: Patterns
    var replacements: map<nat, bytes>
    var drawn: nat

    ghost function Memory(): Memo
      reads this
    {
      Memo(replacements, drawn)
    }

    ghost function State(): SanitizerState
      reads this, registry
    {
      SanitizerState(registry.entries, Memory())
    }

    ghost function Ways(): Habits
      reads this, registry
    {
      Habits(registry.keys, draws, patterns)
    }

    ghost predicate Valid()
      reads this, registry
    {
      registry.Valid() && MemoSound(Memory(), registry.entries)
    }

    constructor (keys: SessionKeys, draws: Draws, patterns: Patterns)
      ensures Valid() && fresh(registry) && State() == SanitizerState([], NO_REPLACEMENTS)
      ensures Ways() == Habits(keys, draws, patterns)
    {
      registry := new SecretRegistry(keys);
      this.draws, this.patterns := draws, patterns;
      replacements, drawn := map[], 0;
    }

    method Ingest(name: Label, secret: bytes) returns (r: Result<nat, RegistryError>)
      requires Valid()
      modifies registry
      ensures Valid() && State() == AfterCall(Ways(), old(State()), Call.Ingest(name, secret))
      ensures r
           == match Ingested(registry.keys, old(registry.entries), name, secret)
              case Ok((_, id)) => Ok(id)
              case Err(e) => Err(e)
    {
      hide MemoSound, AfterCall, Ingested;
      IngestStepped(Ways(), State(), name, secret);
      r := registry.Ingest(name, secret);
    }

    /** `random_ascii`. */
    method DrawAscii(len: nat) returns (text: bytes)
      modifies this`drawn
      ensures text == RandomAscii(draws, old(drawn), len) && drawn == old(drawn) + len
    {
      text := [];
      for i := 0 to len
        invariant text == RandomAscii(draws, old(drawn), i) && drawn == old(drawn) + i
      {
        text := text + [Letter(draws(drawn) % ALPHABET_LEN)];
        drawn := drawn + 1;
      }
    }

    method ReplacementFor(id: nat) returns (r: Result<bytes, RegistryError>)
      requires Valid()
      modifies this
      ensures Valid()
      ensures if 1 <= id <= |registry.entries|
              then && Memory() == Remembered(draws, old(Memory()), registry.entries, id)
                   && id in replacements && r == Ok(replacements[id])
              else r == Err(UnknownId(id)) && Memory() == old(Memory())
    {
      hide Remembered, Replacement, MemoSound, WellFormed, EntryOk;
      if 1 <= id <= |registry.entries| {
        RememberedCases(registry.keys, draws, Memory(), registry.entries, id);
      } else {
        OnlyKnown(Memory(), registry.entries, id);
      }
      if id in replacements {
        return Ok(replacements[id]);
      }
      var entry := EntryFor(registry.entries, id);
      if entry.None? {
        return Err(UnknownId(id));
      }
      var original := registry.RestoreToVec(id, []);
      assert [] + entry.value.secret == entry.value.secret;
      var replacement := DrawDifferent(original.value, entry.value.len);
      replacements := replacements[id := replacement];
      r := Ok(replacement);
    }

    /** Up to eight draws more for a text that differs from the secret. */
    method Redraw(original: bytes, len: nat) returns (replacement: bytes)
      requires len == |original|
      modifies this`drawn
      ensures (replacement, drawn) == Redrawn(draws, old(drawn), original, 8)
    {
      hide Redrawn, RandomAscii;
      replacement := DrawAscii(len);
      for i := 0 to 8
        invariant |replacement| == len && len <= drawn
        invariant replacement == RandomAscii(draws, drawn - len, len)
        invariant Redrawn(draws, old(drawn), original, 8) == Redrawn(draws, drawn - len, original, 8 - i)
      {
        RedrawStep(draws, drawn - len, original, 8 - i);
        if replacement != original {
          return;
        }
        replacement := DrawAscii(len);
      }
      RedrawStep(draws, drawn - len, original, 0);
    }

    /** A text that differs from the secret: drawn, or with its first byte changed. */
    method DrawDifferent(original: bytes, len: nat) returns (replacement: bytes)
      requires len == |original|
      modifies this`drawn
      ensures (replacement, drawn) == Replacement(draws, old(drawn), original)
    {
      hide Redrawn;
      replacement := Redraw(original, len);
      if replacement == original && replacement != [] {
        replacement := replacement[0 := if replacement[0] == SMALL_A then SMALL_B else SMALL_A];
      }
    }

    method ApplyReplacementSpans(text: bytes, spans: seq<RedactionSpan>) returns (out: bytes)
      requires Valid() && Fits(text, 0, spans) && KnownSpans(spans, registry.entries)
      modifies this
      ensures Valid() && Memory() == RememberedAll(draws, old(Memory()), registry.entries, spans)
      ensures Covered(spans, Memory()) && out == Replaced(text, 0, spans, Memory())
    {
      if spans == [] {
        assert text[0..] == text;
        return text;
      }
      ghost var es := registry.entries;
      ghost var all := RememberedAll(draws, Memory(), es, spans);
      RememberedAllProperty(registry.keys, draws, Memory(), es, spans);
      hide Remembered, MemoSound, Extends, WellFormed, Replaced;
      out := [];
      var cursor: nat := 0;
      assert spans[0..] == spans;
      for i := 0 to |spans|
        invariant Valid() && registry.entries == es
        invariant cursor <= |text| && Fits(text, cursor, spans[i..]) && KnownSpans(spans[i..], es)
        invariant all == RememberedAll(draws, Memory(), es, spans[i..])
        invariant Covered(spans[i..], all)
        invariant Replaced(text, 0, spans, all) == out + Replaced(text, cursor, spans[i..], all)
      {
        assert spans[i..][0] == spans[i] && spans[i..][1..] == spans[i + 1..];
        assert spans[i].id in all.replacements && Covered(spans[i + 1..], all);
        ghost var sofar := out;
        out := AppendSpan(text, cursor, spans[i], out, spans[i + 1..]);
        SpanWritten(text, cursor, spans[i..], all, sofar, out);
        cursor := spans[i].End();
      }
      NothingLeft(text, cursor, all);
      if cursor < |text| {
        out := out + text[cursor..];
      }
    }

    /** The bytes before a span and the span's replacement; `later` are the spans behind it. */
    method AppendSpan(text: bytes, cursor: nat, span: RedactionSpan, out: bytes, ghost later: seq<RedactionSpan>)
      returns (more: bytes)
      requires Valid() && cursor <= span.start <= |text|
      requires 1 <= span.id <= |registry.entries| && KnownSpans(later, registry.entries)
      modifies this
      ensures Valid() && Memory() == Remembered(draws, old(Memory()), registry.entries, span.id)
      ensures var all := RememberedAll(draws, Memory(), registry.entries, later);
              span.id in all.replacements && more == out + text[cursor..span.start] + all.replacements[span.id]
    {
      hide Remembered, RememberedAll, MemoSound, WellFormed;
      more := out;
      assert text[cursor..cursor] == [];
      if cursor < span.start {
        more := more + text[cursor..span.start];
      }
      assert more == out + text[cursor..span.start];
      var replacement := ReplacementFor(span.id);
      ReplacementLasts(registry.keys, draws, Memory(), registry.entries, later, span.id);
      more := more + replacement.value;
    }

    /** `sanitize_bytes_exact`. */
    method SanitizeBytesExact(text: bytes) returns (out: bytes, count: nat)
      requires Valid()
      modifies this
      ensures Valid() && State() == AfterCall(Ways(), old(State()), ExactBytes(text))
      ensures (out, count) == (ExactOutput(Ways(), old(State()), text).0, |ExactOutput(Ways(), old(State()), text).1|)
    {
      hide Scan, Select, RememberedAll, MemoSound;
      var scanned := ScanStringToken(text, registry);
      ScanSound(registry.keys, text, registry.entries);
      SoundChoice(text, registry.entries, Bares(scanned));
      var spans := SelectLongestNonOverlapping(Bares(scanned));
      out := ApplyReplacementSpans(text, spans);
      count := |spans|;
    }

    /** `normalize_directives`. */
    method NormalizeDirectives(text: bytes) returns (r: Result<(bytes, seq<DirectivePart>), TextError>)
      requires Valid()
      modifies registry
      ensures Valid() && old(registry.entries) <= registry.entries
      ensures Parse(text).Err? ==> r == Err(Syntax(Parse(text).error)) && registry.entries == old(registry.entries)
      ensures Parse(text).Ok? ==> (
                var n := Normalized(registry.keys, old(registry.entries), text);
                r == Ok((n.text, n.marks)) && registry.entries == n.es)
    {
      hide Parse, MemoSound, Registered, WellFormed, MarksOf, AllMarked;
      ghost var es := registry.entries;
      if Parse(text).Ok? {
        NormalizedProperty(registry.keys, es, text);
      }
      var replacement := ParseUserSecretDirectives(text, registry);
      MemoStable(Memory(), es, registry.entries);
      if replacement.Err? {
        return Err(replacement.error);
      }
      if replacement.value.None? {
        return Ok((text, []));
      }
      var outs := replacement.value.value;
      MarksUnique(registry.entries, Parse(text).value, outs);
      var normal := JoinParts(outs);
      r := Ok((normal, outs));
    }

    method JoinParts(parts: seq<DirectivePart>) returns (text: bytes)
      ensures text == NormalText(parts)
    {
      text := [];
      assert parts[0..] == parts;
      for i := 0 to |parts|
        invariant NormalText(parts) == text + NormalText(parts[i..])
      {
        assert parts[i..][0] == parts[i] && parts[i..][1..] == parts[i + 1..];
        var piece := match parts[i] case PlainPart(plain) => plain case SecretPart(placeholder, _) => placeholder;
        Assoc(text, piece, NormalText(parts[i + 1..]));
        text := text + piece;
      }
      assert text + [] == text;
    }

    /** `auto_register_pattern_matches`. */
    method RegisterMatches(text: bytes) returns (ok: bool)
      requires Valid()
      modifies registry
      ensures Valid() && old(registry.entries) <= registry.entries
      ensures (registry.entries, ok) == AfterMatches(registry.keys, old(registry.entries), patterns(text))
    {
      hide MemoSound, Ingested, WellFormed;
      ghost var es := registry.entries;
      var matches := patterns(text);
      AfterMatchesProperty(registry.keys, es, matches);
      for i := 0 to |matches|
        invariant registry.Valid() && es <= registry.entries
        invariant AfterMatches(registry.keys, es, matches)
               == AfterMatches(registry.keys, registry.entries, matches[i..])
      {
        assert matches[i..][0] == matches[i] && matches[i..][1..] == matches[i + 1..];
        AfterMatchesProperty(registry.keys, registry.entries, [matches[i]]);
        OneMatch(registry.keys, registry.entries, matches[i].0, matches[i].1);
        var id := registry.Ingest(matches[i].0, matches[i].1);
        if id.Err? {
          MemoStable(Memory(), es, registry.entries);
          return false;
        }
      }
      MemoStable(Memory(), es, registry.entries);
      ok := true;
    }

    /** `sanitize_text`. */
    method SanitizeText(text: bytes) returns (r: Result<(bytes, nat), TextError>)
      requires Valid()
      modifies this, registry
      ensures Valid() && State() == AfterCall(Ways(), old(State()), Call.Text(text))
      ensures Parse(text).Err? ==> r == Err(Syntax(Parse(text).error))
      ensures Parse(text).Ok? ==> (
                var n := Normalized(registry.keys, old(registry.entries), text);
                if AfterMatches(registry.keys, n.es, patterns(n.text)).1
                then var (out, spans) := TextOutput(Ways(), old(State()), text);
                     r == Ok((out, |spans|))
                else r == Err(Refused(EmptySecret)))
    {
      hide Parse, Scan, Select, RememberedAll, MemoSound, WellFormed, Normalized, AfterMatches, AllMarked, Sound,
           KnownSpans, Fits;
      ghost var s := State();
      var normalized := NormalizeDirectives(text);
      if normalized.Err? {
        return Err(normalized.error);
      }
      var (normal, marks) := normalized.value;
      NormalizedProperty(registry.keys, s.es, text);
      ghost var n := Normalized(registry.keys, s.es, text);
      var ok := RegisterMatches(normal);
      if !ok {
        return Err(Refused(EmptySecret));
      }
      TextChoiceSound(registry.keys, n, Parse(text).value, registry.entries);
      var spans := ChooseSpans(normal, marks, n, Parse(text).value);
      var out := ApplyReplacementSpans(normal, spans);
      r := Ok((out, |spans|));
    }

    /** The scan's spans and those of the directives' placeholders, chosen among. */
    method ChooseSpans(normal: bytes, marks: seq<DirectivePart>, ghost n: Normal, ghost parts: seq<Part>)
      returns (spans: seq<RedactionSpan>)
      requires registry.Valid() && normal == n.text && marks == n.marks
      ensures spans == TextChoice(n, registry.entries)
    {
      hide Scan, Select;
      var scanned := ScanStringToken(normal, registry);
      var all := Bares(scanned);
      ghost var first := all;
      assert marks[0..] == marks && first + MarkSpans(normal, marks) == AllSpans(normal, registry.entries, marks);
      for i := 0 to |marks|
        invariant AllSpans(normal, registry.entries, marks) == all + MarkSpans(normal, marks[i..])
      {
        assert marks[i..][0] == marks[i] && marks[i..][1..] == marks[i + 1..];
        if marks[i].SecretPart? {
          var places := PlacesOf(normal, marks[i].placeholder, marks[i].id, 0);
          Assoc(all, places, MarkSpans(normal, marks[i + 1..]));
          all := all + places;
        }
      }
      assert all + [] == all;
      spans := SelectLongestNonOverlapping(all);
    }
  }

  lemma OneMatch(keys: SessionKeys, es: seq<Entry>, name: Label, secret: bytes)
    requires WellFormed(keys, es)
    ensures match Ingested(keys, es, name, secret)
            case Ok((more, _)) => es <= more
            case Err(e) => e == EmptySecret
  {
    if secret != [] {
      IngestedProperty(keys, es, name, secret);
    }
  }

  /** What remembering a replacement comes to. */
  lemma RememberedCases(keys: SessionKeys, draws: Draws, m: Memo, es: seq<Entry>, id: nat)
    requires WellFormed(keys, es) && MemoSound(m, es) && 1 <= id <= |es|
    ensures es[id - 1].len == |es[id - 1].secret|
    ensures var m' := Remembered(draws, m, es, id);
            && MemoSound(m', es)
            && (if id in m.replacements then m' == m
                else var (text, drawn) := Replacement(draws, m.drawn, es[id - 1].secret);
                     m' == Memo(m.replacements[id := text], drawn))
  {
    assert EntryOk(keys, es[id - 1], id);
    hide Replacement, MemoSound, WellFormed;
    RememberedProperty(keys, draws, m, es, id);
  }

  lemma OnlyKnown(m: Memo, es: seq<Entry>, id: nat)
    requires MemoSound(m, es) && !(1 <= id <= |es|)
    ensures id !in m.replacements
  {
  }

  lemma IngestStepped(h: Habits, s: SanitizerState, name: Label, secret: bytes)
    requires GoodState(h, s)
    ensures var s' := AfterCall(h, s, Call.Ingest(name, secret));
            && GoodState(h, s')
            && (match Ingested(h.keys, s.es, name, secret)
                case Ok((es, _)) => secret != [] && s' == SanitizerState(es, s.memo)
                case Err(_) => secret == [] && s' == s)
  {
    CallKeeps(h, s, Call.Ingest(name, secret));
    hide MemoSound, WellFormed;
    var matches := [(name, secret)];
    assert |matches[1..]| == 0;
    match Ingested(h.keys, s.es, name, secret) {
      case Ok((es, _)) => assert AfterMatches(h.keys, es, matches[1..]) == (es, true);
      case Err(_) =>
    }
  }

  /** One more try of the draw. */
  lemma RedrawStep(draws: Draws, at: nat, original: bytes, tries: nat)
    ensures var text := RandomAscii(draws, at, |original|);
            Redrawn(draws, at, original, tries)
            == if tries == 0 || text != original then (text, at + |original|)
               else Redrawn(draws, at + |original|, original, tries - 1)
  {
    hide RandomAscii;
  }

  lemma NothingLeft(text: bytes, cursor: nat, m: Memo)
    requires cursor <= |text|
    ensures Replaced(text, cursor, [], m) == text[cursor..]
  {
  }

  /** What a span's replacement is now, it is in the end. */
  lemma ReplacementLasts(keys: SessionKeys, draws: Draws, m: Memo, es: seq<Entry>, spans: seq<RedactionSpan>, id: nat)
    requires WellFormed(keys, es) && MemoSound(m, es) && KnownSpans(spans, es) && id in m.replacements
    ensures var all := RememberedAll(draws, m, es, spans);
            id in all.replacements && all.replacements[id] == m.replacements[id]
  {
    hide MemoSound, RememberedAll, WellFormed;
    RememberedAllProperty(keys, draws, m, es, spans);
  }

  lemma SpanWritten(text: bytes, cursor: nat, spans: seq<RedactionSpan>, m: Memo, before: bytes, after: bytes)
    requires spans != [] && Fits(text, cursor, spans) && Covered(spans, m)
    requires after == before + text[cursor..spans[0].start] + m.replacements[spans[0].id]
    ensures Fits(text, spans[0].End(), spans[1..])
    ensures before + Replaced(text, cursor, spans, m) == after + Replaced(text, spans[0].End(), spans[1..], m)
  {
    var gap, r := text[cursor..spans[0].start], m.replacements[spans[0].id];
    var rest := Replaced(text, spans[0].End(), spans[1..], m);
    Assoc(before, gap, r);
    Assoc(before, gap + r, rest);
  }
}
