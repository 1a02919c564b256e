/**
 * Texts with secret directives (src/redact/directive.rs, `parse_user_secret_directives`, and
 * src/redact/json_sanitizer.rs, `replace_user_secret_directives_with`): tagged secrets are
 * registered first, then every plain part is redacted and every tagged one becomes a placeholder.
 */
module DirectiveText {
  import opened Bytes
  import opened Placeholder
  import opened Registry
  import opened Span
  import opened Scanner
  import opened Matcher
  import opened Directive
  import opened RoundTrip
  import opened Cache
  import opened CacheTrace
  import Restore
  import Window

  const USER: Label := SecretLabel("USER")

  datatype DirectivePart = PlainPart(text: bytes) | SecretPart(placeholder: bytes, id: nat)

  datatype TextError = Syntax(error: DirectiveError) | Refused(reason: RegistryError)

  // ----- what is registered, and what goes out

  /** The entries after every tagged secret was ingested, in order. */
  function Registered(keys: SessionKeys, es: seq<Entry>, parts: seq<Part>): seq<Entry>
    decreases |parts|
  {
    if parts == [] then es
    else match parts[0]
      case Plain(_) => Registered(keys, es, parts[1..])
      case Secret(secret) => Registered(keys, IngestedOrSame(keys, es, USER, secret), parts[1..])
  }

  predicate HasSecret(parts: seq<Part>) {
    exists i :: 0 <= i < |parts| && parts[i].Secret?
  }

  predicate HoldsTagged(es: seq<Entry>, parts: seq<Part>) {
    forall i :: 0 <= i < |parts| && parts[i].Secret? ==> Existing(es, KeyedDigest(parts[i].text), |parts[i].text|).Some?
  }

  /** The id of a held secret. */
  function IdOf(es: seq<Entry>, secret: bytes): (id: nat)
    requires Existing(es, KeyedDigest(secret), |secret|).Some?
    ensures 1 <= id <= |es|
  {
    Existing(es, KeyedDigest(secret), |secret|).value + 1
  }

  /** Every tagged secret is held in the end; what was held before stays. */
  lemma {:induction false} RegisteredProperty(keys: SessionKeys, es: seq<Entry>, parts: seq<Part>)
    requires WellFormed(keys, es) && forall i :: 0 <= i < |parts| ==> parts[i].text != []
    ensures WellFormed(keys, Registered(keys, es, parts)) && es <= Registered(keys, es, parts)
    ensures HoldsTagged(Registered(keys, es, parts), parts)
    decreases |parts|
  {
    if parts != [] {
      var all := Registered(keys, es, parts);
      if parts[0].Secret? {
        IngestedProperty(keys, es, USER, parts[0].text);
        var (es1, id) := Ingested(keys, es, USER, parts[0].text).value;
        RegisteredProperty(keys, es1, parts[1..]);
        assert EntryOk(keys, all[id - 1], id) && all[id - 1].secret == parts[0].text;
      } else {
        RegisteredProperty(keys, es, parts[1..]);
      }
      forall i | 0 <= i < |parts| && parts[i].Secret?
        ensures Existing(all, KeyedDigest(parts[i].text), |parts[i].text|).Some?
      {
        if i > 0 {
          assert parts[1..][i - 1] == parts[i];
        }
      }
    }
  }

  /** The spans of a text: one scan, or the windows of a large one. */
  function TextSpans(p: Setup, es: seq<Entry>, text: bytes): seq<RedactionSpan>
    requires p.chunk > 0
  {
    if |text| > p.chunk && es != [] && |text| >= MinLen(es) then Window.WindowScan(text, es, p.chunk)
    else Scan(text, es)
  }

  lemma TextSpansTrue(p: Setup, es: seq<Entry>, text: bytes)
    requires p.chunk > 0 && WellFormed(p.keys, es)
    ensures TrueSpans(text, es, TextSpans(p, es, text)) && Fits(text, 0, TextSpans(p, es, text))
    ensures Uncached(p, es, text).text == Applied(text, 0, TextSpans(p, es, text))
    ensures |Uncached(p, es, text).ids| == |TextSpans(p, es, text)|
    ensures forall i :: 0 <= i < |TextSpans(p, es, text)| ==> Uncached(p, es, text).ids[i] == TextSpans(p, es, text)[i].id
  {
    hide Scan, Window.WindowScan;
    ScanTrueSpans(p.keys, text, es);
    Window.WindowScanIsChoice(p.keys, text, es, p.chunk);
  }

  /** The ids of an answer name, from left to right, the secrets that stood where it was redacted. */
  lemma AnswerIds(p: Setup, es: seq<Entry>, text: bytes)
    requires p.chunk > 0 && WellFormed(p.keys, es)
    ensures var spans, ids := TextSpans(p, es, text), Uncached(p, es, text).ids;
            && Fits(text, 0, spans) && |ids| == |spans|
            && forall i :: 0 <= i < |ids| ==> (
                 && 1 <= ids[i] <= |es|
                 && text[spans[i].start..spans[i].End()] == es[ids[i] - 1].secret
                 && spans[i].placeholder == es[ids[i] - 1].placeholder)
  {
    hide TextSpans, Uncached, WellFormed;
    TextSpansTrue(p, es, text);
    var spans := TextSpans(p, es, text);
    forall i | 0 <= i < |spans|
      ensures 1 <= spans[i].id <= |es| && text[spans[i].start..spans[i].End()] == es[spans[i].id - 1].secret
      ensures spans[i].placeholder == es[spans[i].id - 1].placeholder
    {
      TrueSpan(p.keys, text, es, spans[i]);
    }
  }

  /** The ids of all plain parts, part after part. */
  ghost function SplicedIds(p: Setup, es: seq<Entry>, parts: seq<Part>): seq<nat>
    requires p.chunk > 0 && WellFormed(p.keys, es)
    decreases |parts|
  {
    if parts == [] then []
    else (if parts[0].Plain? then Uncached(p, es, parts[0].text).ids else []) + SplicedIds(p, es, parts[1..])
  }

  /** The text that goes out. */
  ghost function Spliced(p: Setup, es: seq<Entry>, parts: seq<Part>): bytes
    requires p.chunk > 0 && WellFormed(p.keys, es) && HoldsTagged(es, parts)
    decreases |parts|
  {
    if parts == [] then []
    else SplicedPart(p, es, parts[0]) + Spliced(p, es, parts[1..])
  }

  ghost function SplicedPart(p: Setup, es: seq<Entry>, part: Part): bytes
    requires p.chunk > 0 && WellFormed(p.keys, es) && HoldsTagged(es, [part])
  {
    match part
    case Plain(text) => Uncached(p, es, text).text
    case Secret(secret) =>
      assert [part][0] == part;
      es[IdOf(es, secret) - 1].placeholder
  }

  /** The text as the user wrote it, with only the tags removed. */
  function Untagged(parts: seq<Part>): bytes {
    if parts == [] then [] else parts[0].text + Untagged(parts[1..])
  }

  // ----- restoring it

  /** A gap in front of a weave. */
  function Widened(gap: bytes, w: Weave): Weave {
    match w
    case End(g) => End(gap + g)
    case Then(g, id, rest) => Then(gap + g, id, rest)
  }

  /** One weave behind another. */
  function Joined(w: Weave, tail: Weave): Weave {
    match w
    case End(gap) => Widened(gap, tail)
    case Then(gap, id, rest) => Then(gap, id, Joined(rest, tail))
  }

  lemma {:induction false} JoinedProperty(w: Weave, tail: Weave, es: seq<Entry>)
    requires w.KnownIn(es) && tail.KnownIn(es)
    ensures Joined(w, tail).KnownIn(es)
    ensures Joined(w, tail).Redacted(es) == w.Redacted(es) + tail.Redacted(es)
    ensures Joined(w, tail).Original(es) == w.Original(es) + tail.Original(es)
    ensures w.Clean(es) && tail.Clean(es) && tail.gap == [] ==> Joined(w, tail).Clean(es)
    decreases w
  {
    match w
    case End(gap) =>
      WidenedProperty(gap, tail, es);
    case Then(gap, id, rest) =>
      JoinedProperty(rest, tail, es);
      Assoc(gap + es[id - 1].placeholder, rest.Redacted(es), tail.Redacted(es));
      Assoc(gap + es[id - 1].secret, rest.Original(es), tail.Original(es));
  }

  lemma WidenedProperty(gap: bytes, w: Weave, es: seq<Entry>)
    requires w.KnownIn(es)
    ensures Widened(gap, w).KnownIn(es)
    ensures Widened(gap, w).Redacted(es) == gap + w.Redacted(es)
    ensures Widened(gap, w).Original(es) == gap + w.Original(es)
    ensures PlaceholderFree(gap, es) && w.Clean(es) && w.gap == [] ==> Widened(gap, w).Clean(es)
  {
    assert gap + [] == gap;
    match w
    case End(g) =>
    case Then(g, id, rest) =>
      Assoc(gap, g, es[id - 1].placeholder);
      Assoc(gap, g + es[id - 1].placeholder, rest.Redacted(es));
      Assoc(gap, g, es[id - 1].secret);
      Assoc(gap, g + es[id - 1].secret, rest.Original(es));
  }

  function PartsWeave(p: Setup, es: seq<Entry>, parts: seq<Part>): Weave
    requires p.chunk > 0 && WellFormedSpans(p, es, parts) && HoldsTagged(es, parts)
    decreases |parts|
  {
    if parts == [] then End([])
    else
      var tail := PartsWeave(p, es, parts[1..]);
      match parts[0]
      case Secret(secret) => Then([], IdOf(es, secret), tail)
      case Plain(text) => Joined(SpanWeave(text, 0, TextSpans(p, es, text)), tail)
  }

  predicate WellFormedSpans(p: Setup, es: seq<Entry>, parts: seq<Part>)
    requires p.chunk > 0
  {
    forall i :: 0 <= i < |parts| && parts[i].Plain? ==> Fits(parts[i].text, 0, TextSpans(p, es, parts[i].text))
  }

  lemma AllFit(p: Setup, es: seq<Entry>, parts: seq<Part>)
    requires p.chunk > 0 && WellFormed(p.keys, es)
    ensures WellFormedSpans(p, es, parts)
  {
    forall i | 0 <= i < |parts| && parts[i].Plain?
      ensures Fits(parts[i].text, 0, TextSpans(p, es, parts[i].text))
    {
      TextSpansTrue(p, es, parts[i].text);
    }
  }

  ghost predicate PlainsFree(es: seq<Entry>, parts: seq<Part>) {
    forall i :: 0 <= i < |parts| && parts[i].Plain? ==> PlaceholderFree(parts[i].text, es)
  }

  lemma EmptyIsFree(keys: SessionKeys, es: seq<Entry>)
    requires WellFormed(keys, es)
    ensures PlaceholderFree([], es)
  {
    assert forall k :: 0 <= k < |es| ==> EntryOk(keys, es[k], k + 1) && es[k].placeholder != [];
  }

  lemma PlainWeave(p: Setup, es: seq<Entry>, text: bytes)
    requires p.chunk > 0 && WellFormed(p.keys, es) && PlaceholderFree(text, es)
    ensures Fits(text, 0, TextSpans(p, es, text))
    ensures var w := SpanWeave(text, 0, TextSpans(p, es, text));
            && w.KnownIn(es) && w.Clean(es)
            && w.Redacted(es) == Uncached(p, es, text).text && w.Original(es) == text
  {
    hide TextSpans, Uncached;
    TextSpansTrue(p, es, text);
    var spans := TextSpans(p, es, text);
    forall i | 0 <= i < |spans|
      ensures es[spans[i].id - 1].placeholder == spans[i].placeholder
      ensures es[spans[i].id - 1].secret == text[spans[i].start..spans[i].End()]
    {
      TrueSpan(p.keys, text, es, spans[i]);
    }
    SpanWeaveProperty(text, 0, spans, es);
    SpanWeaveClean(text, 0, spans, es);
    assert text[0..] == text;
  }

  /** The weave of the parts goes out as the spliced text and stands for the untagged one. */
  ghost predicate Wove(p: Setup, es: seq<Entry>, parts: seq<Part>)
    requires p.chunk > 0 && WellFormed(p.keys, es) && HoldsTagged(es, parts) && WellFormedSpans(p, es, parts)
  {
    var w := PartsWeave(p, es, parts);
    && w.KnownIn(es) && w.Clean(es)
    && (parts == [] || parts[0].Secret? ==> w.gap == [])
    && w.Redacted(es) == Spliced(p, es, parts)
    && w.Original(es) == Untagged(parts)
  }

  lemma SecretWove(p: Setup, es: seq<Entry>, parts: seq<Part>)
    requires p.chunk > 0 && WellFormed(p.keys, es) && HoldsTagged(es, parts) && WellFormedSpans(p, es, parts)
    requires parts != [] && parts[0].Secret? && Wove(p, es, parts[1..])
    ensures Wove(p, es, parts)
  {
    hide TextSpans, Uncached, Existing, Shaped;
    EmptyIsFree(p.keys, es);
    var id := IdOf(es, parts[0].text);
    assert EntryOk(p.keys, es[id - 1], id) && es[id - 1].secret == parts[0].text;
    hide EntryOk, WellFormed, PlaceholderFree;
    SecretInFront(es, id, PartsWeave(p, es, parts[1..]));
  }

  lemma SecretInFront(es: seq<Entry>, id: nat, tail: Weave)
    requires 1 <= id <= |es| && tail.KnownIn(es)
    ensures var w := Then([], id, tail);
            && w.KnownIn(es) && (PlaceholderFree([], es) && tail.Clean(es) ==> w.Clean(es))
            && w.Redacted(es) == es[id - 1].placeholder + tail.Redacted(es)
            && w.Original(es) == es[id - 1].secret + tail.Original(es)
  {
    assert [] + es[id - 1].placeholder == es[id - 1].placeholder && [] + es[id - 1].secret == es[id - 1].secret;
  }

  lemma PlainWove(p: Setup, es: seq<Entry>, parts: seq<Part>)
    requires p.chunk > 0 && WellFormed(p.keys, es) && HoldsTagged(es, parts) && WellFormedSpans(p, es, parts)
    requires parts != [] && parts[0].Plain? && PlaceholderFree(parts[0].text, es) && Wove(p, es, parts[1..])
    requires |parts| > 1 ==> parts[1].Secret?
    ensures Wove(p, es, parts)
  {
    hide TextSpans, Uncached, PlaceholderFree;
    var text := parts[0].text;
    PlainWeave(p, es, text);
    JoinedProperty(SpanWeave(text, 0, TextSpans(p, es, text)), PartsWeave(p, es, parts[1..]), es);
  }

  lemma {:induction false} PartsWeaveProperty(p: Setup, es: seq<Entry>, parts: seq<Part>)
    requires p.chunk > 0 && WellFormed(p.keys, es) && HoldsTagged(es, parts)
    requires InGrammar(parts) && PlainsFree(es, parts)
    ensures WellFormedSpans(p, es, parts) && Wove(p, es, parts)
    decreases |parts|
  {
    hide TextSpans, TagFree, PlaceholderFree;
    AllFit(p, es, parts);
    if parts == [] {
      EmptyIsFree(p.keys, es);
    } else {
      hide Wove;
      PartsWeaveProperty(p, es, parts[1..]);
      match parts[0] {
        case Secret(_) =>
          SecretWove(p, es, parts);
        case Plain(_) =>
          assert |parts| > 1 ==> parts[0].Secret? || parts[1].Secret?;
          PlainWove(p, es, parts);
      }
    }
  }

  /**
   * What goes out, fed to the streaming restorer in any chunks, comes back as the text with only its
   * tags removed, also where a tagged secret stands in a plain part before or after its tag.
   */
  lemma DirectivesRestore(p: Setup, es: seq<Entry>, text: bytes, m: PlaceholderMatcher, chunks: seq<bytes>)
    requires p.chunk > 0 && WellFormed(p.keys, es) && Parse(text).Ok?
    requires var all := Registered(p.keys, es, Parse(text).value);
             MatcherFor(m, all) && DistinctPlaceholders(all) && PlainsFree(all, Parse(text).value)
    ensures var parts := Parse(text).value;
            var all := Registered(p.keys, es, parts);
            && Tagged(parts) == text
            && WellFormed(p.keys, all) && HoldsTagged(all, parts)
            && (Flatten(chunks) == Spliced(p, all, parts)
                ==> && Known(Restore.Streamed([], chunks, m), all)
                    && Render(Restore.Streamed([], chunks, m), all) == Untagged(parts))
  {
    hide Parse;
    var parts := Parse(text).value;
    var all := Registered(p.keys, es, parts);
    ParsedIsTagged(text);
    RegisteredProperty(p.keys, es, parts);
    PartsWeaveProperty(p, all, parts);
    WeaveRestores(p.keys, all, m, PartsWeave(p, all, parts));
    if Flatten(chunks) == Spliced(p, all, parts) {
      MatcherForKnown(m, p.keys, all);
      Restore.StreamedRestores(chunks, m, all);
    }
  }

  // ----- the program's own steps

  /** An entry found stays the one found when entries are added. */
  lemma {:induction false} ExistingStable(es: seq<Entry>, more: seq<Entry>, digest: KeyedDigest, len: nat)
    requires es <= more && Existing(es, digest, len).Some?
    ensures Existing(more, digest, len) == Existing(es, digest, len)
    decreases |es|
  {
    if !(es[0].digest == digest && es[0].len == len) {
      ExistingStable(es[1..], more[1..], digest, len);
    }
  }

  /** A part as it is passed on, once its secret is held. */
  predicate Marked(es: seq<Entry>, part: Part, out: DirectivePart) {
    match part
    case Plain(text) => out == PlainPart(text)
    case Secret(secret) =>
      && Existing(es, KeyedDigest(secret), |secret|).Some?
      && out == SecretPart(es[IdOf(es, secret) - 1].placeholder, IdOf(es, secret))
  }

  predicate AllMarked(es: seq<Entry>, parts: seq<Part>, outs: seq<DirectivePart>) {
    |outs| == |parts| && forall i :: 0 <= i < |outs| ==> Marked(es, parts[i], outs[i])
  }

  lemma MarkedStable(es: seq<Entry>, more: seq<Entry>, parts: seq<Part>, outs: seq<DirectivePart>)
    requires es <= more && AllMarked(es, parts, outs)
    ensures AllMarked(more, parts, outs)
  {
    forall i | 0 <= i < |outs|
      ensures Marked(more, parts[i], outs[i])
    {
      if parts[i].Secret? {
        ExistingStable(es, more, KeyedDigest(parts[i].text), |parts[i].text|);
      }
    }
  }

  /** One more part, passed on as it is to be. */
  lemma MarkedSnoc(es: seq<Entry>, parts: seq<Part>, outs: seq<DirectivePart>, part: seq<Part>, out: seq<DirectivePart>)
    requires |part| == |out| <= 1 && (part != [] ==> Marked(es, part[0], out[0]))
    ensures AllMarked(es, [], [])
    ensures AllMarked(es, parts, outs) ==> AllMarked(es, parts + part, outs + out)
  {
    hide Marked;
  }

  /** A text with no tag in it has no secret. */
  lemma NoTagNoSecret(text: bytes)
    requires Find(text, OPEN_TAG).None? && Find(text, CLOSE_TAG).None?
    ensures Parse(text).Ok? && !HasSecret(Parse(text).value)
  {
  }

  lemma {:induction false} NothingRegistered(keys: SessionKeys, es: seq<Entry>, parts: seq<Part>)
    requires !HasSecret(parts)
    ensures Registered(keys, es, parts) == es
    decreases |parts|
  {
    if parts != [] {
      assert !parts[0].Secret?;
      assert forall i :: 0 <= i < |parts| - 1 ==> parts[1..][i] == parts[i + 1];
      NothingRegistered(keys, es, parts[1..]);
    }
  }

  /** The entries after the directives of a text were parsed and registered; a syntax error adds none. */
  function EntriesAfter(keys: SessionKeys, es: seq<Entry>, text: bytes): seq<Entry> {
    if Parse(text).Ok? then Registered(keys, es, Parse(text).value) else es
  }

  /** `parse_user_secret_directives`. */
  method ParseUserSecretDirectives(input: bytes, registry: SecretRegistry)
    returns (r: Result<Option<seq<DirectivePart>>, TextError>)
    requires registry.Valid()
    modifies registry
    ensures registry.Valid() && registry.entries == EntriesAfter(registry.keys, old(registry.entries), input)
    ensures old(registry.entries) <= registry.entries
    ensures Parse(input).Err? ==> r == Err(Syntax(Parse(input).error))
    ensures Parse(input).Ok? && !HasSecret(Parse(input).value) ==> r == Ok(None)
    ensures Parse(input).Ok? && HasSecret(Parse(input).value)
            ==> r.Ok? && r.value.Some? && AllMarked(registry.entries, Parse(input).value, r.value.value)
  {
    if Find(input, OPEN_TAG).None? && Find(input, CLOSE_TAG).None? {
      NoTagNoSecret(input);
      NothingRegistered(registry.keys, registry.entries, Parse(input).value);
      return Ok(None);
    }
    hide Parse, Find, Tagged, TagFree;
    var parsed := ParseRanges(input);
    if parsed.Err? {
      return Err(Syntax(parsed.error));
    }
    var parts := PartsOf(input, parsed.value);
    if !HasSecret(parts) {
      NothingRegistered(registry.keys, registry.entries, parts);
      return Ok(None);
    }
    ParsedIsTagged(input);
    var outs := RegisterParts(parts, registry);
    r := Ok(Some(outs));
  }

  /** The loop over the parts. No secret is empty, so no ingest is refused. */
  method RegisterParts(parts: seq<Part>, registry: SecretRegistry) returns (outs: seq<DirectivePart>)
    requires registry.Valid() && forall i :: 0 <= i < |parts| ==> parts[i].text != []
    modifies registry
    ensures registry.Valid() && registry.entries == Registered(registry.keys, old(registry.entries), parts)
    ensures old(registry.entries) <= registry.entries
    ensures AllMarked(registry.entries, parts, outs)
  {
    hide AllMarked, Marked, IngestedOrSame, WellFormed;
    MarkedSnoc(registry.entries, [], [], [], []);
    outs := [];
    for i := 0 to |parts|
      invariant registry.Valid() && old(registry.entries) <= registry.entries
      invariant Registered(registry.keys, registry.entries, parts[i..])
             == Registered(registry.keys, old(registry.entries), parts)
      invariant AllMarked(registry.entries, parts[..i], outs)
    {
      ghost var before := registry.entries;
      assert parts[i..][0] == parts[i] && parts[i..][1..] == parts[i + 1..] && parts[..i + 1] == parts[..i] + [parts[i]];
      var out := RegisterPart(parts[i], registry);
      MarkedStable(before, registry.entries, parts[..i], outs);
      MarkedSnoc(registry.entries, parts[..i], outs, [parts[i]], [out]);
      outs := outs + [out];
    }
    assert parts[..|parts|] == parts;
  }

  method RegisterPart(part: Part, registry: SecretRegistry) returns (out: DirectivePart)
    requires registry.Valid() && part.text != []
    modifies registry
    ensures registry.Valid() && old(registry.entries) <= registry.entries
    ensures registry.entries
         == if part.Plain? then old(registry.entries)
            else IngestedOrSame(registry.keys, old(registry.entries), USER, part.text)
    ensures Marked(registry.entries, part, out)
  {
    hide Existing, EntryOk;
    match part {
      case Plain(text) =>
        out := PlainPart(text);
      case Secret(secret) =>
        IngestedProperty(registry.keys, registry.entries, USER, secret);
        var id := registry.Ingest(USER, secret);
        FoundById(registry.keys, registry.entries, id.value);
        var entry := EntryFor(registry.entries, id.value);
        out := SecretPart(entry.value.placeholder, id.value);
    }
  }

  /** A held secret is found under its id. */
  lemma FoundById(keys: SessionKeys, es: seq<Entry>, id: nat)
    requires WellFormed(keys, es) && 1 <= id <= |es|
    ensures var secret := es[id - 1].secret;
            Existing(es, KeyedDigest(secret), |secret|).Some? && IdOf(es, secret) == id
    ensures EntryFor(es, id) == Some(es[id - 1])
  {
    hide Existing, Shaped;
    assert EntryOk(keys, es[id - 1], id);
    var found := Existing(es, es[id - 1].digest, es[id - 1].len);
    assert EntryOk(keys, es[found.value], found.value + 1);
  }

  /** No object's entry stands under the bytes of a plain part. */
  ghost predicate Unshadowed(c: CacheState, parts: seq<Part>) {
    forall k, i :: k in c.entries && c.entries[k].Sanitized? && 0 <= i < |parts| && parts[i].Plain? ==> (
      parts[i].text != k.text)
  }

  /** What the parts give: the cache after them, the text, and the ids of the secrets redacted in plain parts. */
  datatype Answered = Answered(cache: CacheState, text: bytes, ids: seq<nat>)

  ghost function PartAnswered(p: Setup, es: seq<Entry>, c: CacheState, part: Part): Answered
    requires Good(p, Session(es, c)) && HoldsTagged(es, [part])
  {
    match part
    case Plain(text) =>
      var answer := TextAnswer(p.keys, c, p.capacity, p.chunk, es, text);
      Answered(TextCache(c, p.capacity, p.chunk, es, text), answer.text, answer.ids)
    case Secret(secret) =>
      assert [part][0] == part;
      Answered(c, es[IdOf(es, secret) - 1].placeholder, [])
  }

  lemma PartKeeps(p: Setup, es: seq<Entry>, c: CacheState, part: Part)
    requires Good(p, Session(es, c)) && HoldsTagged(es, [part])
    ensures Good(p, Session(es, PartAnswered(p, es, c, part).cache))
  {
    hide TextAnswer;
    if part.Plain? {
      StepKeeps(p, Session(es, c), Text(part.text));
    }
  }

  /** Part after part, each with the cache that the one before it left. */
  ghost function PartsAnswered(p: Setup, es: seq<Entry>, c: CacheState, parts: seq<Part>): Answered
    requires Good(p, Session(es, c)) && HoldsTagged(es, parts)
    decreases |parts|
  {
    if parts == [] then Answered(c, [], [])
    else
      PartKeeps(p, es, c, parts[0]);
      Before(PartAnswered(p, es, c, parts[0]), PartsAnswered(p, es, PartAnswered(p, es, c, parts[0]).cache, parts[1..]))
  }

  function Before(one: Answered, rest: Answered): Answered {
    rest.(text := one.text + rest.text, ids := one.ids + rest.ids)
  }

  lemma BeforeTwice(a: Answered, b: Answered, c: Answered)
    ensures Before(a, Before(b, c)) == Before(Before(a, b), c)
  {
    Assoc(a.text, b.text, c.text);
    Assoc(a.ids, b.ids, c.ids);
  }

  /** Where no object's entry stands in the way that is the spliced text, with the ids of its plain parts. */
  lemma {:induction false} AnsweredIsSpliced(p: Setup, es: seq<Entry>, c: CacheState, parts: seq<Part>)
    requires Good(p, Session(es, c)) && HoldsTagged(es, parts) && Unshadowed(c, parts)
    ensures PartsAnswered(p, es, c, parts).text == Spliced(p, es, parts)
    ensures PartsAnswered(p, es, c, parts).ids == SplicedIds(p, es, parts)
    decreases |parts|
  {
    if parts != [] {
      hide Uncached, TextAnswer, TextCache, WellKept, Agrees, WellFormed, Unshadowed;
      PartKeeps(p, es, c, parts[0]);
      if parts[0].Plain? {
        PlainAnswered(p, es, c, parts, 0);
      }
      FewerUnshadowed(PartAnswered(p, es, c, parts[0]).cache, parts);
      AnsweredIsSpliced(p, es, PartAnswered(p, es, c, parts[0]).cache, parts[1..]);
    }
  }

  lemma FewerUnshadowed(c: CacheState, parts: seq<Part>)
    requires parts != [] && Unshadowed(c, parts)
    ensures Unshadowed(c, parts[1..])
  {
    assert forall i :: 0 <= i < |parts[1..]| ==> parts[1..][i] == parts[i + 1];
  }

  /** The ids of the tagged secrets, in order. */
  function TaggedIds(es: seq<Entry>, parts: seq<Part>): seq<nat>
    requires HoldsTagged(es, parts)
    decreases |parts|
  {
    if parts == [] then []
    else (if parts[0].Secret? then [IdOf(es, parts[0].text)] else []) + TaggedIds(es, parts[1..])
  }

  datatype Splicing = Splicing(text: bytes, secretIds: seq<nat>, redactedIds: seq<nat>)

  /** `replace_user_secret_directives_with`, with the cache for plain parts. */
  method ReplaceUserSecretDirectives(decoded: bytes, registry: SecretRegistry, cache: RedactionCache)
    returns (r: Result<Option<Splicing>, TextError>)
    requires registry.Valid() && cache.Valid() && Agrees(cache.State(), registry.entries)
    modifies registry, cache
    ensures registry.Valid() && registry.entries == EntriesAfter(registry.keys, old(registry.entries), decoded)
    ensures cache.Valid() && Agrees(cache.State(), registry.entries) && Agrees(old(cache.State()), registry.entries)
    ensures Parse(decoded).Err? ==> r == Err(Syntax(Parse(decoded).error)) && cache.State() == old(cache.State())
    ensures Parse(decoded).Ok? && !HasSecret(Parse(decoded).value) ==> r == Ok(None) && cache.State() == old(cache.State())
    ensures Parse(decoded).Ok? && HasSecret(Parse(decoded).value) ==> (
              var parts := Parse(decoded).value;
              && HoldsTagged(registry.entries, parts)
              && r.Ok? && r.value.Some?
              && var answered := PartsAnswered(SetupOf(registry, cache), registry.entries, old(cache.State()), parts);
                 && cache.State() == answered.cache
                 && r.value.value
                    == Splicing(answered.text, TaggedIds(registry.entries, parts), answered.ids))
  {
    hide Parse, Registered, Agrees;
    ghost var before := registry.entries;
    var replacement := ParseUserSecretDirectives(decoded, registry);
    AgreesExtends(cache.State(), before, registry.entries);
    if replacement.Err? {
      return Err(replacement.error);
    }
    if replacement.value.None? {
      return Ok(None);
    }
    var out := SplicePartsOut(Parse(decoded).value, replacement.value.value, registry, cache);
    r := Ok(Some(out));
  }

  ghost function SetupOf(registry: SecretRegistry, cache: RedactionCache): Setup {
    Setup(registry.keys, cache.maxEntries, cache.chunkSize)
  }

  lemma AgreesExtends(c: CacheState, es: seq<Entry>, more: seq<Entry>)
    requires Agrees(c, es) && es <= more
    ensures Agrees(c, more)
  {
    assert more[..c.version] == es[..c.version];
  }

  lemma MarkedHolds(es: seq<Entry>, parts: seq<Part>, outs: seq<DirectivePart>)
    requires AllMarked(es, parts, outs)
    ensures HoldsTagged(es, parts)
  {
    assert forall i :: 0 <= i < |parts| ==> Marked(es, parts[i], outs[i]);
  }

  /** The loop that builds the text that goes out. */
  method SplicePartsOut(ghost parts: seq<Part>, outs: seq<DirectivePart>, registry: SecretRegistry, cache: RedactionCache)
    returns (r: Splicing)
    requires registry.Valid() && cache.Valid() && Agrees(cache.State(), registry.entries)
    requires AllMarked(registry.entries, parts, outs)
    modifies cache
    ensures cache.Valid() && Agrees(cache.State(), registry.entries)
    ensures HoldsTagged(registry.entries, parts)
    ensures var answered := PartsAnswered(SetupOf(registry, cache), registry.entries, old(cache.State()), parts);
            && cache.State() == answered.cache
            && r == Splicing(answered.text, TaggedIds(registry.entries, parts), answered.ids)
  {
    MarkedHolds(registry.entries, parts, outs);
    hide Agrees, WellFormed, WellKept, TextAnswer, TextCache, PartAnswered, Before, AllMarked, HoldsTagged, Marked;
    ghost var es := registry.entries;
    ghost var all := PartsAnswered(SetupOf(registry, cache), es, cache.State(), parts);
    ghost var sofar := Answered(cache.State(), [], []);
    var text, secretIds, redactedIds := [], [], [];
    assert parts[0..] == parts;
    AllFrom(es, parts, outs, 0);
    BeforeNothing(sofar.cache, all);
    for i := 0 to |outs|
      invariant cache.Valid() && Agrees(cache.State(), es) && HoldsTagged(es, parts[i..])
      invariant sofar == Answered(cache.State(), text, redactedIds)
      invariant all == Before(sofar, PartsAnswered(SetupOf(registry, cache), es, cache.State(), parts[i..]))
      invariant TaggedIds(es, parts) == secretIds + TaggedIds(es, parts[i..])
    {
      AllFrom(es, parts, outs, i);
      AllFrom(es, parts, outs, i + 1);
      PartsStepped(SetupOf(registry, cache), es, cache.State(), parts, i);
      ghost var one := PartAnswered(SetupOf(registry, cache), es, cache.State(), parts[i]);
      var done := AnswerPart(parts[i], outs[i], registry, cache);
      ghost var rest := PartsAnswered(SetupOf(registry, cache), es, cache.State(), parts[i + 1..]);
      BeforeTwice(sofar, one, rest);
      BeforeParts(sofar, one);
      Assoc(secretIds, done.secretIds, TaggedIds(es, parts[i + 1..]));
      text, secretIds, redactedIds := text + done.text, secretIds + done.secretIds, redactedIds + done.redactedIds;
      sofar := Before(sofar, one);
    }
    EndOfParts(SetupOf(registry, cache), es, cache.State(), parts[|outs|..], sofar);
    assert secretIds + [] == secretIds;
    r := Splicing(text, secretIds, redactedIds);
  }

  /** One part of the loop. */
  method AnswerPart(ghost part: Part, out: DirectivePart, registry: SecretRegistry, cache: RedactionCache)
    returns (r: Splicing)
    requires registry.Valid() && cache.Valid() && Agrees(cache.State(), registry.entries)
    requires Marked(registry.entries, part, out) && HoldsTagged(registry.entries, [part])
    modifies cache
    ensures cache.Valid() && Agrees(cache.State(), registry.entries)
    ensures var one := PartAnswered(SetupOf(registry, cache), registry.entries, old(cache.State()), part);
            && cache.State() == one.cache
            && r == Splicing(one.text, if part.Secret? then [IdOf(registry.entries, part.text)] else [], one.ids)
  {
    hide Agrees, TextAnswer, TextCache, Existing, WellKept;
    match out {
      case PlainPart(text) =>
        var sanitized := cache.SanitizeStringDetailed(text, registry);
        r := Splicing(sanitized.text, [], sanitized.ids);
      case SecretPart(placeholder, id) =>
        r := Splicing(placeholder, [id], []);
    }
  }

  lemma AllFrom(es: seq<Entry>, parts: seq<Part>, outs: seq<DirectivePart>, i: nat)
    requires AllMarked(es, parts, outs) && i <= |parts|
    ensures |outs| == |parts| && HoldsTagged(es, parts[i..])
    ensures i < |parts| ==> Marked(es, parts[i], outs[i]) && HoldsTagged(es, [parts[i]])
  {
    MarkedHolds(es, parts, outs);
    assert forall j :: i <= j < |parts| ==> parts[i..][j - i] == parts[j];
    assert forall j :: 0 <= j < |parts[i..]| ==> parts[i..][j] == parts[i + j];
  }

  lemma BeforeNothing(c: CacheState, a: Answered)
    ensures Before(Answered(c, [], []), a) == a
  {
    assert [] + a.text == a.text && [] + a.ids == a.ids;
  }

  lemma BeforeParts(a: Answered, b: Answered)
    ensures Before(a, b) == Answered(b.cache, a.text + b.text, a.ids + b.ids)
  {
  }

  lemma PartsStepped(p: Setup, es: seq<Entry>, c: CacheState, parts: seq<Part>, i: nat)
    requires Good(p, Session(es, c)) && i < |parts| && HoldsTagged(es, parts[i..])
    ensures HoldsTagged(es, [parts[i]]) && HoldsTagged(es, parts[i + 1..])
    ensures var one := PartAnswered(p, es, c, parts[i]);
            && Good(p, Session(es, one.cache))
            && PartsAnswered(p, es, c, parts[i..]) == Before(one, PartsAnswered(p, es, one.cache, parts[i + 1..]))
    ensures TaggedIds(es, parts[i..])
         == (if parts[i].Secret? then [IdOf(es, parts[i].text)] else []) + TaggedIds(es, parts[i + 1..])
  {
    hide Before, PartAnswered, WellKept, Agrees, WellFormed;
    assert parts[i..][0] == parts[i] && parts[i..][1..] == parts[i + 1..];
    PartKeeps(p, es, c, parts[i]);
  }

  lemma EndOfParts(p: Setup, es: seq<Entry>, c: CacheState, parts: seq<Part>, a: Answered)
    requires Good(p, Session(es, c)) && HoldsTagged(es, parts) && parts == [] && a.cache == c
    ensures Before(a, PartsAnswered(p, es, c, parts)) == a && TaggedIds(es, parts) == []
  {
    assert a.text + [] == a.text && a.ids + [] == a.ids;
  }

  /** A plain part is answered as without a cache, and no string adds an object's entry. */
  lemma PlainAnswered(p: Setup, es: seq<Entry>, c: CacheState, parts: seq<Part>, i: nat)
    requires Good(p, Session(es, c)) && i < |parts| && parts[i].Plain? && Unshadowed(c, parts)
    ensures TextAnswer(p.keys, c, p.capacity, p.chunk, es, parts[i].text) == Uncached(p, es, parts[i].text)
    ensures Unshadowed(TextCache(c, p.capacity, p.chunk, es, parts[i].text), parts)
  {
    hide Uncached, TextAnswer, TextCache, WellKept, Agrees, WellFormed;
    var text, s := parts[i].text, Session(es, c);
    AnswerIsFresh(p, s, text);
    var c' := TextCache(c, p.capacity, p.chunk, es, text);
    forall k, j | k in c'.entries && c'.entries[k].Sanitized? && 0 <= j < |parts| && parts[j].Plain?
      ensures parts[j].text != k.text
    {
      StepKeepsObject(p, s, Text(text), k);
    }
  }
}
