/**
 * The search for placeholders (src/restore/matcher.rs) and what one pass of restoration makes of
 * a text: a list of tokens, each a raw byte or a secret put back.
 */
module Matcher {
  import opened Bytes
  import opened Placeholder
  import opened Registry

  datatype PlaceholderMatcher = PlaceholderMatcher(patterns: seq<bytes>, ids: seq<nat>)

  datatype PlaceholderMatch = PlaceholderMatch(start: nat, end: nat, id: nat)

  datatype Token = Raw(b: byte) | Secret(id: nat)

  predicate Usable(m: PlaceholderMatcher) {
    |m.patterns| == |m.ids| && forall k :: 0 <= k < |m.patterns| ==> m.patterns[k] != []
  }

  /** Every pattern has the brace shape. */
  predicate AllShaped(m: PlaceholderMatcher) {
    forall k :: 0 <= k < |m.patterns| ==> Shaped(m.patterns[k])
  }

  /** The matcher searches exactly for the placeholders of `es`, each under its indexed id. */
  ghost predicate MatcherFor(m: PlaceholderMatcher, es: seq<Entry>) {
    && Usable(m)
    && AllShaped(m)
    && (forall k :: 0 <= k < |m.patterns|
                    ==> m.patterns[k] in PlaceholderMap(es) && m.ids[k] == PlaceholderMap(es)[m.patterns[k]])
    && (forall p :: p in PlaceholderMap(es) ==> p in m.patterns)
  }

  method NewMatcher(registry: SecretRegistry) returns (m: PlaceholderMatcher)
    requires registry.Valid()
    ensures MatcherFor(m, registry.entries)
  {
    var pairs := registry.Placeholders();
    var patterns, ids := [], [];
    for i := 0 to |pairs|
      invariant |patterns| == |ids| == i
      invariant forall k :: 0 <= k < i ==> pairs[k] == (patterns[k], ids[k])
    {
      patterns, ids := patterns + [pairs[i].0], ids + [pairs[i].1];
    }
    m := PlaceholderMatcher(patterns, ids);
    forall k | 0 <= k < |patterns|
      ensures Shaped(patterns[k])
      ensures patterns[k] in registry.byPlaceholder && ids[k] == registry.byPlaceholder[patterns[k]]
    {
      assert (patterns[k], ids[k]) in pairs;
      PlaceholderTraced(registry.entries, patterns[k]);
      assert EntryOk(registry.keys, registry.entries[ids[k] - 1], ids[k]);
    }
    forall p | p in PlaceholderMap(registry.entries)
      ensures p in patterns
    {
      assert (p, registry.byPlaceholder[p]) in pairs;
      var k :| 0 <= k < |pairs| && pairs[k] == (p, registry.byPlaceholder[p]);
      assert patterns[k] == p;
    }
  }

  function MaxPatternLen(patterns: seq<bytes>): (n: nat)
    ensures forall k :: 0 <= k < |patterns| ==> |patterns[k]| <= n
    ensures patterns == [] ==> n == 0
    ensures patterns != [] ==> exists k :: 0 <= k < |patterns| && |patterns[k]| == n
  {
    if patterns == [] then 0
    else
      var rest := MaxPatternLen(patterns[1..]);
      if |patterns[0]| >= rest then |patterns[0]|
      else
        var k :| 0 <= k < |patterns[1..]| && |patterns[1..][k]| == rest;
        assert |patterns[k + 1]| == rest;
        rest
  }

  /** The first pattern that stands at `at`. */
  function PatternAt(text: bytes, at: nat, patterns: seq<bytes>): (r: Option<nat>)
    ensures r.Some? ==> r.value < |patterns| && at + |patterns[r.value]| <= |text|
  {
    if patterns == [] then None
    else if OccursAt(text, at, patterns[0]) then Some(0)
    else match PatternAt(text, at, patterns[1..])
      case None => None
      case Some(k) => Some(k + 1)
  }

  lemma {:induction false} PatternAtFirst(text: bytes, at: nat, patterns: seq<bytes>)
    ensures match PatternAt(text, at, patterns)
            case Some(k) => OccursAt(text, at, patterns[k]) && forall j :: 0 <= j < k ==> !OccursAt(text, at, patterns[j])
            case None => forall j :: 0 <= j < |patterns| ==> !OccursAt(text, at, patterns[j])
  {
    if patterns != [] {
      PatternAtFirst(text, at, patterns[1..]);
      assert forall j :: 0 < j < |patterns| ==> patterns[j] == patterns[1..][j - 1];
    }
  }

  /** `find_in`: a left-to-right search in which each match resumes after the one before it. */
  function FindIn(text: bytes, at: nat, m: PlaceholderMatcher): (r: seq<PlaceholderMatch>)
    requires Usable(m) && at <= |text|
    ensures r != [] ==> at <= r[0].start < r[0].end <= |text|
    decreases |text| - at
  {
    if at == |text| then []
    else match PatternAt(text, at, m.patterns)
      case None => FindIn(text, at + 1, m)
      case Some(k) =>
        var end := at + |m.patterns[k]|;
        [PlaceholderMatch(at, end, m.ids[k])] + FindIn(text, end, m)
  }

  /** A match is the first pattern that stands at its start, under that pattern's id. */
  predicate TrueMatch(text: bytes, m: PlaceholderMatcher, mat: PlaceholderMatch)
    requires Usable(m)
  {
    && mat.end <= |text|
    && PatternAt(text, mat.start, m.patterns).Some?
    && var k := PatternAt(text, mat.start, m.patterns).value;
       mat.id == m.ids[k] && mat.end == mat.start + |m.patterns[k]|
  }

  /** True matches from left to right and apart from each other, none before `at`. */
  predicate MatchesFrom(text: bytes, m: PlaceholderMatcher, at: nat, r: seq<PlaceholderMatch>)
    requires Usable(m)
  {
    && (forall i :: 0 <= i < |r| ==> at <= r[i].start && TrueMatch(text, m, r[i]))
    && (forall i, j :: 0 <= i < j < |r| ==> r[i].end <= r[j].start)
  }

  lemma OneMoreMatch(text: bytes, m: PlaceholderMatcher, first: PlaceholderMatch, rest: seq<PlaceholderMatch>)
    requires Usable(m) && TrueMatch(text, m, first) && MatchesFrom(text, m, first.end, rest)
    ensures MatchesFrom(text, m, first.start, [first] + rest)
  {
    assert first.start <= first.end;
    hide TrueMatch;
  }

  /** The search finds true matches, each the first pattern that stands at its start, under its id. */
  lemma {:induction false} FindInMatches(text: bytes, at: nat, m: PlaceholderMatcher)
    requires Usable(m) && at <= |text|
    ensures MatchesFrom(text, m, at, FindIn(text, at, m))
    decreases |text| - at
  {
    if at < |text| {
      hide PatternAt;
      match PatternAt(text, at, m.patterns) {
        case None =>
          FindInMatches(text, at + 1, m);
        case Some(k) =>
          var end := at + |m.patterns[k]|;
          FindInMatches(text, end, m);
          OneMoreMatch(text, m, PlaceholderMatch(at, end, m.ids[k]), FindIn(text, end, m));
      }
    }
  }

  /** `pos` lies in one of the matches. */
  predicate Covers(r: seq<PlaceholderMatch>, pos: nat) {
    exists i :: 0 <= i < |r| && r[i].start <= pos < r[i].end
  }

  /** No pattern stands anywhere outside the matches. */
  lemma {:induction false} FindInMissesNone(text: bytes, at: nat, m: PlaceholderMatcher, pos: nat)
    requires Usable(m) && at <= pos < |text| && PatternAt(text, pos, m.patterns).Some?
    ensures Covers(FindIn(text, at, m), pos)
    decreases |text| - at
  {
    hide PatternAt;
    var r := FindIn(text, at, m);
    match PatternAt(text, at, m.patterns) {
      case None => FindInMissesNone(text, at + 1, m, pos);
      case Some(k) =>
        var end := at + |m.patterns[k]|;
        assert r[0] == PlaceholderMatch(at, end, m.ids[k]);
        if end <= pos {
          FindInMissesNone(text, end, m, pos);
          var rest := FindIn(text, end, m);
          var i :| 0 <= i < |rest| && rest[i].start <= pos < rest[i].end;
          assert r[i + 1] == rest[i];
        }
    }
  }

  /** The token that a left-to-right pass makes at `at`, and where the pass goes on. */
  function TokenAt(text: bytes, at: nat, m: PlaceholderMatcher): Token
    requires Usable(m) && at < |text|
  {
    match PatternAt(text, at, m.patterns)
    case None => Raw(text[at])
    case Some(k) => Secret(m.ids[k])
  }

  function NextAt(text: bytes, at: nat, m: PlaceholderMatcher): (next: nat)
    requires Usable(m) && at < |text|
    ensures at < next <= |text|
  {
    match PatternAt(text, at, m.patterns)
    case None => at + 1
    case Some(k) => at + |m.patterns[k]|
  }

  /** One left-to-right pass from `at` on. */
  function Tokens(text: bytes, at: nat, m: PlaceholderMatcher): seq<Token>
    requires Usable(m) && at <= |text|
    decreases |text| - at
  {
    if at == |text| then [] else [TokenAt(text, at, m)] + Tokens(text, NextAt(text, at, m), m)
  }

  lemma TokensStep(text: bytes, at: nat, m: PlaceholderMatcher)
    requires Usable(m) && at < |text|
    ensures Tokens(text, at, m) == [TokenAt(text, at, m)] + Tokens(text, NextAt(text, at, m), m)
  {
  }

  function Tokenize(text: bytes, m: PlaceholderMatcher): seq<Token>
    requires Usable(m)
  {
    Tokens(text, 0, m)
  }

  /** What stands before a position does not matter to the pass from there. */
  lemma {:induction false} TokensSuffix(a: bytes, b: bytes, at: nat, m: PlaceholderMatcher)
    requires Usable(m) && at <= |b|
    ensures Tokens(a + b, |a| + at, m) == Tokens(b, at, m)
    decreases |b| - at
  {
    if at < |b| {
      PatternSuffix(a, b, at, m.patterns);
      TokensSuffix(a, b, NextAt(b, at, m), m);
    }
  }

  lemma {:induction false} PatternSuffix(a: bytes, b: bytes, at: nat, patterns: seq<bytes>)
    requires at <= |b|
    ensures PatternAt(a + b, |a| + at, patterns) == PatternAt(b, at, patterns)
  {
    if patterns != [] {
      OccursInRight(a, b, |a| + at, patterns[0]);
      PatternSuffix(a, b, at, patterns[1..]);
    }
  }

  lemma TokensDrop(text: bytes, at: nat, m: PlaceholderMatcher)
    requires Usable(m) && at <= |text|
    ensures Tokens(text, at, m) == Tokenize(text[at..], m)
  {
    assert text == text[..at] + text[at..];
    TokensSuffix(text[..at], text[at..], 0, m);
  }

  /** The bytes `lo..hi`, each as it is. */
  function RawTokens(text: bytes, lo: nat, hi: nat): seq<Token>
    requires hi <= |text|
    decreases hi - lo
  {
    if lo >= hi then [] else [Raw(text[lo])] + RawTokens(text, lo + 1, hi)
  }

  predicate Known(tokens: seq<Token>, es: seq<Entry>) {
    forall i :: 0 <= i < |tokens| && tokens[i].Secret? ==> 1 <= tokens[i].id <= |es|
  }

  /** The bytes that the tokens stand for once secrets are put back. */
  function Render(tokens: seq<Token>, es: seq<Entry>): bytes
    requires Known(tokens, es)
  {
    if tokens == [] then [] else RenderOne(tokens[0], es) + Render(tokens[1..], es)
  }

  function RenderOne(t: Token, es: seq<Entry>): bytes
    requires t.Secret? ==> 1 <= t.id <= |es|
  {
    match t
    case Raw(b) => [b]
    case Secret(id) => es[id - 1].secret
  }

  lemma {:induction false} RenderAppend(a: seq<Token>, b: seq<Token>, es: seq<Entry>)
    requires Known(a, es) && Known(b, es)
    ensures Known(a + b, es)
    ensures Render(a + b, es) == Render(a, es) + Render(b, es)
  {
    if a == [] {
      assert a + b == b;
    } else {
      RenderAppend(a[1..], b, es);
      assert (a + b)[0] == a[0] && (a + b)[1..] == a[1..] + b;
      Assoc(RenderOne(a[0], es), Render(a[1..], es), Render(b, es));
    }
  }

  lemma {:induction false} RenderRaw(text: bytes, lo: nat, hi: nat, es: seq<Entry>)
    requires lo <= hi <= |text|
    ensures Known(RawTokens(text, lo, hi), es) && Render(RawTokens(text, lo, hi), es) == text[lo..hi]
    decreases hi - lo
  {
    if lo < hi {
      RenderRaw(text, lo + 1, hi, es);
      assert text[lo..hi] == [text[lo]] + text[lo + 1..hi];
    }
  }

  predicate KnownIds(m: PlaceholderMatcher, es: seq<Entry>) {
    forall k :: 0 <= k < |m.ids| ==> 1 <= m.ids[k] <= |es|
  }

  lemma {:induction false} TokensKnown(text: bytes, at: nat, m: PlaceholderMatcher, es: seq<Entry>)
    requires Usable(m) && KnownIds(m, es) && at <= |text|
    ensures Known(Tokens(text, at, m), es)
    decreases |text| - at
  {
    if at < |text| {
      TokensKnown(text, NextAt(text, at, m), m, es);
    }
  }

  /** The one-shot restoration of a whole text. */
  function Restored(text: bytes, m: PlaceholderMatcher, es: seq<Entry>): bytes
    requires Usable(m) && KnownIds(m, es)
  {
    TokensKnown(text, 0, m, es);
    Render(Tokenize(text, m), es)
  }

  lemma MatcherForKnown(m: PlaceholderMatcher, keys: SessionKeys, es: seq<Entry>)
    requires WellFormed(keys, es) && MatcherFor(m, es)
    ensures KnownIds(m, es)
  {
    forall k | 0 <= k < |m.ids|
      ensures 1 <= m.ids[k] <= |es|
    {
      PlaceholderTraced(es, m.patterns[k]);
    }
  }

  /** No pattern starts in `lo..hi`. */
  ghost predicate NoMatchIn(text: bytes, lo: nat, hi: nat, m: PlaceholderMatcher) {
    forall i, k :: lo <= i < hi && 0 <= k < |m.patterns| ==> !OccursAt(text, i, m.patterns[k])
  }

  /** A stretch in which no pattern starts passes through unchanged. */
  lemma {:induction false} TokensGap(text: bytes, lo: nat, hi: nat, m: PlaceholderMatcher)
    requires Usable(m) && lo <= hi <= |text|
    requires NoMatchIn(text, lo, hi, m)
    ensures Tokens(text, lo, m) == RawTokens(text, lo, hi) + Tokens(text, hi, m)
    decreases hi - lo
  {
    if lo < hi {
      TokensGap(text, lo + 1, hi, m);
      PatternAtFirst(text, lo, m.patterns);
      Assoc([Raw(text[lo])], RawTokens(text, lo + 1, hi), Tokens(text, hi, m));
    }
  }
}
