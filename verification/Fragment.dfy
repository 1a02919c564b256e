/** The fragment restorer that holds back a suffix (src/proxy/server.rs, `PlaceholderFragmentRestorer`). */
module Fragment {
  import opened Bytes
  import opened Placeholder
  import opened Registry
  import opened Matcher
  import opened Restore

  // ----- how much is held back

  /** The last `n` bytes are a proper beginning, at least two bytes long, of some placeholder. */
  predicate HoldsBack(text: bytes, patterns: seq<bytes>, n: nat) {
    exists k :: 0 <= k < |patterns| && HoldsFor(text, patterns[k], n)
  }

  predicate HoldsFor(text: bytes, pattern: bytes, n: nat) {
    2 <= n <= |text| && n < |pattern| && text[|text| - n..] == pattern[..n]
  }

  function HoldUpTo(text: bytes, patterns: seq<bytes>, n: nat): (h: nat)
    requires n <= |text|
    ensures h <= n
  {
    if n < 2 then 0 else if HoldsBack(text, patterns, n) then n else HoldUpTo(text, patterns, n - 1)
  }

  /** `placeholder_prefix_suffix_len`: the longest such suffix. */
  function HoldLen(text: bytes, patterns: seq<bytes>): (h: nat)
    ensures h <= |text|
  {
    HoldUpTo(text, patterns, |text|)
  }

  lemma {:induction false} HoldUpToLongest(text: bytes, patterns: seq<bytes>, n: nat)
    requires n <= |text|
    ensures var h := HoldUpTo(text, patterns, n);
            (h == 0 || HoldsBack(text, patterns, h)) && forall l :: h < l <= n ==> !HoldsBack(text, patterns, l)
  {
    if n >= 2 && !HoldsBack(text, patterns, n) {
      HoldUpToLongest(text, patterns, n - 1);
    }
  }

  lemma HoldLenLongest(text: bytes, patterns: seq<bytes>)
    ensures HoldLen(text, patterns) == 0 || HoldsBack(text, patterns, HoldLen(text, patterns))
    ensures forall l :: HoldLen(text, patterns) < l ==> !HoldsBack(text, patterns, l)
  {
    HoldUpToLongest(text, patterns, |text|);
  }

  method PlaceholderPrefixSuffixLen(text: bytes, placeholders: seq<bytes>) returns (best: nat)
    ensures best == HoldLen(text, placeholders)
  {
    best := 0;
    for i := 0 to |placeholders|
      invariant best == 0 || HoldsBack(text, placeholders, best)
      invariant forall l, k :: best < l && 0 <= k < i ==> !HoldsFor(text, placeholders[k], l)
    {
      var maxLen := Min(|text|, Max(0, |placeholders[i]| - 1));
      var len := maxLen;
      while len >= 2
        invariant len <= maxLen
        invariant best == 0 || HoldsBack(text, placeholders, best)
        invariant forall l :: len < l ==> !HoldsFor(text, placeholders[i], l)
      {
        if text[|text| - len..] == placeholders[i][..len] {
          assert HoldsFor(text, placeholders[i], len);
          best := Max(best, len);
          break;
        }
        len := len - 1;
      }
    }
    HoldLenLongest(text, placeholders);
  }

  // ----- the restorer

  class PlaceholderFragmentRestorer {
    const matcher: PlaceholderMatcher
    const placeholders: seq<bytes>
    var pending: bytes

    ghost predicate Valid()
      reads this
    {
      Usable(matcher) && placeholders == matcher.patterns && (placeholders == [] ==> pending == [])
    }

    constructor (matcher: PlaceholderMatcher)
      requires Usable(matcher)
      ensures Valid() && pending == [] && this.matcher == matcher
    {
      this.matcher := matcher;
      placeholders := matcher.patterns;
      pending := [];
    }

    /** Releases all but the held suffix; what is released and what is held make up what came in. */
    method PushText(text: bytes, registry: SecretRegistry) returns (r: Result<bytes, RegistryError>)
      requires Valid() && registry.Valid()
      modifies this
      ensures Valid()
      ensures Outcome(r, Tokenize(ReleasedText(old(pending) + text, matcher), matcher), registry.entries)
      ensures r.Ok? ==> pending == HeldText(old(pending) + text, matcher)
      ensures r.Ok? ==> ReleasedText(old(pending) + text, matcher) + pending == old(pending) + text
    {
      if placeholders == [] {
        NothingHeld(text, matcher, registry.entries);
        assert old(pending) + text == text;
        return Ok(text);
      }
      var combined := pending + text;
      pending := [];
      var holdLen := PlaceholderPrefixSuffixLen(combined, placeholders);
      var safeLen := |combined| - holdLen;
      r := RestoreCompletePlaceholders(combined[..safeLen], registry);
      if r.Ok? {
        pending := pending + combined[safeLen..];
      }
    }

    method Finish(registry: SecretRegistry) returns (r: Result<bytes, RegistryError>)
      requires Valid() && registry.Valid()
      modifies this
      ensures Valid() && pending == []
      ensures Outcome(r, Tokenize(old(pending), matcher), registry.entries)
    {
      var rest := pending;
      pending := [];
      r := RestoreCompletePlaceholders(rest, registry);
    }

    method RestoreCompletePlaceholders(text: bytes, registry: SecretRegistry) returns (r: Result<bytes, RegistryError>)
      requires Valid() && registry.Valid()
      ensures Outcome(r, Tokenize(text, matcher), registry.entries)
    {
      hide Render, Tokens, TokensUntil, StopAt;
      UntilEnd(text, 0, matcher);
      RestoreStart(text, matcher, registry.entries);
      var matches := FindIn(text, 0, matcher);
      var out := [];
      var cursor: nat := 0;
      ghost var done: seq<Token> := [];
      for i := 0 to |matches|
        invariant UpTo(text, |text|, matcher, registry.entries, cursor, done, out)
        invariant matches[i..] == FindIn(text, cursor, matcher)
      {
        var mat := matches[i];
        assert mat == matches[i..][0] && matches[i..][1..] == matches[i + 1..];
        if mat.start < cursor {
          continue;
        }
        TakeMatch(text, |text|, matcher, registry.entries, cursor, done, out);
        done := done + RawTokens(text, cursor, mat.start) + [Secret(mat.id)];
        out := out + text[cursor..mat.start];
        var restored := registry.RestoreToVec(mat.id, out);
        if restored.Err? {
          return Err(restored.error);
        }
        out := restored.value;
        cursor := mat.end;
      }
      TakeRest(text, |text|, matcher, registry.entries, cursor, done, out);
      assert text[cursor..|text|] == text[cursor..];
      assert cursor == |text| ==> out + text[cursor..] == out;
      r := Ok(out + text[cursor..]);
    }
  }

  lemma RestoreStart(text: bytes, m: PlaceholderMatcher, es: seq<Entry>)
    requires Usable(m)
    ensures UpTo(text, |text|, m, es, 0, [], [])
  {
  }

  function ReleasedText(combined: bytes, m: PlaceholderMatcher): bytes {
    combined[..|combined| - HoldLen(combined, m.patterns)]
  }

  function HeldText(combined: bytes, m: PlaceholderMatcher): bytes {
    combined[|combined| - HoldLen(combined, m.patterns)..]
  }

  lemma NothingHeld(text: bytes, m: PlaceholderMatcher, es: seq<Entry>)
    requires Usable(m) && m.patterns == []
    ensures HoldLen(text, m.patterns) == 0
    ensures Outcome(Ok(text), Tokenize(ReleasedText(text, m), m), es)
  {
    HoldLenLongest(text, m.patterns);
    TokensGap(text, 0, |text|, m);
    RenderRaw(text, 0, |text|, es);
    assert RawTokens(text, 0, |text|) + [] == RawTokens(text, 0, |text|);
    assert text[0..|text|] == text && text[..|text| - 0] == text;
  }
}
