/** When the fragment restorer gives the one-shot restoration, for every way of cutting the text. */
module FragmentExact {
  import opened Bytes
  import opened Placeholder
  import opened Matcher
  import opened Fragment

  /** Some placeholder stands at `s`. */
  ghost predicate Stands(m: PlaceholderMatcher, text: bytes, s: int) {
    exists k :: 0 <= k < |m.patterns| && OccursAt(text, s, m.patterns[k])
  }

  /** The boundary `e` lies strictly inside an occurrence of a placeholder. */
  ghost predicate Straddles(m: PlaceholderMatcher, text: bytes, e: nat) {
    exists k, s :: 0 <= k < |m.patterns| && OccursAt(text, s, m.patterns[k]) && s < e < s + |m.patterns[k]|
  }

  // ----- one boundary: two passes add up to one exactly when no placeholder lies across it

  lemma {:induction false} PatternInPart(text: bytes, e: nat, at: nat, patterns: seq<bytes>)
    requires at <= e <= |text|
    requires forall k :: 0 <= k < |patterns| && OccursAt(text, at, patterns[k]) ==> at + |patterns[k]| <= e
    ensures PatternAt(text[..e], at, patterns) == PatternAt(text, at, patterns)
  {
    if patterns != [] {
      assert text[..e] <= text;
      if at + |patterns[0]| <= e {
        OccursInPrefix(text[..e], text, at, patterns[0]);
      }
      assert forall k :: 0 <= k < |patterns[1..]| ==> patterns[1..][k] == patterns[k + 1];
      PatternInPart(text, e, at, patterns[1..]);
    }
  }

  /** Over the part the pass makes the same step, when no match from here runs past it. */
  lemma SameStep(m: PlaceholderMatcher, text: bytes, e: nat, at: nat)
    requires Usable(m) && at < e <= |text|
    requires forall k :: 0 <= k < |m.patterns| && OccursAt(text, at, m.patterns[k]) ==> at + |m.patterns[k]| <= e
    ensures NextAt(text, at, m) <= e && NextAt(text[..e], at, m) == NextAt(text, at, m)
    ensures TokenAt(text[..e], at, m) == TokenAt(text, at, m)
  {
    PatternInPart(text, e, at, m.patterns);
    PatternAtFirst(text, at, m.patterns);
  }

  lemma {:induction false} SplitHere(m: PlaceholderMatcher, text: bytes, e: nat, at: nat)
    requires Usable(m) && at <= e <= |text| && !Straddles(m, text, e)
    ensures Tokens(text, at, m) == Tokens(text[..e], at, m) + Tokens(text, e, m)
    decreases e - at
  {
    if at < e {
      SameStep(m, text, e, at);
      TokensStep(text, at, m);
      TokensStep(text[..e], at, m);
      hide Tokens, TokenAt, NextAt, Straddles;
      var next := NextAt(text, at, m);
      SplitHere(m, text, e, next);
      Assoc([TokenAt(text, at, m)], Tokens(text[..e], next, m), Tokens(text, e, m));
    }
  }

  /** No match before an occurrence runs into it. */
  lemma NextBefore(m: PlaceholderMatcher, text: bytes, at: nat, k: nat, s: nat)
    requires Usable(m) && AllShaped(m) && k < |m.patterns| && OccursAt(text, s, m.patterns[k]) && at < s
    ensures at < |text| && NextAt(text, at, m) <= s
    ensures forall j :: 0 <= j < |m.patterns| && OccursAt(text, at, m.patterns[j]) ==> at + |m.patterns[j]| <= s
  {
    PatternAtFirst(text, at, m.patterns);
    forall j | 0 <= j < |m.patterns| && OccursAt(text, at, m.patterns[j])
      ensures at + |m.patterns[j]| <= s
    {
      NoPartialOverlap(text, at, m.patterns[j], s, m.patterns[k]);
    }
  }

  /** With an occurrence across the boundary the pass over the first part makes other tokens. */
  lemma {:induction false} NoSplitHere(
    m: PlaceholderMatcher, text: bytes, e: nat, at: nat, k: nat, s: nat, rest: seq<Token>)
    requires Usable(m) && AllShaped(m) && at <= s < e <= |text|
    requires k < |m.patterns| && OccursAt(text, s, m.patterns[k]) && e < s + |m.patterns[k]|
    ensures Tokens(text, at, m) != Tokens(text[..e], at, m) + rest
    decreases s - at
  {
    TokensStep(text, at, m);
    TokensStep(text[..e], at, m);
    hide Tokens;
    if at == s {
      FirstTokensDiffer(m, text, e, k, s);
      assert Tokens(text, at, m)[0] != (Tokens(text[..e], at, m) + rest)[0];
    } else {
      NextBefore(m, text, at, k, s);
      SameStep(m, text, e, at);
      hide TokenAt, NextAt, AllShaped, OccursAt;
      var next := NextAt(text, at, m);
      NoSplitHere(m, text, e, next, k, s, rest);
      var t := TokenAt(text, at, m);
      Assoc([t], Tokens(text[..e], next, m), rest);
      CancelPrefix([t], Tokens(text, next, m), Tokens(text[..e], next, m) + rest);
    }
  }

  lemma FirstTokensDiffer(m: PlaceholderMatcher, text: bytes, e: nat, k: nat, s: nat)
    requires Usable(m) && AllShaped(m) && s < e <= |text|
    requires k < |m.patterns| && OccursAt(text, s, m.patterns[k]) && e < s + |m.patterns[k]|
    ensures TokenAt(text, s, m).Secret? && TokenAt(text[..e], s, m).Raw?
  {
    PatternAtFirst(text, s, m.patterns);
    PatternAtFirst(text[..e], s, m.patterns);
    match PatternAt(text[..e], s, m.patterns) {
      case None =>
      case Some(j) =>
        OccursInPrefix(text[..e], text, s, m.patterns[j]);
        NoPartialOverlap(text, s, m.patterns[j], s, m.patterns[k]);
    }
  }

  /** One pass is the pass over both parts exactly when no placeholder lies across the boundary. */
  lemma SplitExact(m: PlaceholderMatcher, text: bytes, e: nat, rest: seq<Token>)
    requires Usable(m) && AllShaped(m) && e <= |text|
    ensures !Straddles(m, text, e) ==> Tokenize(text, m) == Tokenize(text[..e], m) + Tokenize(text[e..], m)
    ensures Straddles(m, text, e) ==> Tokenize(text, m) != Tokenize(text[..e], m) + rest
  {
    TokensDrop(text, e, m);
    if Straddles(m, text, e) {
      var k, s :| 0 <= k < |m.patterns| && OccursAt(text, s, m.patterns[k]) && s < e < s + |m.patterns[k]|;
      NoSplitHere(m, text, e, 0, k, s, rest);
    } else {
      SplitHere(m, text, e, 0);
    }
  }

  // ----- where the restorer puts its boundary

  /** A text ends in two opening braces. */
  predicate EndsInBraces(text: bytes) {
    |text| >= 2 && text[|text| - 2] == LBRACE && text[|text| - 1] == LBRACE
  }

  /** After an opening brace at the end, two bytes are held when they are both braces, else none. */
  lemma HoldAfterBrace(m: PlaceholderMatcher, text: bytes)
    requires AllShaped(m) && m.patterns != [] && text != [] && text[|text| - 1] == LBRACE
    ensures HoldLen(text, m.patterns) == if EndsInBraces(text) then 2 else 0
  {
    HoldLenLongest(text, m.patterns);
    var h := HoldLen(text, m.patterns);
    if h != 0 {
      var k :| 0 <= k < |m.patterns| && HoldsFor(text, m.patterns[k], h);
      assert text[|text| - h..][h - 1] == m.patterns[k][h - 1];
      assert text[|text| - h..][h - 2] == m.patterns[k][h - 2];
    }
    if EndsInBraces(text) {
      assert text[|text| - 2..] == m.patterns[0][..2];
      assert HoldsFor(text, m.patterns[0], 2);
      assert HoldsBack(text, m.patterns, 2);
    }
  }

  /** A held suffix of two braces means the text ends in them. */
  lemma HeldBraces(m: PlaceholderMatcher, text: bytes)
    requires AllShaped(m) && m.patterns != []
    ensures HeldText(text, m) == [LBRACE, LBRACE] <==> EndsInBraces(text)
  {
    if EndsInBraces(text) {
      HoldAfterBrace(m, text);
    }
    var held := HeldText(text, m);
    assert forall i :: 0 <= i < |held| ==> held[i] == text[|text| - |held| + i];
  }

  /** The held suffix never cuts into a complete placeholder. */
  lemma HeldCutsNothing(m: PlaceholderMatcher, text: bytes, k: nat, s: nat)
    requires AllShaped(m) && k < |m.patterns| && OccursAt(text, s, m.patterns[k])
    ensures var e := |text| - HoldLen(text, m.patterns);
            e <= s || s + |m.patterns[k]| <= e
  {
    HoldLenLongest(text, m.patterns);
    var h, p := HoldLen(text, m.patterns), m.patterns[k];
    var e := |text| - h;
    if h != 0 && s < e < s + |p| {
      var j :| 0 <= j < |m.patterns| && HoldsFor(text, m.patterns[j], h);
      HeldBytes(text, m.patterns[j], h);
      OccursAtBytes(text, s, p);
    }
  }

  lemma HeldBytes(text: bytes, pattern: bytes, h: nat)
    requires HoldsFor(text, pattern, h)
    ensures text[|text| - h] == pattern[0] && text[|text| - h + 1] == pattern[1]
  {
    assert text[|text| - h..][0] == pattern[..h][0] && text[|text| - h..][1] == pattern[..h][1];
  }

  /**
   * The boundary put after `text` lies inside a placeholder of the whole stream exactly when one
   * begins with the last byte of `text` and nothing is held.
   */
  lemma StraddleExact(m: PlaceholderMatcher, text: bytes, future: bytes)
    requires AllShaped(m)
    ensures var h := HoldLen(text, m.patterns);
            Straddles(m, text + future, |text| - h) <==> h == 0 && text != [] && Stands(m, text + future, |text| - 1)
  {
    var whole, h := text + future, HoldLen(text, m.patterns);
    var e := |text| - h;
    if h == 0 && text != [] && Stands(m, whole, |text| - 1) {
      var k :| 0 <= k < |m.patterns| && OccursAt(whole, |text| - 1, m.patterns[k]);
      assert Shaped(m.patterns[k]);
    }
    if Straddles(m, whole, e) {
      var k, s :| 0 <= k < |m.patterns| && OccursAt(whole, s, m.patterns[k]) && s < e < s + |m.patterns[k]|;
      StraddleFrom(m, text, whole, k, s);
    }
  }

  lemma StraddleFrom(m: PlaceholderMatcher, text: bytes, whole: bytes, k: nat, s: nat)
    requires AllShaped(m) && text <= whole && k < |m.patterns| && OccursAt(whole, s, m.patterns[k])
    requires var e := |text| - HoldLen(text, m.patterns); s < e < s + |m.patterns[k]|
    ensures HoldLen(text, m.patterns) == 0 && s == |text| - 1
  {
    var p, h := m.patterns[k], HoldLen(text, m.patterns);
    HoldLenLongest(text, m.patterns);
    if s + |p| <= |text| {
      OccursInPrefix(text, whole, s, p);
      HeldCutsNothing(m, text, k, s);
    } else {
      var l := |text| - s;
      assert text[|text| - l..] == whole[s..s + |p|][..l];
      if l >= 2 {
        assert HoldsFor(text, p, l);
        assert HoldsBack(text, m.patterns, l);
      }
    }
  }

  // ----- the condition on the fragments

  /** Whether two opening braces are held after one more fragment. */
  predicate NextHeld(held: bool, fragment: bytes) {
    if fragment == [] || fragment == [LBRACE] then held else EndsInBraces(fragment)
  }

  /**
   * Whether they are held after some fragments: the last one that is neither empty nor a lone brace
   * ends in two.
   */
  predicate BracesHeld(held: bool, fragments: seq<bytes>)
    decreases |fragments|
  {
    if fragments == [] then held else BracesHeld(NextHeld(held, fragments[0]), fragments[1..])
  }

  /**
   * Some cut after the first `j` fragments comes right behind the first byte of a placeholder, with
   * no braces held there. `start` is the text before the fragments.
   */
  ghost predicate CutBehindBrace(m: PlaceholderMatcher, held: bool, start: bytes, fragments: seq<bytes>) {
    exists j :: 0 < j <= |fragments| && CutAt(m, held, start, fragments, j)
  }

  ghost predicate CutAt(m: PlaceholderMatcher, held: bool, start: bytes, fragments: seq<bytes>, j: nat)
    requires j <= |fragments|
  {
    && Stands(m, start + Flatten(fragments), |start| + |Flatten(fragments[..j])| - 1)
    && !BracesHeld(held, fragments[..j])
  }

  /** All outputs of the pushes and of the finish. */
  function FragmentStream(pending: bytes, fragments: seq<bytes>, m: PlaceholderMatcher): seq<Token>
    requires Usable(m)
    decreases |fragments|
  {
    if fragments == [] then Tokenize(pending, m)
    else
      var combined := pending + fragments[0];
      Tokenize(ReleasedText(combined, m), m) + FragmentStream(HeldText(combined, m), fragments[1..], m)
  }

  /** A state the restorer can be in: nothing, or a proper beginning of a placeholder. */
  ghost predicate Pending(m: PlaceholderMatcher, pending: bytes) {
    pending == [] || HoldsBack(pending, m.patterns, |pending|)
  }

  lemma HeldIsPending(m: PlaceholderMatcher, text: bytes)
    ensures Pending(m, HeldText(text, m))
  {
    HoldLenLongest(text, m.patterns);
    var h := HoldLen(text, m.patterns);
    if h != 0 {
      var k :| 0 <= k < |m.patterns| && HoldsFor(text, m.patterns[k], h);
      var held := text[|text| - h..];
      assert held[|held| - h..] == held;
      assert HoldsFor(held, m.patterns[k], h);
    }
  }

  /** `NextHeld` tracks whether exactly two braces are pending. */
  lemma NextHeldTracks(m: PlaceholderMatcher, pending: bytes, fragment: bytes)
    requires AllShaped(m) && m.patterns != [] && Pending(m, pending)
    ensures var held := NextHeld(pending == [LBRACE, LBRACE], fragment);
            var combined := pending + fragment;
            && (HeldText(combined, m) == [LBRACE, LBRACE] <==> held)
            && (combined != [] && combined[|combined| - 1] == LBRACE ==> (HoldLen(combined, m.patterns) == 0 <==> !held))
  {
    var combined := pending + fragment;
    HeldBraces(m, combined);
    if combined != [] && combined[|combined| - 1] == LBRACE {
      HoldAfterBrace(m, combined);
    }
    if pending != [] {
      PendingEnd(m, pending);
    }
    if fragment == [] {
      assert combined == pending;
    }
  }

  /** What is pending ends in a brace only when it is two braces. */
  lemma PendingEnd(m: PlaceholderMatcher, pending: bytes)
    requires AllShaped(m) && Pending(m, pending) && pending != []
    ensures pending[|pending| - 1] == LBRACE <==> pending == [LBRACE, LBRACE]
  {
    var k :| 0 <= k < |m.patterns| && HoldsFor(pending, m.patterns[k], |pending|);
    assert pending[0..] == pending;
  }

  // ----- the theorem

  lemma FlattenFirst(fragments: seq<bytes>, j: nat)
    requires 0 < j <= |fragments|
    ensures Flatten(fragments[..j]) == fragments[0] + Flatten(fragments[1..][..j - 1])
    ensures forall held ::
              BracesHeld(held, fragments[..j]) == BracesHeld(NextHeld(held, fragments[0]), fragments[1..][..j - 1])
  {
    assert fragments[..j][1..] == fragments[1..][..j - 1];
  }

  lemma BracesHeldNone(held: bool)
    ensures BracesHeld(held, []) == held
  {
  }

  /** A bad cut is behind the first fragment or behind a later one. */
  lemma CutFirstOrLater(m: PlaceholderMatcher, held: bool, start: bytes, fragments: seq<bytes>)
    requires fragments != []
    ensures var combined, rest := start + fragments[0], fragments[1..];
            var next := NextHeld(held, fragments[0]);
            CutBehindBrace(m, held, start, fragments)
            <==> (Stands(m, combined + Flatten(rest), |combined| - 1) && !next) || CutBehindBrace(m, next, combined, rest)
  {
    hide Stands, NextHeld, BracesHeld;
    var combined, rest, next := start + fragments[0], fragments[1..], NextHeld(held, fragments[0]);
    BracesHeldNone(next);
    Assoc(start, fragments[0], Flatten(rest));
    forall j | 0 < j <= |fragments|
      ensures CutAt(m, held, start, fragments, j) <==> CutAt(m, next, combined, rest, j - 1)
    {
      FlattenFirst(fragments, j);
    }
    assert rest[..0] == [];
    if CutBehindBrace(m, held, start, fragments) {
      var j :| 0 < j <= |fragments| && CutAt(m, held, start, fragments, j);
      assert CutAt(m, next, combined, rest, j - 1);
    }
    if Stands(m, combined + Flatten(rest), |combined| - 1) && !next {
      assert CutAt(m, next, combined, rest, 0);
      assert CutAt(m, held, start, fragments, 1);
    }
    if CutBehindBrace(m, next, combined, rest) {
      var j :| 0 < j <= |rest| && CutAt(m, next, combined, rest, j);
      assert CutAt(m, held, start, fragments, j + 1);
    }
  }

  /** Dropping text before a boundary that no placeholder lies across changes no cut behind it. */
  lemma CutAfterDrop(m: PlaceholderMatcher, held: bool, combined: bytes, e: nat, rest: seq<bytes>)
    requires AllShaped(m) && e <= |combined| && !Straddles(m, combined + Flatten(rest), e)
    ensures CutBehindBrace(m, held, combined, rest) <==> CutBehindBrace(m, held, combined[e..], rest)
  {
    hide Stands, Straddles, BracesHeld, AllShaped;
    var whole := combined + Flatten(rest);
    assert whole[e..] == combined[e..] + Flatten(rest);
    forall j | 0 < j <= |rest|
      ensures CutAt(m, held, combined, rest, j) <==> CutAt(m, held, combined[e..], rest, j)
    {
      StandsAfterDrop(m, whole, e, |combined| + |Flatten(rest[..j])| - 1);
    }
  }

  lemma StandsAfterDrop(m: PlaceholderMatcher, text: bytes, e: nat, s: int)
    requires AllShaped(m) && e <= |text| && e - 1 <= s && !Straddles(m, text, e)
    ensures Stands(m, text, s) <==> Stands(m, text[e..], s - e)
  {
    forall k | 0 <= k < |m.patterns|
      ensures OccursAt(text, s, m.patterns[k]) <==> OccursAt(text[e..], s - e, m.patterns[k])
    {
      if e <= s {
        OccursAfterDrop(text, e, s - e, m.patterns[k]);
      }
    }
  }

  /** The boundary behind the first fragment is bad exactly when the restorer's boundary straddles. */
  lemma FirstCutExact(m: PlaceholderMatcher, pending: bytes, fragment: bytes, future: bytes)
    requires AllShaped(m) && Pending(m, pending)
    ensures var combined := pending + fragment;
            Straddles(m, combined + future, |combined| - HoldLen(combined, m.patterns))
            <==> Stands(m, combined + future, |combined| - 1) && !NextHeld(pending == [LBRACE, LBRACE], fragment)
  {
    var combined := pending + fragment;
    StraddleExact(m, combined, future);
    if Stands(m, combined + future, |combined| - 1) {
      var k :| 0 <= k < |m.patterns| && OccursAt(combined + future, |combined| - 1, m.patterns[k]);
      OccursAtBytes(combined + future, |combined| - 1, m.patterns[k]);
      assert (combined + future)[|combined| - 1 + 0] == m.patterns[k][0];
      NextHeldTracks(m, pending, fragment);
    }
  }

  /** The restorer is exact from this state on. */
  ghost predicate Exact(m: PlaceholderMatcher, pending: bytes, fragments: seq<bytes>)
    requires Usable(m)
  {
    FragmentStream(pending, fragments, m) == Tokenize(pending + Flatten(fragments), m)
    <==> !CutBehindBrace(m, pending == [LBRACE, LBRACE], pending, fragments)
  }

  lemma {:induction false} FragmentsExactFrom(m: PlaceholderMatcher, pending: bytes, fragments: seq<bytes>)
    requires Usable(m) && AllShaped(m) && Pending(m, pending)
    ensures Exact(m, pending, fragments)
    decreases |fragments|
  {
    if fragments == [] {
      assert pending + [] == pending;
    } else {
      var combined := pending + fragments[0];
      HeldIsPending(m, combined);
      FragmentsExactFrom(m, HeldText(combined, m), fragments[1..]);
      var whole := combined + Flatten(fragments[1..]);
      Assoc(pending, fragments[0], Flatten(fragments[1..]));
      OneFragment(m, pending, fragments, whole, |combined| - HoldLen(combined, m.patterns));
    }
  }

  lemma OneFragment(m: PlaceholderMatcher, pending: bytes, fragments: seq<bytes>, whole: bytes, e: nat)
    requires Usable(m) && AllShaped(m) && Pending(m, pending) && fragments != []
    requires var combined := pending + fragments[0];
             && e == |combined| - HoldLen(combined, m.patterns)
             && whole == combined + Flatten(fragments[1..]) == pending + Flatten(fragments)
             && Exact(m, HeldText(combined, m), fragments[1..])
    ensures Exact(m, pending, fragments)
  {
    hide Stands, Straddles, CutBehindBrace, AllShaped, Pending, HoldLen, Tokenize, NextHeld;
    var combined, rest := pending + fragments[0], fragments[1..];
    var held, future := HeldText(combined, m), Flatten(rest);
    assert whole[e..] == held + future && whole[..e] == ReleasedText(combined, m);
    assert FragmentStream(pending, fragments, m) == Tokenize(whole[..e], m) + FragmentStream(held, rest, m);
    hide FragmentStream, Flatten, HeldText, ReleasedText;
    SplitExact(m, whole, e, FragmentStream(held, rest, m));
    FirstCutExact(m, pending, fragments[0], future);
    CutFirstOrLater(m, pending == [LBRACE, LBRACE], pending, fragments);
    if !Straddles(m, whole, e) {
      LaterCuts(m, pending, fragments);
      CancelPrefix(Tokenize(whole[..e], m), FragmentStream(held, rest, m), Tokenize(held + future, m));
    }
  }

  lemma LaterCuts(m: PlaceholderMatcher, pending: bytes, fragments: seq<bytes>)
    requires AllShaped(m) && Pending(m, pending) && fragments != []
    requires var combined := pending + fragments[0];
             !Straddles(m, combined + Flatten(fragments[1..]), |combined| - HoldLen(combined, m.patterns))
    ensures var combined := pending + fragments[0];
            var held := HeldText(combined, m);
            CutBehindBrace(m, NextHeld(pending == [LBRACE, LBRACE], fragments[0]), combined, fragments[1..])
            <==> CutBehindBrace(m, held == [LBRACE, LBRACE], held, fragments[1..])
  {
    var combined := pending + fragments[0];
    CutAfterDrop(m, NextHeld(pending == [LBRACE, LBRACE], fragments[0]), combined,
                 |combined| - HoldLen(combined, m.patterns), fragments[1..]);
    if m.patterns != [] {
      NextHeldTracks(m, pending, fragments[0]);
    }
  }

  lemma CancelPrefix<T>(a: seq<T>, b: seq<T>, c: seq<T>)
    ensures a + b == a + c <==> b == c
  {
    if a + b == a + c {
      assert b == (a + b)[|a|..] == (a + c)[|a|..] == c;
    }
  }

  /**
   * The outputs of the restorer add up to the one-shot restoration exactly when no cut comes right
   * behind the first byte of a placeholder without two braces held.
   */
  lemma FragmentsExact(m: PlaceholderMatcher, fragments: seq<bytes>)
    requires Usable(m) && AllShaped(m)
    ensures FragmentStream([], fragments, m) == Tokenize(Flatten(fragments), m)
            <==> !CutBehindBrace(m, false, [], fragments)
  {
    FragmentsExactFrom(m, [], fragments);
    assert [] + Flatten(fragments) == Flatten(fragments);
  }

  /** So it is enough that no cut comes right behind the first byte of a placeholder. */
  lemma FragmentsRestore(m: PlaceholderMatcher, fragments: seq<bytes>)
    requires Usable(m) && AllShaped(m)
    requires forall j :: 0 < j <= |fragments| ==> !Stands(m, Flatten(fragments), |Flatten(fragments[..j])| - 1)
    ensures FragmentStream([], fragments, m) == Tokenize(Flatten(fragments), m)
  {
    FragmentsExact(m, fragments);
    assert [] + Flatten(fragments) == Flatten(fragments);
  }

  /** Cutting any placeholder right behind its first byte loses it. */
  lemma CutBehindFirstByte(m: PlaceholderMatcher, k: nat)
    requires Usable(m) && AllShaped(m) && k < |m.patterns|
    ensures FragmentStream([], [m.patterns[k][..1], m.patterns[k][1..]], m) != Tokenize(m.patterns[k], m)
  {
    var p := m.patterns[k];
    var first, second := p[..1], p[1..];
    var fragments := [first, second];
    FlattenPair(first, second);
    assert fragments[..1] == [first];
    assert OccursAt(p, 0, p);
    assert [] + Flatten(fragments) == p;
    assert CutAt(m, false, [], fragments, 1);
    FragmentsExact(m, fragments);
  }
}
