/** What a text with directives can still contain when it goes out. */
module DirectiveSecrecy {
  import opened Bytes
  import opened Registry
  import opened Span
  import opened Scanner
  import opened Directive
  import opened Cache
  import opened CacheTrace
  import opened DirectiveText
  import opened RoundTrip
  import opened Secrecy
  import Window

  /** `x` is part of a placeholder that was put in for the part. */
  ghost predicate InPartPlaceholder(p: Setup, es: seq<Entry>, part: Part, x: bytes)
    requires p.chunk > 0 && HoldsTagged(es, [part])
  {
    match part
    case Plain(text) => InPlaceholder(TextSpans(p, es, text), x)
    case Secret(secret) =>
      assert [part][0] == part;
      Contains(es[IdOf(es, secret) - 1].placeholder, x)
  }

  /** `x` stands in a plain part apart from every span. */
  ghost predicate PartInTheClear(p: Setup, es: seq<Entry>, part: Part, x: bytes)
    requires p.chunk > 0
  {
    part.Plain? && InTheClear(part.text, 0, TextSpans(p, es, part.text), x)
  }

  ghost predicate PartShows(p: Setup, es: seq<Entry>, part: Part, x: bytes)
    requires p.chunk > 0
  {
    HoldsTagged(es, [part]) && (InPartPlaceholder(p, es, part, x) || PartInTheClear(p, es, part, x))
  }

  ghost predicate AnyShows(p: Setup, es: seq<Entry>, parts: seq<Part>, x: bytes)
    requires p.chunk > 0
  {
    exists i :: 0 <= i < |parts| && PartShows(p, es, parts[i], x)
  }

  lemma AnyShowsStep(p: Setup, es: seq<Entry>, parts: seq<Part>, x: bytes)
    requires p.chunk > 0 && parts != []
    ensures AnyShows(p, es, parts, x) <==> PartShows(p, es, parts[0], x) || AnyShows(p, es, parts[1..], x)
  {
    hide PartShows;
    if i :| 0 <= i < |parts[1..]| && PartShows(p, es, parts[1..][i], x) {
      assert PartShows(p, es, parts[i + 1], x);
    }
    if i :| 0 <= i < |parts| && PartShows(p, es, parts[i], x) {
      assert i > 0 ==> parts[i] == parts[1..][i - 1];
    }
  }

  lemma PlainShows(p: Setup, es: seq<Entry>, text: bytes, x: bytes)
    requires p.chunk > 0 && WellFormed(p.keys, es) && x != [] && SeamlessIn(x, es)
    ensures Contains(Uncached(p, es, text).text, x) <==> PartShows(p, es, Plain(text), x)
  {
    hide TextSpans, Uncached, Seamless;
    TextSpansTrue(p, es, text);
    SpansSeamless(p.keys, text, es, TextSpans(p, es, text), x);
    RedactionShows(text, 0, TextSpans(p, es, text), x);
  }

  lemma TaggedShows(p: Setup, es: seq<Entry>, part: Part, x: bytes)
    requires p.chunk > 0 && WellFormed(p.keys, es) && part.Secret? && HoldsTagged(es, [part]) && SeamlessIn(x, es)
    ensures Contains(SplicedPart(p, es, part), x) <==> PartShows(p, es, part, x)
    ensures Seamless(x, SplicedPart(p, es, part))
  {
    hide Seamless;
  }

  /** The parts from a tagged one on, behind the plain text `front`. */
  lemma BehindPlain(p: Setup, es: seq<Entry>, front: bytes, parts: seq<Part>, x: bytes)
    requires p.chunk > 0 && WellFormed(p.keys, es) && HoldsTagged(es, parts) && x != [] && SeamlessIn(x, es)
    requires parts != [] && parts[0].Secret?
    ensures HoldsTagged(es, [parts[0]]) && HoldsTagged(es, parts[1..])
    ensures Contains(front + Spliced(p, es, parts), x)
            <==> || Contains(front, x) || PartShows(p, es, parts[0], x)
                 || Contains(Spliced(p, es, parts[1..]), x)
  {
    hide Contains, Seamless, PartShows, SeamlessIn;
    assert [parts[0]][0] == parts[0];
    TaggedShows(p, es, parts[0], x);
    var mark, rest := SplicedPart(p, es, parts[0]), Spliced(p, es, parts[1..]);
    Assoc(front, mark, rest);
    SeamSplit(front, mark, rest, x);
  }

  /**
   * A seamless string occurs in what goes out exactly when it is part of an inserted placeholder or
   * stands in a plain part apart from every span; nothing comes about at a seam between parts.
   */
  lemma {:induction false} SplicedShows(p: Setup, es: seq<Entry>, parts: seq<Part>, x: bytes)
    requires p.chunk > 0 && WellFormed(p.keys, es) && HoldsTagged(es, parts) && InGrammar(parts)
    requires x != [] && SeamlessIn(x, es)
    ensures Contains(Spliced(p, es, parts), x) <==> AnyShows(p, es, parts, x)
    decreases |parts|
  {
    if parts == [] {
    } else {
      hide Contains, PartShows, TagFree, Seamless, SeamlessIn, AnyShows;
      AnyShowsStep(p, es, parts, x);
      SplicedShows(p, es, parts[1..], x);
      if parts[0].Secret? {
        BehindPlain(p, es, [], parts, x);
        NothingShows(Spliced(p, es, parts), x);
      } else {
        PlainShows(p, es, parts[0].text, x);
        PlainFirst(p, es, parts, x);
      }
    }
  }

  lemma NothingShows(text: bytes, x: bytes)
    requires x != []
    ensures [] + text == text && text + [] == text && !Contains([], x)
  {
  }

  lemma PlainFirst(p: Setup, es: seq<Entry>, parts: seq<Part>, x: bytes)
    requires p.chunk > 0 && WellFormed(p.keys, es) && HoldsTagged(es, parts) && InGrammar(parts)
    requires x != [] && SeamlessIn(x, es) && parts != [] && parts[0].Plain?
    ensures Contains(Spliced(p, es, parts), x)
            <==> Contains(Uncached(p, es, parts[0].text).text, x) || Contains(Spliced(p, es, parts[1..]), x)
  {
    hide Contains, PartShows, TagFree, Seamless, SeamlessIn, Uncached;
    var front := Uncached(p, es, parts[0].text).text;
    NothingShows(front, x);
    if |parts| > 1 {
      assert parts[0].Secret? || parts[1].Secret?;
      BehindPlain(p, es, front, parts[1..], x);
      BehindPlain(p, es, [], parts[1..], x);
      NothingShows(Spliced(p, es, parts[1..]), x);
    }
  }

  /** One scan per plain part, or windows that agree with it. */
  ghost predicate Agreeing(p: Setup, es: seq<Entry>, part: Part)
    requires p.chunk > 0
  {
    part.Plain? && |part.text| > p.chunk ==>
      Window.OverlapTransitive(part.text, es) || Window.OverlapLocal(part.text, es, p.chunk)
  }

  ghost predicate InSomePlaceholder(p: Setup, es: seq<Entry>, parts: seq<Part>, x: bytes)
    requires p.chunk > 0 && HoldsTagged(es, parts)
  {
    exists i :: 0 <= i < |parts| && HoldsTagged(es, [parts[i]]) && InPartPlaceholder(p, es, parts[i], x)
  }

  lemma NoPartInTheClear(p: Setup, es: seq<Entry>, part: Part, x: bytes)
    requires p.chunk > 0 && WellFormed(p.keys, es) && Holds(es, x) && Agreeing(p, es, part)
    ensures !PartInTheClear(p, es, part, x)
  {
    hide Scan, Window.WindowScan, Window.OverlapTransitive, Window.OverlapLocal, InTheClear, MinLen;
    if part.Plain? {
      NothingInTheClear(p.keys, part.text, es, x);
      if |part.text| > p.chunk {
        if Window.OverlapTransitive(part.text, es) {
          Window.TransitiveWindowScan(p.keys, part.text, es, p.chunk);
        } else {
          Window.LocalWindowScan(p.keys, part.text, es, p.chunk);
        }
      }
    }
  }

  /**
   * For parts within the chunk size, or larger ones with local or transitive overlap: a held secret
   * that is seamless, so one without braces, occurs in what goes out exactly when it is part of an
   * inserted placeholder.
   */
  lemma DirectivesHideSecrets(p: Setup, es: seq<Entry>, parts: seq<Part>, x: bytes)
    requires p.chunk > 0 && WellFormed(p.keys, es) && HoldsTagged(es, parts) && InGrammar(parts)
    requires Holds(es, x) && SeamlessIn(x, es)
    requires forall i :: 0 <= i < |parts| ==> Agreeing(p, es, parts[i])
    ensures Contains(Spliced(p, es, parts), x) <==> InSomePlaceholder(p, es, parts, x)
  {
    hide Contains, Agreeing, InPartPlaceholder, PartInTheClear, SeamlessIn, TagFree;
    NothingInTheClear(p.keys, [], es, x);
    SplicedShows(p, es, parts, x);
    forall i | 0 <= i < |parts|
      ensures !PartInTheClear(p, es, parts[i], x)
    {
      NoPartInTheClear(p, es, parts[i], x);
    }
    if AnyShows(p, es, parts, x) {
      var i :| 0 <= i < |parts| && PartShows(p, es, parts[i], x);
    }
    if InSomePlaceholder(p, es, parts, x) {
      var i :| 0 <= i < |parts| && HoldsTagged(es, [parts[i]]) && InPartPlaceholder(p, es, parts[i], x);
      assert PartShows(p, es, parts[i], x);
    }
  }
}
