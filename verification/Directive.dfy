/** The directive grammar `<cb>…</cb>` (src/redact/directive.rs, `parse_ranges`). */
module Directive {
  import opened Bytes

  const LT: byte := 60
  const OPEN_TAG: bytes := [LT, 99, 98, 62]
  const CLOSE_TAG: bytes := [LT, 47, 99, 98, 62]

  /** The tags as they are written. */
  lemma Tags()
    ensures OPEN_TAG == Ascii("<cb>") && CLOSE_TAG == Ascii("</cb>")
  {
  }

  datatype DirectiveError = StrayClose | Unclosed | EmptyDirective | Nested

  /** A part of the input, by its range. */
  datatype ParsedPart = PlainRange(start: nat, end: nat) | SecretRange(start: nat, end: nat)

  /** A part of the input, by its bytes. */
  datatype Part = Plain(text: bytes) | Secret(text: bytes)

  predicate IsTag(tag: bytes) {
    tag == OPEN_TAG || tag == CLOSE_TAG
  }

  ghost predicate TagFree(text: bytes) {
    !Contains(text, OPEN_TAG) && !Contains(text, CLOSE_TAG)
  }

  // ----- the grammar

  /** The input with its tags, from the parts. */
  function Tagged(parts: seq<Part>): bytes {
    if parts == [] then []
    else (match parts[0]
          case Plain(text) => text
          case Secret(text) => OPEN_TAG + text + CLOSE_TAG)
         + Tagged(parts[1..])
  }

  /** Parts are tag-free and not empty, and no two plain parts are neighbours. */
  ghost predicate InGrammar(parts: seq<Part>) {
    && (forall i :: 0 <= i < |parts| ==> parts[i].text != [] && TagFree(parts[i].text))
    && (forall i :: 0 < i < |parts| ==> parts[i - 1].Secret? || parts[i].Secret?)
  }

  // ----- the parser

  /** What `parse_ranges` makes of the input from its cursor on. */
  function Parse(text: bytes): Result<seq<Part>, DirectiveError>
    decreases |text|
  {
    if text == [] then Ok([])
    else match (Find(text, OPEN_TAG), Find(text, CLOSE_TAG))
      case (None, None) => Ok([Plain(text)])
      case (None, Some(_)) => Err(StrayClose)
      case (Some(open), close) =>
        if close.Some? && close.value < open then Err(StrayClose)
        else ParseSecret(text[..open], text[open + 4..])
  }

  /** The secret behind an open tag, and the rest of the input. */
  function ParseSecret(plain: bytes, after: bytes): Result<seq<Part>, DirectiveError>
    decreases |plain| + 4 + |after|, 0
  {
    match Find(after, CLOSE_TAG)
    case None => Err(Unclosed)
    case Some(end) =>
      if end == 0 then Err(EmptyDirective)
      else if Find(after[..end], OPEN_TAG).Some? then Err(Nested)
      else InFront(Parts(plain, after[..end]), Parse(after[end + 5..]))
  }

  /** A secret, with the plain bytes before it if there are any. */
  function Parts(plain: bytes, secret: bytes): seq<Part> {
    (if plain == [] then [] else [Plain(plain)]) + [Secret(secret)]
  }

  function InFront(front: seq<Part>, r: Result<seq<Part>, DirectiveError>): Result<seq<Part>, DirectiveError> {
    match r
    case Err(e) => Err(e)
    case Ok(later) => Ok(front + later)
  }

  // ----- a parsed text is in the grammar

  /** What comes before the first place where a pattern stands does not hold the pattern. */
  lemma BeforeFirst(text: bytes, hi: nat, pat: bytes)
    requires hi <= |text| && pat != []
    requires forall k :: k < hi ==> !OccursAt(text, k, pat)
    ensures !Contains(text[..hi], pat)
  {
    forall k
      ensures !OccursAt(text[..hi], k, pat)
    {
      if OccursAt(text[..hi], k, pat) {
        OccursInPrefix(text[..hi], text, k, pat);
      }
    }
  }

  /** The plain bytes before the first open tag hold no tag. */
  lemma PlainIsTagFree(text: bytes, open: nat)
    requires Find(text, OPEN_TAG) == Some(open)
    requires Find(text, CLOSE_TAG).None? || Find(text, CLOSE_TAG).value >= open
    ensures TagFree(text[..open])
    ensures text == text[..open] + OPEN_TAG + text[open + 4..]
  {
    BeforeFirst(text, open, OPEN_TAG);
    BeforeFirst(text, open, CLOSE_TAG);
    assert text[open..open + 4] == OPEN_TAG;
  }

  lemma SecretIsTagFree(after: bytes, end: nat)
    requires Find(after, CLOSE_TAG) == Some(end) && Find(after[..end], OPEN_TAG).None?
    ensures TagFree(after[..end])
    ensures after == after[..end] + CLOSE_TAG + after[end + 5..]
  {
    BeforeFirst(after, end, CLOSE_TAG);
    assert after[end..end + 5] == CLOSE_TAG;
  }

  lemma PartsInGrammar(plain: bytes, secret: bytes, parts: seq<Part>)
    requires TagFree(plain) && TagFree(secret) && secret != [] && InGrammar(parts)
    ensures InGrammar(Parts(plain, secret) + parts)
    ensures Tagged(Parts(plain, secret) + parts) == plain + OPEN_TAG + (secret + CLOSE_TAG + Tagged(parts))
  {
    var marked := [Secret(secret)] + parts;
    assert marked[1..] == parts;
    assert Tagged(marked) == OPEN_TAG + secret + CLOSE_TAG + Tagged(parts);
    assert OPEN_TAG + secret + CLOSE_TAG + Tagged(parts) == OPEN_TAG + (secret + CLOSE_TAG + Tagged(parts));
    Assoc(plain, OPEN_TAG, secret + CLOSE_TAG + Tagged(parts));
    if plain == [] {
      assert Parts(plain, secret) + parts == marked;
    } else {
      assert Parts(plain, secret) + parts == [Plain(plain)] + marked;
      assert ([Plain(plain)] + marked)[1..] == marked;
    }
  }

  /** On success the parts, with the tags put back, are the input; and they are in the grammar. */
  lemma {:induction false} ParsedIsTagged(text: bytes)
    requires Parse(text).Ok?
    ensures InGrammar(Parse(text).value) && Tagged(Parse(text).value) == text
    decreases |text|
  {
    if text != [] {
      match Find(text, OPEN_TAG) {
        case None =>
          assert [Plain(text)][1..] == [];
          assert text + [] == text;
        case Some(open) =>
          PlainIsTagFree(text, open);
          var after := text[open + 4..];
          var end := Find(after, CLOSE_TAG).value;
          SecretIsTagFree(after, end);
          ParsedIsTagged(after[end + 5..]);
          PartsInGrammar(text[..open], after[..end], Parse(after[end + 5..]).value);
      }
    }
  }

  // ----- a text in the grammar is parsed back

  /** A tag has its angle bracket only in front, so it never reaches from one text into a tag behind. */
  lemma NoTagAcross(a: bytes, b: bytes, tag: bytes)
    requires IsTag(tag) && !Contains(a, tag) && (b == [] || b[0] == LT)
    ensures forall k :: k < |a| ==> !OccursAt(a + b, k, tag)
  {
    forall k | k < |a|
      ensures !OccursAt(a + b, k, tag)
    {
      if OccursAt(a + b, k, tag) {
        if k + |tag| <= |a| {
          OccursInPrefix(a, a + b, k, tag);
        } else {
          assert (a + b)[|a|] == b[0];
          NoAngleInside(a + b, k, tag, |a| - k);
        }
      }
    }
  }

  lemma NoAngleInside(text: bytes, k: nat, tag: bytes, at: nat)
    requires IsTag(tag) && OccursAt(text, k, tag) && 0 < at < |tag|
    ensures text[k + at] != LT
  {
    OccursAtBytes(text, k, tag);
    assert text[k + at] == tag[at];
  }

  lemma TagStands(a: bytes, tag: bytes, tail: bytes)
    ensures OccursAt(a + (tag + tail), |a|, tag) && (a + (tag + tail))[|a| + |tag|..] == tail
  {
    assert (a + (tag + tail))[|a|..|a| + |tag|] == tag;
  }

  /** The first open tag of a text in the grammar. */
  lemma OpenFound(plain: bytes, after: bytes)
    requires TagFree(plain)
    ensures var text := plain + (OPEN_TAG + after);
            && Find(text, OPEN_TAG) == Some(|plain|)
            && (Find(text, CLOSE_TAG).Some? ==> Find(text, CLOSE_TAG).value > |plain|)
            && text[..|plain|] == plain && text[|plain| + 4..] == after
  {
    var text := plain + (OPEN_TAG + after);
    NoTagAcross(plain, OPEN_TAG + after, OPEN_TAG);
    NoTagAcross(plain, OPEN_TAG + after, CLOSE_TAG);
    TagStands(plain, OPEN_TAG, after);
    if OccursAt(text, |plain|, CLOSE_TAG) {
      assert text[|plain|..|plain| + 4][1] == text[|plain|..|plain| + 5][1];
    }
  }

  lemma CloseFound(secret: bytes, tail: bytes)
    requires TagFree(secret)
    ensures var after := secret + (CLOSE_TAG + tail);
            && Find(after, CLOSE_TAG) == Some(|secret|)
            && after[..|secret|] == secret && after[|secret| + 5..] == tail
  {
    CloseOf(secret, tail);
  }

  /** The first close tag behind a text that holds none. */
  lemma CloseOf(secret: bytes, tail: bytes)
    requires !Contains(secret, CLOSE_TAG)
    ensures var after := secret + (CLOSE_TAG + tail);
            && Find(after, CLOSE_TAG) == Some(|secret|)
            && after[..|secret|] == secret && after[|secret| + 5..] == tail
  {
    NoTagAcross(secret, CLOSE_TAG + tail, CLOSE_TAG);
    TagStands(secret, CLOSE_TAG, tail);
  }

  lemma ParseStep(plain: bytes, secret: bytes, tail: bytes)
    requires TagFree(plain) && TagFree(secret) && secret != []
    ensures Parse(plain + (OPEN_TAG + (secret + (CLOSE_TAG + tail))))
         == InFront(Parts(plain, secret), Parse(tail))
  {
    hide Find;
    OpenFound(plain, secret + (CLOSE_TAG + tail));
    CloseFound(secret, tail);
  }

  /** Every alternation in the grammar, tagged and parsed, comes back as it was. */
  lemma {:induction false} TaggedIsParsed(parts: seq<Part>)
    requires InGrammar(parts)
    ensures Parse(Tagged(parts)) == Ok(parts)
    decreases |parts|
  {
    if parts == [] {
    } else if parts[0].Secret? {
      TaggedStep([], parts);
      assert Parts([], parts[0].text) + parts[1..] == parts;
    } else if |parts| == 1 {
      assert parts[1..] == [] && parts[0].text + [] == parts[0].text;
      assert parts == [Plain(parts[0].text)];
    } else {
      TaggedStep(parts[0].text, parts[1..]);
      assert Parts(parts[0].text, parts[1].text) + parts[1..][1..] == parts;
    }
  }

  lemma {:induction false} TaggedStep(plain: bytes, parts: seq<Part>)
    requires InGrammar(parts) && TagFree(plain) && parts != [] && parts[0].Secret?
    ensures Parse(plain + Tagged(parts)) == Ok(Parts(plain, parts[0].text) + parts[1..])
    decreases |parts|, 0
  {
    var secret, tail := parts[0].text, Tagged(parts[1..]);
    TaggedSecret(parts);
    TaggedIsParsed(parts[1..]);
    hide Parse, Tagged, TagFree, Parts;
    ParseStep(plain, secret, tail);
  }

  lemma TaggedSecret(parts: seq<Part>)
    requires parts != [] && parts[0].Secret?
    ensures Tagged(parts) == OPEN_TAG + (parts[0].text + (CLOSE_TAG + Tagged(parts[1..])))
  {
    Assoc(OPEN_TAG + parts[0].text, CLOSE_TAG, Tagged(parts[1..]));
    Assoc(OPEN_TAG, parts[0].text, CLOSE_TAG + Tagged(parts[1..]));
  }

  /** It fails exactly on the inputs outside the grammar. */
  lemma ParsesExactlyTheGrammar(text: bytes)
    ensures Parse(text).Ok? <==> exists parts :: InGrammar(parts) && Tagged(parts) == text
  {
    if Parse(text).Ok? {
      ParsedIsTagged(text);
    } else if exists parts :: InGrammar(parts) && Tagged(parts) == text {
      var parts :| InGrammar(parts) && Tagged(parts) == text;
      TaggedIsParsed(parts);
    }
  }

  // ----- what each error means

  /** The bytes an error is about: what stands before the faulty tag, inside the directive and behind it. */
  datatype Fault = Fault(plain: bytes, inside: bytes, more: bytes) {

    function Text(e: DirectiveError): bytes {
      match e
      case StrayClose => plain + (CLOSE_TAG + more)
      case Unclosed => plain + (OPEN_TAG + more)
      case EmptyDirective => plain + (OPEN_TAG + (CLOSE_TAG + more))
      case Nested => plain + (OPEN_TAG + (inside + (CLOSE_TAG + more)))
    }

    ghost predicate Explains(e: DirectiveError) {
      && TagFree(plain)
      && (e.Unclosed? ==> !Contains(more, CLOSE_TAG))
      && (e.Nested? ==> Contains(inside, OPEN_TAG) && !Contains(inside, CLOSE_TAG))
    }
  }

  /** A failing input is some parts in the grammar, the last one a secret, and then what the error names. */
  lemma {:induction false} ErrorExplained(text: bytes) returns (good: seq<Part>, fault: Fault)
    requires Parse(text).Err?
    ensures InGrammar(good) && (good != [] ==> good[|good| - 1].Secret?)
    ensures var e := Parse(text).error;
            text == Tagged(good) + fault.Text(e) && fault.Explains(e)
    decreases |text|
  {
    hide Tagged, Contains, Find, FindFrom;
    NothingTagged(text);
    var open, close := Find(text, OPEN_TAG), Find(text, CLOSE_TAG);
    if open.None? || (close.Some? && close.value < open.value) {
      good := [];
      fault := StrayExplained(text);
    } else {
      var plain, after := text[..open.value], text[open.value + 4..];
      PlainIsTagFree(text, open.value);
      Assoc(plain, OPEN_TAG, after);
      var end := Find(after, CLOSE_TAG);
      if end.None? || end.value == 0 || Find(after[..end.value], OPEN_TAG).Some? {
        good := [];
        fault := SecretExplained(text, plain, after);
      } else {
        var secret := after[..end.value];
        SecretIsTagFree(after, end.value);
        var inner;
        inner, fault := ErrorExplained(after[end.value + 5..]);
        good := Parts(plain, secret) + inner;
        PartsInGrammar(plain, secret, inner);
        Regroup(plain, secret, Tagged(inner), fault.Text(Parse(text).error));
      }
    }
  }

  /** A fault behind some good parts is what the parser reports. */
  lemma {:induction false} FaultReported(good: seq<Part>, fault: Fault, e: DirectiveError)
    requires InGrammar(good) && (good != [] ==> good[|good| - 1].Secret?) && fault.Explains(e)
    ensures Parse(Tagged(good) + fault.Text(e)) == Err(e)
    decreases |good|
  {
    hide TagFree, Parse, Tagged, Find;
    if good == [] {
      NothingTagged(fault.Text(e));
      FaultAlone(fault, e);
    } else if good[0].Secret? {
      EmptyTagFree();
      FaultBehind([], good, fault, e);
      assert [] + (Tagged(good) + fault.Text(e)) == Tagged(good) + fault.Text(e);
    } else {
      assert good[0].Secret? || good[1].Secret?;
      FaultBehind(good[0].text, good[1..], fault, e);
      PlainTagged(good);
      Assoc(good[0].text, Tagged(good[1..]), fault.Text(e));
    }
  }

  lemma EmptyTagFree()
    ensures TagFree([])
  {
  }

  lemma PlainTagged(parts: seq<Part>)
    requires parts != [] && parts[0].Plain?
    ensures Tagged(parts) == parts[0].text + Tagged(parts[1..])
  {
  }

  lemma {:induction false} FaultBehind(plain: bytes, good: seq<Part>, fault: Fault, e: DirectiveError)
    requires InGrammar(good) && TagFree(plain) && good != [] && good[0].Secret? && good[|good| - 1].Secret?
    requires fault.Explains(e)
    ensures Parse(plain + (Tagged(good) + fault.Text(e))) == Err(e)
    decreases |good|, 0
  {
    hide TagFree, Parse, Tagged, Find;
    var secret, bad := good[0].text, fault.Text(e);
    var tail := Tagged(good[1..]) + bad;
    FaultReported(good[1..], fault, e);
    ParseStep(plain, secret, tail);
    TaggedSecret(good);
    Assoc(OPEN_TAG, secret + (CLOSE_TAG + Tagged(good[1..])), bad);
    Assoc(secret, CLOSE_TAG + Tagged(good[1..]), bad);
    Assoc(CLOSE_TAG, Tagged(good[1..]), bad);
  }

  lemma FaultAlone(fault: Fault, e: DirectiveError)
    requires fault.Explains(e)
    ensures Parse(fault.Text(e)) == Err(e)
  {
    var text := fault.Text(e);
    match e {
      case StrayClose =>
        CloseFirst(fault.plain, fault.more);
      case Unclosed =>
        OpenFound(fault.plain, fault.more);
        hide Contains;
        NoneFound(fault.more, CLOSE_TAG);
        ParseOpens(text, |fault.plain|);
      case EmptyDirective =>
        OpenFound(fault.plain, CLOSE_TAG + fault.more);
        ParseOpens(text, |fault.plain|);
        CloseFound([], fault.more);
        assert [] + (CLOSE_TAG + fault.more) == CLOSE_TAG + fault.more;
      case Nested =>
        NestedReported(fault.plain, fault.inside, fault.more);
    }
  }

  lemma NoneFound(text: bytes, pat: bytes)
    ensures Find(text, pat).None? <==> !Contains(text, pat)
  {
  }

  lemma CloseFirst(plain: bytes, more: bytes)
    requires TagFree(plain)
    ensures Parse(plain + (CLOSE_TAG + more)) == Err(StrayClose)
  {
    var text := plain + (CLOSE_TAG + more);
    NoTagAcross(plain, CLOSE_TAG + more, OPEN_TAG);
    CloseFound(plain, more);
    TagStands(plain, CLOSE_TAG, more);
    assert text[|plain| + 1] == CLOSE_TAG[1];
    assert !OccursAt(text, |plain|, OPEN_TAG);
    hide OccursAt;
    ParseStops(text);
  }

  lemma NestedReported(plain: bytes, inside: bytes, more: bytes)
    requires TagFree(plain) && Contains(inside, OPEN_TAG) && !Contains(inside, CLOSE_TAG)
    ensures Parse(plain + (OPEN_TAG + (inside + (CLOSE_TAG + more)))) == Err(Nested)
  {
    hide Find, Contains;
    var after := inside + (CLOSE_TAG + more);
    OpenFound(plain, after);
    ParseOpens(plain + (OPEN_TAG + after), |plain|);
    CloseOf(inside, more);
    NoneFound(inside, OPEN_TAG);
    NotEmpty(inside);
  }

  lemma NotEmpty(text: bytes)
    requires Contains(text, OPEN_TAG)
    ensures text != []
  {
  }

  lemma NothingTagged(text: bytes)
    ensures text == Tagged([]) + text && InGrammar([])
  {
  }

  lemma Regroup(plain: bytes, secret: bytes, mid: bytes, bad: bytes)
    ensures plain + OPEN_TAG + (secret + CLOSE_TAG + (mid + bad)) == plain + OPEN_TAG + (secret + CLOSE_TAG + mid) + bad
  {
    Assoc(secret + CLOSE_TAG, mid, bad);
    Assoc(plain + OPEN_TAG, secret + CLOSE_TAG + mid, bad);
  }

  lemma StrayExplained(text: bytes) returns (fault: Fault)
    requires Find(text, CLOSE_TAG).Some?
    requires Find(text, OPEN_TAG).None? || Find(text, CLOSE_TAG).value < Find(text, OPEN_TAG).value
    ensures fault.Text(StrayClose) == text && fault.Explains(StrayClose)
  {
    var close := Find(text, CLOSE_TAG).value;
    BeforeFirst(text, close, OPEN_TAG);
    BeforeFirst(text, close, CLOSE_TAG);
    assert text[close..close + 5] == CLOSE_TAG;
    fault := Fault(text[..close], [], text[close + 5..]);
  }

  lemma SecretExplained(text: bytes, plain: bytes, after: bytes) returns (fault: Fault)
    requires TagFree(plain) && text == plain + (OPEN_TAG + after)
    requires match Find(after, CLOSE_TAG)
             case None => true
             case Some(end) => end == 0 || Find(after[..end], OPEN_TAG).Some?
    ensures ParseSecret(plain, after).Err?
    ensures var e := ParseSecret(plain, after).error;
            fault.Text(e) == text && fault.Explains(e)
  {
    match Find(after, CLOSE_TAG) {
      case None =>
        fault := Fault(plain, [], after);
      case Some(end) =>
        BeforeFirst(after, end, CLOSE_TAG);
        assert after[end..end + 5] == CLOSE_TAG;
        fault := Fault(plain, after[..end], after[end + 5..]);
        assert after == fault.inside + (CLOSE_TAG + fault.more);
        if end == 0 {
          assert fault.inside == [];
        }
    }
  }

  // ----- the loop

  /** The bytes that ranges stand for. */
  function PartOf(input: bytes, range: ParsedPart): Part
    requires range.start <= range.end <= |input|
  {
    match range
    case PlainRange(start, end) => Plain(input[start..end])
    case SecretRange(start, end) => Secret(input[start..end])
  }

  ghost predicate Within(input: bytes, ranges: seq<ParsedPart>) {
    forall i :: 0 <= i < |ranges| ==> ranges[i].start <= ranges[i].end <= |input|
  }

  function PartsOf(input: bytes, ranges: seq<ParsedPart>): (parts: seq<Part>)
    requires Within(input, ranges)
    ensures |parts| == |ranges| && forall i :: 0 <= i < |parts| ==> parts[i] == PartOf(input, ranges[i])
  {
    seq(|ranges|, i requires 0 <= i < |ranges| => PartOf(input, ranges[i]))
  }

  lemma PartsSnoc(input: bytes, ranges: seq<ParsedPart>, range: ParsedPart)
    requires Within(input, ranges) && range.start <= range.end <= |input|
    ensures Within(input, ranges + [range])
    ensures PartsOf(input, ranges + [range]) == PartsOf(input, ranges) + [PartOf(input, range)]
  {
  }

  /** The offsets of a directive, from the cursor and from the start of the input. */
  lemma Offsets(input: bytes, cursor: nat, open: nat, end: nat)
    requires cursor + open + 4 + end + 5 <= |input|
    ensures input[cursor..][..open] == input[cursor..cursor + open]
    ensures var after := input[cursor..][open + 4..];
            && after == input[cursor + open + 4..]
            && after[..end] == input[cursor + open + 4..cursor + open + 4 + end]
            && after[end + 5..] == input[cursor + open + 4 + end + 5..]
  {
  }

  /** `parse_ranges`. */
  method ParseRanges(input: bytes) returns (r: Result<seq<ParsedPart>, DirectiveError>)
    ensures r.Ok? ==> Within(input, r.value) && Parse(input) == Ok(PartsOf(input, r.value))
    ensures r.Err? ==> Parse(input) == Err(r.error)
  {
    var parts: seq<ParsedPart> := [];
    var cursor := 0;
    assert input[0..] == input && PartsOf(input, parts) == [];
    PartsStart(Parse(input));
    while cursor < |input|
      invariant cursor <= |input| && Within(input, parts)
      invariant Parse(input) == InFront(PartsOf(input, parts), Parse(input[cursor..]))
      decreases |input| - cursor
    {
      ErrorPasses(PartsOf(input, parts), Parse(input[cursor..]));
      hide Parse, InFront, PartsOf;
      var round := ParseRound(input, parts, cursor);
      if round.Err? {
        return Err(round.error);
      }
      parts, cursor := round.value.0, round.value.1;
    }
    r := Ok(parts);
    PartsEnd(PartsOf(input, parts), []);
    NothingParsed(input);
  }

  /** One round of the loop: the ranges and the cursor after it. A break leaves the cursor at the end. */
  method ParseRound(input: bytes, ranges: seq<ParsedPart>, cursor: nat)
    returns (r: Result<(seq<ParsedPart>, nat), DirectiveError>)
    requires cursor < |input| && Within(input, ranges)
    ensures r.Err? ==> Parse(input[cursor..]) == Err(r.error)
    ensures r.Ok? ==> cursor < r.value.1 <= |input| && Within(input, r.value.0)
    ensures r.Ok? ==> (
              InFront(PartsOf(input, ranges), Parse(input[cursor..]))
              == InFront(PartsOf(input, r.value.0), Parse(input[r.value.1..])))
  {
    hide OccursAt, Find, Parse, Parts, PartsOf, InFront;
    var rest := input[cursor..];
    ParseStops(rest);
    ghost var before := PartsOf(input, ranges);
    match (Find(rest, OPEN_TAG), Find(rest, CLOSE_TAG)) {
      case (None, None) =>
        assert input[cursor..|input|] == rest;
        PartsSnoc(input, ranges, PlainRange(cursor, |input|));
        PartsEnd(before, [Plain(rest)]);
        PartsEnd(before + [Plain(rest)], []);
        NothingParsed(input);
        r := Ok((ranges + [PlainRange(cursor, |input|)], |input|));
      case (None, Some(_)) =>
        r := Err(StrayClose);
      case (Some(open), close) =>
        if close.Some? && close.value < open {
          return Err(StrayClose);
        }
        var end := SecretEnd(input, cursor, open);
        if end.Err? {
          return Err(end.error);
        }
        ghost var front := Parts(input[cursor..cursor + open], input[cursor + open + 4..end.value]);
        var parts := PushDirective(input, ranges, cursor, open, end.value);
        PartsStep(before, front, Parse(input[end.value + 5..]));
        r := Ok((parts, end.value + 5));
    }
  }

  lemma ErrorPasses(front: seq<Part>, r: Result<seq<Part>, DirectiveError>)
    ensures r.Err? ==> InFront(front, r) == r
  {
  }

  lemma NothingParsed(input: bytes)
    ensures Parse(input[|input|..]) == Ok([])
  {
  }

  lemma PartsEnd(front: seq<Part>, later: seq<Part>)
    ensures InFront(front, Ok(later)) == Ok(front + later) && front + [] == front
  {
  }

  /** The secret between an open tag and its close tag ends where this says, if it is one. */
  method SecretEnd(input: bytes, cursor: nat, open: nat) returns (r: Result<nat, DirectiveError>)
    requires cursor <= |input| && Find(input[cursor..], OPEN_TAG) == Some(open)
    requires Find(input[cursor..], CLOSE_TAG).None? || Find(input[cursor..], CLOSE_TAG).value >= open
    ensures r.Err? ==> Parse(input[cursor..]) == Err(r.error)
    ensures r.Ok? ==> cursor + open + 4 <= r.value && r.value + 5 <= |input|
    ensures r.Ok? ==> (
              var parts := Parts(input[cursor..cursor + open], input[cursor + open + 4..r.value]);
              Parse(input[cursor..]) == InFront(parts, Parse(input[r.value + 5..])))
  {
    hide Find, Parse;
    ghost var rest := input[cursor..];
    ParseOpens(rest, open);
    var secretStart := cursor + open + 4;
    assert input[secretStart..] == rest[open + 4..];
    var closeRel := Find(input[secretStart..], CLOSE_TAG);
    if closeRel.None? {
      return Err(Unclosed);
    }
    var secretEnd := secretStart + closeRel.value;
    Offsets(input, cursor, open, closeRel.value);
    var secret := input[secretStart..secretEnd];
    if secret == [] {
      return Err(EmptyDirective);
    }
    if Find(secret, OPEN_TAG).Some? {
      return Err(Nested);
    }
    r := Ok(secretEnd);
  }

  /** The texts at which the parser stops at once. */
  lemma ParseStops(text: bytes)
    requires text != []
    ensures var (open, close) := (Find(text, OPEN_TAG), Find(text, CLOSE_TAG));
            && (open.None? && close.None? ==> Parse(text) == Ok([Plain(text)]))
            && (close.Some? && (open.None? || close.value < open.value) ==> Parse(text) == Err(StrayClose))
  {
  }

  lemma ParseOpens(text: bytes, open: nat)
    requires Find(text, OPEN_TAG) == Some(open)
    requires Find(text, CLOSE_TAG).None? || Find(text, CLOSE_TAG).value >= open
    ensures Parse(text) == ParseSecret(text[..open], text[open + 4..])
  {
  }

  /** The two pushes of a round of the loop: the plain range, unless it is empty, and the secret's. */
  method PushDirective(input: bytes, ranges: seq<ParsedPart>, cursor: nat, open: nat, secretEnd: nat)
    returns (parts: seq<ParsedPart>)
    requires Within(input, ranges) && cursor + open + 4 <= secretEnd <= |input|
    ensures Within(input, parts)
    ensures PartsOf(input, parts)
         == PartsOf(input, ranges) + Parts(input[cursor..cursor + open], input[cursor + open + 4..secretEnd])
  {
    parts := ranges;
    if 0 < open {
      PartsSnoc(input, parts, PlainRange(cursor, cursor + open));
      parts := parts + [PlainRange(cursor, cursor + open)];
    }
    PartsSnoc(input, parts, SecretRange(cursor + open + 4, secretEnd));
    parts := parts + [SecretRange(cursor + open + 4, secretEnd)];
  }

  lemma PartsStart(r: Result<seq<Part>, DirectiveError>)
    ensures InFront([], r) == r
  {
    if r.Ok? {
      assert [] + r.value == r.value;
    }
  }

  lemma PartsStep(before: seq<Part>, front: seq<Part>, later: Result<seq<Part>, DirectiveError>)
    ensures InFront(before, InFront(front, later)) == InFront(before + front, later)
  {
    if later.Ok? {
      Assoc(before, front, later.value);
    }
  }
}
