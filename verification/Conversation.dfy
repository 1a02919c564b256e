/**
 * The conversation sanitizer (src/sanitize.rs): every secret is replaced by random text of its own
 * length, and a secret keeps the replacement it got first.
 */
module Conversation {
  import opened Bytes
  import opened Registry
  import opened Span
  import opened Scanner
  import opened RoundTrip
  import opened Directive
  import opened DirectiveText

  const ALPHABET_LEN: nat := 62
  const SMALL_A: byte := 97
  const SMALL_B: byte := 98

  /** The random numbers in the order in which they are drawn. Nothing is assumed about them. */
  type Draws = nat -> nat

  /** The replacement alphabet: small letters, capital letters, digits. */
  function Letter(i: nat): (b: byte)
    requires i < ALPHABET_LEN
    ensures LetterOrDigit(b)
  {
    if i < 26 then 97 + i else if i < 52 then 65 + (i - 26) else 48 + (i - 52)
  }

  predicate LetterOrDigit(b: byte) {
    97 <= b <= 122 || 65 <= b <= 90 || 48 <= b <= 57
  }

  predicate FromAlphabet(text: bytes) {
    forall i :: 0 <= i < |text| ==> LetterOrDigit(text[i])
  }

  /** `random_ascii`: the text made from `len` draws. */
  function RandomAscii(draws: Draws, at: nat, len: nat): (text: bytes)
    ensures |text| == len && FromAlphabet(text)
  {
    if len == 0 then [] else RandomAscii(draws, at, len - 1) + [Letter(draws(at + len - 1) % ALPHABET_LEN)]
  }

  // ----- the replacement of one secret

  /** What was drawn in the end, and how far the draws went: a text equal to the secret is drawn again. */
  function Redrawn(draws: Draws, at: nat, original: bytes, tries: nat): (r: (bytes, nat))
    ensures |r.0| == |original| && FromAlphabet(r.0)
    decreases tries
  {
    var text := RandomAscii(draws, at, |original|);
    if tries == 0 || text != original then (text, at + |original|)
    else Redrawn(draws, at + |original|, original, tries - 1)
  }

  /** The last way out: another first byte. */
  function Tweaked(text: bytes, original: bytes): (r: bytes)
    ensures |r| == |text|
  {
    if text == original && text != [] then text[0 := if text[0] == SMALL_A then SMALL_B else SMALL_A] else text
  }

  /** A replacement for `original`, and how far the draws then went. */
  function Replacement(draws: Draws, at: nat, original: bytes): (r: (bytes, nat))
    ensures |r.0| == |original|
  {
    var (text, drawn) := Redrawn(draws, at, original, 8);
    (Tweaked(text, original), drawn)
  }

  /** The replacements so far, and how many numbers were drawn for them. */
  datatype Memo = Memo(replacements: map<nat, bytes>, drawn: nat)

  const NO_REPLACEMENTS := Memo(map[], 0)

  /** The memo once `id` has a replacement. */
  function Remembered(draws: Draws, m: Memo, es: seq<Entry>, id: nat): Memo
    requires 1 <= id <= |es|
  {
    if id in m.replacements then m
    else
      var (text, drawn) := Replacement(draws, m.drawn, es[id - 1].secret);
      Memo(m.replacements[id := text], drawn)
  }

  predicate KnownSpans(spans: seq<RedactionSpan>, es: seq<Entry>) {
    forall i :: 0 <= i < |spans| ==> 1 <= spans[i].id <= |es|
  }

  function RememberedAll(draws: Draws, m: Memo, es: seq<Entry>, spans: seq<RedactionSpan>): Memo
    requires KnownSpans(spans, es)
    decreases |spans|
  {
    if spans == [] then m else RememberedAll(draws, Remembered(draws, m, es, spans[0].id), es, spans[1..])
  }

  // ----- what replacements are like

  /** Each replacement is as long as its secret, differs from it, and is made of letters and digits. */
  ghost predicate MemoSound(m: Memo, es: seq<Entry>) {
    forall id :: id in m.replacements ==> (
      && 1 <= id <= |es|
      && |m.replacements[id]| == |es[id - 1].secret|
      && m.replacements[id] != es[id - 1].secret
      && FromAlphabet(m.replacements[id]))
  }

  /** No replacement was changed or forgotten. */
  ghost predicate Extends(m: Memo, more: Memo) {
    forall id :: id in m.replacements ==> id in more.replacements && more.replacements[id] == m.replacements[id]
  }

  lemma ReplacementDiffers(draws: Draws, at: nat, original: bytes)
    requires original != []
    ensures var text := Replacement(draws, at, original).0;
            text != original && FromAlphabet(text)
  {
    var text := Redrawn(draws, at, original, 8).0;
    var r := Tweaked(text, original);
    if text == original {
      assert r[0] != original[0];
    }
  }

  const SMALL := "abcdefghijklmnopqrstuvwxyz"
  const CAPITAL := "ABCDEFGHIJKLMNOPQRSTUVWXYZ"
  const DIGITS := "0123456789"
  const ALPHABET := SMALL + CAPITAL + DIGITS

  lemma InSmall(i: nat)
    requires i < 26
    ensures |SMALL| == 26 && SMALL[i] as int == 97 + i
  {
  }

  lemma InCapital(i: nat)
    requires i < 26
    ensures |CAPITAL| == 26 && CAPITAL[i] as int == 65 + i
  {
  }

  lemma InDigits(i: nat)
    requires i < 10
    ensures |DIGITS| == 10 && DIGITS[i] as int == 48 + i
  {
  }

  lemma LetterIs(i: nat)
    requires i < ALPHABET_LEN
    ensures |ALPHABET| == ALPHABET_LEN && Letter(i) == ALPHABET[i] as int
  {
    InSmall(i % 26);
    InCapital(i % 26);
    InDigits(i % 10);
    if i < 26 {
    } else if i < 52 {
      InCapital(i - 26);
    } else {
      InDigits(i - 52);
    }
  }

  /** Every byte is the letter that its own draw picks. */
  lemma {:induction false} RandomAt(draws: Draws, at: nat, len: nat, k: nat)
    requires k < len
    ensures RandomAscii(draws, at, len)[k] == ALPHABET[draws(at + k) % ALPHABET_LEN] as int
  {
    hide Letter;
    if k == len - 1 {
      LetterIs(draws(at + k) % ALPHABET_LEN);
    } else {
      RandomAt(draws, at, len - 1, k);
    }
  }

  /** The `t`-th text drawn. */
  function Drawn(draws: Draws, at: nat, len: nat, t: nat): bytes {
    RandomAscii(draws, at + t * len, len)
  }

  /** The first `t` texts drawn are all the secret itself. */
  ghost predicate AllDrawn(draws: Draws, at: nat, original: bytes, t: nat) {
    forall k :: 0 <= k < t ==> Drawn(draws, at, |original|, k) == original
  }

  lemma {:induction false} RedrawnIsFirst(draws: Draws, at: nat, original: bytes, tries: nat) returns (t: nat)
    ensures t <= tries && AllDrawn(draws, at, original, t)
    ensures Redrawn(draws, at, original, tries) == (Drawn(draws, at, |original|, t), at + (t + 1) * |original|)
    ensures Drawn(draws, at, |original|, t) == original ==> t == tries
    decreases tries
  {
    hide RandomAscii, Drawn, FromAlphabet;
    var len := |original|;
    DrawnFirst(draws, at, len);
    if tries == 0 || RandomAscii(draws, at, len) != original {
      t := 0;
    } else {
      var later := RedrawnIsFirst(draws, at + len, original, tries - 1);
      t := later + 1;
      DrawnLater(draws, at, len, later);
      AllDrawnLater(draws, at, original, later);
    }
  }

  lemma AllDrawnLater(draws: Draws, at: nat, original: bytes, later: nat)
    requires Drawn(draws, at, |original|, 0) == original && AllDrawn(draws, at + |original|, original, later)
    ensures AllDrawn(draws, at, original, later + 1)
  {
    hide Drawn;
    forall k | 0 <= k < later + 1
      ensures Drawn(draws, at, |original|, k) == original
    {
      if k > 0 {
        DrawnLater(draws, at, |original|, k - 1);
      }
    }
  }

  lemma DrawnFirst(draws: Draws, at: nat, len: nat)
    ensures Drawn(draws, at, len, 0) == RandomAscii(draws, at, len)
  {
  }

  lemma DrawnLater(draws: Draws, at: nat, len: nat, k: nat)
    ensures Drawn(draws, at + len, len, k) == Drawn(draws, at, len, k + 1)
    ensures at + len + (k + 1) * len == at + (k + 2) * len
  {
    assert (k + 1) * len == k * len + len && (k + 2) * len == k * len + len + len;
  }

  /**
   * The replacement is the first of nine texts drawn that differs from the secret; when none does it is the
   * secret with its first byte made `a`, or `b` if it is `a`.
   */
  lemma ReplacementDrawn(draws: Draws, at: nat, original: bytes) returns (t: nat)
    requires original != []
    ensures t <= 8 && AllDrawn(draws, at, original, t)
    ensures Replacement(draws, at, original).1 == at + (t + 1) * |original|
    ensures var (text, last) := (Replacement(draws, at, original).0, Drawn(draws, at, |original|, t));
            if last != original then text == last
            else t == 8 && text == original[0 := if original[0] == 'a' as int then 'b' as int else 'a' as int]
  {
    t := RedrawnIsFirst(draws, at, original, 8);
  }

  lemma NonEmptySecret(keys: SessionKeys, es: seq<Entry>, id: nat)
    requires WellFormed(keys, es) && 1 <= id <= |es|
    ensures es[id - 1].secret != []
  {
    assert EntryOk(keys, es[id - 1], id);
  }

  lemma RememberedProperty(keys: SessionKeys, draws: Draws, m: Memo, es: seq<Entry>, id: nat)
    requires WellFormed(keys, es) && MemoSound(m, es) && 1 <= id <= |es|
    ensures var m' := Remembered(draws, m, es, id);
            MemoSound(m', es) && Extends(m, m') && id in m'.replacements
  {
    hide Replacement, FromAlphabet, EntryOk;
    NonEmptySecret(keys, es, id);
    ReplacementDiffers(draws, m.drawn, es[id - 1].secret);
  }

  lemma ExtendsTwice(a: Memo, b: Memo, c: Memo)
    requires Extends(a, b) && Extends(b, c)
    ensures Extends(a, c)
  {
  }

  lemma ExtendsAt(a: Memo, b: Memo, id: nat)
    requires Extends(a, b) && id in a.replacements
    ensures id in b.replacements && b.replacements[id] == a.replacements[id]
  {
  }

  lemma {:induction false} RememberedAllProperty(
      keys: SessionKeys, draws: Draws, m: Memo, es: seq<Entry>, spans: seq<RedactionSpan>)
    requires WellFormed(keys, es) && MemoSound(m, es) && KnownSpans(spans, es)
    ensures var m' := RememberedAll(draws, m, es, spans);
            && MemoSound(m', es) && Extends(m, m')
            && forall i :: 0 <= i < |spans| ==> spans[i].id in m'.replacements
    decreases |spans|
  {
    if spans != [] {
      hide Remembered, MemoSound, Extends, WellFormed;
      var m1 := Remembered(draws, m, es, spans[0].id);
      RememberedProperty(keys, draws, m, es, spans[0].id);
      RememberedAllProperty(keys, draws, m1, es, spans[1..]);
      ExtendsTwice(m, m1, RememberedAll(draws, m, es, spans));
      ExtendsAt(m1, RememberedAll(draws, m, es, spans), spans[0].id);
    }
  }

  // ----- the text with its replacements

  predicate Covered(spans: seq<RedactionSpan>, m: Memo) {
    forall i :: 0 <= i < |spans| ==> spans[i].id in m.replacements
  }

  /** The text from `cursor` on, with each span replaced. */
  function Replaced(text: bytes, cursor: nat, spans: seq<RedactionSpan>, m: Memo): bytes
    requires Fits(text, cursor, spans) && Covered(spans, m)
    decreases |spans|
  {
    if spans == [] then text[cursor..]
    else text[cursor..spans[0].start] + m.replacements[spans[0].id] + Replaced(text, spans[0].End(), spans[1..], m)
  }

  /** Every span is as long as what replaces it. */
  predicate SameLengths(spans: seq<RedactionSpan>, m: Memo)
    requires Covered(spans, m)
  {
    forall i :: 0 <= i < |spans| ==> |m.replacements[spans[i].id]| == spans[i].len
  }

  predicate Outside(spans: seq<RedactionSpan>, i: nat) {
    forall k :: 0 <= k < |spans| ==> i < spans[k].start || spans[k].End() <= i
  }

  /** The length stays, every byte outside the spans stays, and each span holds its replacement. */
  ghost predicate InPlace(text: bytes, out: bytes, cursor: nat, spans: seq<RedactionSpan>, m: Memo)
    requires Fits(text, cursor, spans) && Covered(spans, m)
  {
    && |out| == |text| - cursor
    && (forall i :: cursor <= i < |text| && Outside(spans, i) ==> out[i - cursor] == text[i])
    && (forall k :: 0 <= k < |spans| ==> OccursAt(out, spans[k].start - cursor, m.replacements[spans[k].id]))
  }

  lemma {:induction false} ReplacedInPlace(text: bytes, cursor: nat, spans: seq<RedactionSpan>, m: Memo)
    requires Fits(text, cursor, spans) && Covered(spans, m) && SameLengths(spans, m)
    ensures InPlace(text, Replaced(text, cursor, spans, m), cursor, spans, m)
    decreases |spans|
  {
    if spans != [] {
      var s, rest := spans[0], spans[1..];
      assert Fits(text, s.End(), rest);
      ReplacedInPlace(text, s.End(), rest, m);
      InPlaceStep(text, cursor, spans, m, Replaced(text, s.End(), rest, m));
    }
  }

  lemma InPlaceStep(text: bytes, cursor: nat, spans: seq<RedactionSpan>, m: Memo, tail: bytes)
    requires spans != [] && Fits(text, cursor, spans) && Covered(spans, m) && SameLengths(spans, m)
    requires Fits(text, spans[0].End(), spans[1..]) && InPlace(text, tail, spans[0].End(), spans[1..], m)
    ensures InPlace(text, text[cursor..spans[0].start] + m.replacements[spans[0].id] + tail, cursor, spans, m)
  {
    var s, rest, r := spans[0], spans[1..], m.replacements[spans[0].id];
    var gap := text[cursor..s.start];
    var out := gap + r + tail;
    assert |gap + r| == s.End() - cursor;
    forall i | cursor <= i < |text| && Outside(spans, i)
      ensures out[i - cursor] == text[i]
    {
      assert i < spans[0].start || spans[0].End() <= i;
      if spans[0].End() <= i {
        assert forall k :: 0 <= k < |rest| ==> rest[k] == spans[k + 1];
        assert Outside(rest, i);
        assert out[i - cursor] == tail[i - s.End()];
      }
    }
    forall k | 0 <= k < |spans|
      ensures OccursAt(out, spans[k].start - cursor, m.replacements[spans[k].id])
    {
      if k == 0 {
        assert out[s.start - cursor..s.start - cursor + |r|] == r;
      } else {
        assert rest[k - 1] == spans[k];
        OccursInRight(gap + r, tail, spans[k].start - cursor, m.replacements[spans[k].id]);
      }
    }
  }

  // ----- the spans of a text

  /** A span without its placeholder: the sanitizer's own spans have none. */
  function Bare(s: RedactionSpan): RedactionSpan {
    s.(placeholder := [])
  }

  function Bares(spans: seq<RedactionSpan>): (r: seq<RedactionSpan>)
    ensures |r| == |spans| && forall i :: 0 <= i < |r| ==> r[i] == Bare(spans[i])
  {
    seq(|spans|, i requires 0 <= i < |spans| => Bare(spans[i]))
  }

  /** The scan's spans, in a text that may also be searched for the placeholders of directives. */
  function AllSpans(text: bytes, es: seq<Entry>, marks: seq<DirectivePart>): seq<RedactionSpan> {
    Bares(Scan(text, es)) + MarkSpans(text, marks)
  }

  /** Every place where the placeholder of a directive stands. */
  function MarkSpans(text: bytes, marks: seq<DirectivePart>): seq<RedactionSpan>
    decreases |marks|
  {
    if marks == [] then []
    else if marks[0].PlainPart? then MarkSpans(text, marks[1..])
    else PlacesOf(text, marks[0].placeholder, marks[0].id, 0) + MarkSpans(text, marks[1..])
  }

  /** `find_bytes`, from `from` on, as spans. */
  function PlacesOf(text: bytes, pat: bytes, id: nat, from: nat): (r: seq<RedactionSpan>)
    ensures forall s :: s in r <==> s.len == |pat| && s.id == id && s.placeholder == [] && s.start >= from
                                    && pat != [] && OccursAt(text, s.start, pat)
    decreases |text| - from
  {
    if pat == [] || from + |pat| > |text| then []
    else
      (if OccursAt(text, from, pat) then [RedactionSpan(from, |pat|, id, [])] else [])
      + PlacesOf(text, pat, id, from + 1)
  }

  /** A span that lies in the text, has length and names an entry. */
  predicate Sound(text: bytes, es: seq<Entry>, s: RedactionSpan) {
    s.len > 0 && s.End() <= |text| && 1 <= s.id <= |es| && s.placeholder == []
  }

  lemma {:induction false} MarkSpansSound(text: bytes, es: seq<Entry>, parts: seq<Part>, marks: seq<DirectivePart>)
    requires AllMarked(es, parts, marks)
    ensures forall s :: s in MarkSpans(text, marks) ==> Sound(text, es, s)
    decreases |marks|
  {
    if marks != [] {
      assert Marked(es, parts[0], marks[0]);
      assert forall i :: 0 <= i < |marks[1..]| ==> Marked(es, parts[1..][i], marks[1..][i]);
      MarkSpansSound(text, es, parts[1..], marks[1..]);
    }
  }

  lemma ScanSound(keys: SessionKeys, text: bytes, es: seq<Entry>)
    requires WellFormed(keys, es)
    ensures forall s :: s in Bares(Scan(text, es)) ==> Sound(text, es, s)
  {
    hide Scan, EntryOk;
    var spans := Scan(text, es);
    ScanIsChoice(keys, text, es);
    OccurrencesProper(keys, text, es);
    forall s | s in Bares(spans)
      ensures Sound(text, es, s)
    {
      var i :| 0 <= i < |spans| && s == Bare(spans[i]);
      assert spans[i] in Occurrences(text, es);
    }
  }

  /** Sound spans are told apart by start, length and id, so the greedy choice among them is proper. */
  lemma SoundChoice(text: bytes, es: seq<Entry>, spans: seq<RedactionSpan>)
    requires forall s :: s in spans ==> Sound(text, es, s)
    ensures Proper(Elements(spans)) && IsChoice(Elements(spans), Select(spans))
    ensures Fits(text, 0, Select(spans)) && KnownSpans(Select(spans), es)
  {
    SelectIsChoice(spans);
    var chosen := Select(spans);
    forall i | 0 <= i < |chosen|
      ensures chosen[i].End() <= |text| && 1 <= chosen[i].id <= |es|
    {
      assert chosen[i] in Elements(spans) && Sound(text, es, chosen[i]);
    }
  }

  /** Choosing again among the scan's spans changes nothing. */
  lemma ScanChosenAgain(keys: SessionKeys, text: bytes, es: seq<Entry>)
    requires WellFormed(keys, es)
    ensures Select(Bares(Scan(text, es))) == Bares(Scan(text, es))
  {
    hide Scan, Select, Proper, Sound;
    var spans := Bares(Scan(text, es));
    ScanIsChoice(keys, text, es);
    ScanSound(keys, text, es);
    SoundChoice(text, es, spans);
    assert forall i :: 0 <= i < |spans| ==> spans[i] in spans;
    assert IsChoice(Elements(spans), spans);
    hide IsChoice;
    ChoiceUnique(Elements(spans), Select(spans), spans);
  }

  /** In the scan's spans every replacement has the length of its span. */
  lemma ScanSameLengths(keys: SessionKeys, text: bytes, es: seq<Entry>, m: Memo)
    requires WellFormed(keys, es) && MemoSound(m, es) && Covered(Bares(Scan(text, es)), m)
    ensures SameLengths(Bares(Scan(text, es)), m)
  {
    hide Scan, FromAlphabet;
    ScanTrueSpans(keys, text, es);
    var spans := Scan(text, es);
    forall i | 0 <= i < |spans|
      ensures |m.replacements[Bares(spans)[i].id]| == Bares(spans)[i].len
    {
      TrueSpan(keys, text, es, spans[i]);
    }
  }

  // ----- a text and its directives

  /** What matches of the credential patterns a text has. The patterns themselves are not modelled. */
  type Patterns = bytes -> seq<(Label, bytes)>

  datatype Habits = Habits(keys: SessionKeys, draws: Draws, patterns: Patterns)

  datatype SanitizerState = SanitizerState(es: seq<Entry>, memo: Memo)

  ghost predicate GoodState(h: Habits, s: SanitizerState) {
    WellFormed(h.keys, s.es) && MemoSound(s.memo, s.es)
  }

  /** The entries once every match is ingested, in order; an empty match is refused and ends it. */
  function AfterMatches(keys: SessionKeys, es: seq<Entry>, matches: seq<(Label, bytes)>): (seq<Entry>, bool)
    decreases |matches|
  {
    if matches == [] then (es, true)
    else match Ingested(keys, es, matches[0].0, matches[0].1)
      case Err(_) => (es, false)
      case Ok((more, _)) => AfterMatches(keys, more, matches[1..])
  }

  lemma {:induction false} AfterMatchesProperty(keys: SessionKeys, es: seq<Entry>, matches: seq<(Label, bytes)>)
    requires WellFormed(keys, es)
    ensures WellFormed(keys, AfterMatches(keys, es, matches).0) && es <= AfterMatches(keys, es, matches).0
    decreases |matches|
  {
    if matches != [] && matches[0].1 != [] {
      IngestedProperty(keys, es, matches[0].0, matches[0].1);
      AfterMatchesProperty(keys, Ingested(keys, es, matches[0].0, matches[0].1).value.0, matches[1..]);
    }
  }

  function MarkOf(es: seq<Entry>, part: Part): DirectivePart
    requires HoldsTagged(es, [part])
  {
    match part
    case Plain(text) => PlainPart(text)
    case Secret(secret) =>
      assert [part][0] == part;
      SecretPart(es[IdOf(es, secret) - 1].placeholder, IdOf(es, secret))
  }

  function MarksOf(es: seq<Entry>, parts: seq<Part>): (marks: seq<DirectivePart>)
    requires HoldsTagged(es, parts)
    ensures AllMarked(es, parts, marks)
  {
    seq(|parts|, i requires 0 <= i < |parts| => MarkOf(es, parts[i]))
  }

  lemma MarksUnique(es: seq<Entry>, parts: seq<Part>, marks: seq<DirectivePart>)
    requires AllMarked(es, parts, marks)
    ensures HoldsTagged(es, parts) && marks == MarksOf(es, parts)
  {
    MarkedHolds(es, parts, marks);
    assert forall i :: 0 <= i < |marks| ==> Marked(es, parts[i], marks[i]) && Marked(es, parts[i], MarksOf(es, parts)[i]);
  }

  /** The text with placeholders where the directives were. */
  function NormalText(marks: seq<DirectivePart>): bytes
    decreases |marks|
  {
    if marks == [] then []
    else (match marks[0]
          case PlainPart(text) => text
          case SecretPart(placeholder, _) => placeholder)
         + NormalText(marks[1..])
  }

  /** `normalize_directives`: the text to scan, and the directives in it. */
  datatype Normal = Normal(es: seq<Entry>, text: bytes, marks: seq<DirectivePart>)

  ghost function Normalized(keys: SessionKeys, es: seq<Entry>, text: bytes): Normal
    requires WellFormed(keys, es) && Parse(text).Ok?
  {
    var parts := Parse(text).value;
    if !HasSecret(parts) then Normal(es, text, [])
    else
      var more := EntriesAfter(keys, es, text);
      ParsedIsTagged(text);
      RegisteredProperty(keys, es, parts);
      Normal(more, NormalText(MarksOf(more, parts)), MarksOf(more, parts))
  }

  lemma NormalizedProperty(keys: SessionKeys, es: seq<Entry>, text: bytes)
    requires WellFormed(keys, es) && Parse(text).Ok?
    ensures var n := Normalized(keys, es, text);
            && WellFormed(keys, n.es) && es <= n.es
            && (n.marks == [] || AllMarked(n.es, Parse(text).value, n.marks))
            && n.es == EntriesAfter(keys, es, text)
  {
    ParsedIsTagged(text);
    RegisteredProperty(keys, es, Parse(text).value);
    if !HasSecret(Parse(text).value) {
      NothingRegistered(keys, es, Parse(text).value);
    }
  }

  /** The spans that `sanitize_text` replaces, given the normalized text and the entries after matching. */
  function TextChoice(n: Normal, es: seq<Entry>): seq<RedactionSpan> {
    Select(AllSpans(n.text, es, n.marks))
  }

  lemma TextChoiceSound(keys: SessionKeys, n: Normal, parts: seq<Part>, es: seq<Entry>)
    requires WellFormed(keys, es) && n.es <= es
    requires n.marks == [] || AllMarked(n.es, parts, n.marks)
    ensures Fits(n.text, 0, TextChoice(n, es)) && KnownSpans(TextChoice(n, es), es)
    ensures IsChoice(Elements(AllSpans(n.text, es, n.marks)), TextChoice(n, es))
  {
    hide Scan, Select, AllMarked, Sound;
    ScanSound(keys, n.text, es);
    if n.marks != [] {
      MarkedStable(n.es, es, parts, n.marks);
      MarkSpansSound(n.text, es, parts, n.marks);
    }
    SoundChoice(n.text, es, AllSpans(n.text, es, n.marks));
  }

  // ----- runs

  datatype Call = Ingest(name: Label, secret: bytes) | ExactBytes(text: bytes) | Text(text: bytes)

  /** The session after a call. */
  ghost function AfterCall(h: Habits, s: SanitizerState, call: Call): SanitizerState
    requires GoodState(h, s)
  {
    match call
    case Ingest(name, secret) => s.(es := AfterMatches(h.keys, s.es, [(name, secret)]).0)
    case ExactBytes(text) =>
      ScanSound(h.keys, text, s.es);
      SoundChoice(text, s.es, Bares(Scan(text, s.es)));
      s.(memo := RememberedAll(h.draws, s.memo, s.es, Select(Bares(Scan(text, s.es)))))
    case Text(text) =>
      if Parse(text).Err? then s
      else
        NormalizedProperty(h.keys, s.es, text);
        var n := Normalized(h.keys, s.es, text);
        var (es, ok) := AfterMatches(h.keys, n.es, h.patterns(n.text));
        if !ok then s.(es := es)
        else
          AfterMatchesProperty(h.keys, n.es, h.patterns(n.text));
          TextChoiceSound(h.keys, n, Parse(text).value, es);
          SanitizerState(es, RememberedAll(h.draws, s.memo, es, TextChoice(n, es)))
  }

  lemma MemoStable(m: Memo, es: seq<Entry>, more: seq<Entry>)
    requires MemoSound(m, es) && es <= more
    ensures MemoSound(m, more)
  {
  }

  /** Every call keeps what the replacements are like and changes none of them. */
  lemma CallKeeps(h: Habits, s: SanitizerState, call: Call)
    requires GoodState(h, s)
    ensures var s' := AfterCall(h, s, call);
            GoodState(h, s') && s.es <= s'.es && Extends(s.memo, s'.memo)
  {
    hide MemoSound, Scan, Select, RememberedAll, WellFormed;
    match call {
      case Ingest(name, secret) =>
        AfterMatchesProperty(h.keys, s.es, [(name, secret)]);
        MemoStable(s.memo, s.es, AfterCall(h, s, call).es);
      case ExactBytes(text) =>
        ScanSound(h.keys, text, s.es);
        SoundChoice(text, s.es, Bares(Scan(text, s.es)));
        RememberedAllProperty(h.keys, h.draws, s.memo, s.es, Select(Bares(Scan(text, s.es))));
      case Text(text) =>
        if Parse(text).Ok? {
          TextCallKeeps(h, s, text);
        }
    }
  }

  lemma TextCallKeeps(h: Habits, s: SanitizerState, text: bytes)
    requires GoodState(h, s) && Parse(text).Ok?
    ensures var s' := AfterCall(h, s, Text(text));
            GoodState(h, s') && s.es <= s'.es && Extends(s.memo, s'.memo)
  {
    hide MemoSound, Select, RememberedAll, WellFormed, Parse, Normalized, TextChoice;
    NormalizedProperty(h.keys, s.es, text);
    var n := Normalized(h.keys, s.es, text);
    AfterMatchesProperty(h.keys, n.es, h.patterns(n.text));
    var es := AfterMatches(h.keys, n.es, h.patterns(n.text)).0;
    MemoStable(s.memo, s.es, es);
    TextChoiceSound(h.keys, n, Parse(text).value, es);
    RememberedAllProperty(h.keys, h.draws, s.memo, es, TextChoice(n, es));
  }

  ghost function AfterCalls(h: Habits, calls: seq<Call>): (s: SanitizerState)
    ensures GoodState(h, s)
    decreases |calls|
  {
    if calls == [] then SanitizerState([], NO_REPLACEMENTS)
    else
      var s := AfterCalls(h, calls[..|calls| - 1]);
      CallKeeps(h, s, calls[|calls| - 1]);
      AfterCall(h, s, calls[|calls| - 1])
  }

  /**
   * Across any sequence of calls a secret that has a replacement keeps it: it has the length of the
   * secret, differs from it, and is the same after any further calls.
   */
  lemma {:induction false} OneReplacementEach(h: Habits, calls: seq<Call>, more: seq<Call>)
    ensures Extends(AfterCalls(h, calls).memo, AfterCalls(h, calls + more).memo)
    ensures AfterCalls(h, calls).es <= AfterCalls(h, calls + more).es
    ensures MemoSound(AfterCalls(h, calls + more).memo, AfterCalls(h, calls + more).es)
    decreases |more|
  {
    if more == [] {
      assert calls + more == calls;
    } else {
      hide AfterCalls, MemoSound, Extends, AfterCall, WellFormed, GoodState;
      var front, last := more[..|more| - 1], more[|more| - 1];
      assert more == front + [last];
      OneReplacementEach(h, calls, front);
      var before := calls + front;
      AfterOneMore(h, before, last);
      Assoc(calls, front, [last]);
      ExtendsTwice(AfterCalls(h, calls).memo, AfterCalls(h, calls + front).memo, AfterCalls(h, calls + more).memo);
    }
  }

  lemma AfterOneMore(h: Habits, calls: seq<Call>, call: Call)
    ensures var s := AfterCalls(h, calls);
            var s' := AfterCalls(h, calls + [call]);
            && s' == AfterCall(h, s, call)
            && MemoSound(s'.memo, s'.es) && s.es <= s'.es && Extends(s.memo, s'.memo)
  {
    hide AfterCall, MemoSound, Extends;
    assert (calls + [call])[..|calls|] == calls;
    CallKeeps(h, AfterCalls(h, calls), call);
  }

  // ----- what a call gives out

  /** The output of `sanitize_bytes_exact` in a session. */
  ghost function ExactOutput(h: Habits, s: SanitizerState, text: bytes): (bytes, seq<RedactionSpan>)
    requires GoodState(h, s)
  {
    ScanSound(h.keys, text, s.es);
    var spans := Select(Bares(Scan(text, s.es)));
    SoundChoice(text, s.es, Bares(Scan(text, s.es)));
    RememberedAllProperty(h.keys, h.draws, s.memo, s.es, spans);
    (Replaced(text, 0, spans, AfterCall(h, s, ExactBytes(text)).memo), spans)
  }

  /**
   * On bytes the spans are the scan's; the length and every byte outside them stay, and each span
   * holds the one replacement of its secret.
   */
  lemma BytesInPlace(h: Habits, calls: seq<Call>, text: bytes)
    ensures var s := AfterCalls(h, calls);
            var (out, spans) := ExactOutput(h, s, text);
            && spans == Bares(Scan(text, s.es)) && Fits(text, 0, spans)
            && Covered(spans, AfterCall(h, s, ExactBytes(text)).memo)
            && InPlace(text, out, 0, spans, AfterCall(h, s, ExactBytes(text)).memo)
  {
    var s := AfterCalls(h, calls);
    hide AfterCalls, Scan, InPlace, MemoSound;
    ScanInPlace(h, s, text, s.es);
  }

  lemma ScanInPlace(h: Habits, s: SanitizerState, text: bytes, es: seq<Entry>)
    requires WellFormed(h.keys, es) && MemoSound(s.memo, es)
    ensures var spans := Bares(Scan(text, es));
            && Select(spans) == spans && Fits(text, 0, spans) && KnownSpans(spans, es)
            && var m := RememberedAll(h.draws, s.memo, es, spans);
            && Covered(spans, m)
            && InPlace(text, Replaced(text, 0, spans, m), 0, spans, m)
  {
    hide Scan, InPlace, MemoSound, Select, WellFormed;
    var spans := Bares(Scan(text, es));
    ScanChosenAgain(h.keys, text, es);
    ScanSound(h.keys, text, es);
    SoundChoice(text, es, spans);
    RememberedAllProperty(h.keys, h.draws, s.memo, es, spans);
    var m := RememberedAll(h.draws, s.memo, es, spans);
    ScanSameLengths(h.keys, text, es, m);
    ReplacedInPlace(text, 0, spans, m);
  }

  lemma TextCovered(h: Habits, s: SanitizerState, text: bytes)
    requires GoodState(h, s) && Parse(text).Ok?
    requires AfterMatches(h.keys, Normalized(h.keys, s.es, text).es, h.patterns(Normalized(h.keys, s.es, text).text)).1
    ensures var n := Normalized(h.keys, s.es, text);
            var es := AfterMatches(h.keys, n.es, h.patterns(n.text)).0;
            Fits(n.text, 0, TextChoice(n, es)) && Covered(TextChoice(n, es), AfterCall(h, s, Text(text)).memo)
  {
    hide Parse, Normalized, TextChoice, MemoSound, WellFormed, RememberedAll, AfterMatches, AllMarked, Fits,
         KnownSpans, Extends;
    NormalizedProperty(h.keys, s.es, text);
    var n := Normalized(h.keys, s.es, text);
    var es := AfterMatches(h.keys, n.es, h.patterns(n.text)).0;
    AfterMatchesProperty(h.keys, n.es, h.patterns(n.text));
    TextChoiceSound(h.keys, n, Parse(text).value, es);
    MemoStable(s.memo, s.es, es);
    RememberedAllProperty(h.keys, h.draws, s.memo, es, TextChoice(n, es));
  }

  /** The output of `sanitize_text`, unless the directives or a match are refused. */
  ghost function TextOutput(h: Habits, s: SanitizerState, text: bytes): (bytes, seq<RedactionSpan>)
    requires GoodState(h, s) && Parse(text).Ok?
    requires AfterMatches(h.keys, Normalized(h.keys, s.es, text).es, h.patterns(Normalized(h.keys, s.es, text).text)).1
  {
    var n := Normalized(h.keys, s.es, text);
    var es := AfterMatches(h.keys, n.es, h.patterns(n.text)).0;
    TextCovered(h, s, text);
    (Replaced(n.text, 0, TextChoice(n, es), AfterCall(h, s, Text(text)).memo), TextChoice(n, es))
  }

  /** The same for a text without directives, with the scan made after its matches were registered. */
  lemma TextInPlace(h: Habits, calls: seq<Call>, text: bytes)
    requires Parse(text).Ok? && !HasSecret(Parse(text).value)
    requires AfterMatches(h.keys, AfterCalls(h, calls).es, h.patterns(text)).1
    ensures var s := AfterCalls(h, calls);
            var (out, spans) := TextOutput(h, s, text);
            var s' := AfterCall(h, s, Text(text));
            && spans == Bares(Scan(text, s'.es)) && Fits(text, 0, spans)
            && Covered(spans, s'.memo)
            && InPlace(text, out, 0, spans, s'.memo)
  {
    var s := AfterCalls(h, calls);
    hide AfterCalls, Scan, InPlace, MemoSound, Select;
    AfterMatchesProperty(h.keys, s.es, h.patterns(text));
    var es := AfterMatches(h.keys, s.es, h.patterns(text)).0;
    MemoStable(s.memo, s.es, es);
    var n := Normalized(h.keys, s.es, text);
    assert n == Normal(s.es, text, []);
    assert AllSpans(text, es, []) == Bares(Scan(text, es));
    ScanInPlace(h, s, text, es);
  }
}
