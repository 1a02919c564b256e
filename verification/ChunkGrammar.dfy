/**
 * The bodies that the chunk reader takes (section 7.1 of RFC 9112), written down without the reader:
 * size lines, chunks, trailers.
 */
module ChunkGrammar {
  import opened Bytes
  import opened ChunkCodec

  // ----- digits

  const LOWER := "0123456789abcdef"
  const UPPER := "0123456789ABCDEF"

  /** `b` is the digit `d`, in either case. */
  predicate Spells(b: byte, d: nat) {
    d < 16 && (b == LOWER[d] as int || b == UPPER[d] as int)
  }

  predicate SpellsAll(text: bytes, digits: seq<nat>) {
    |text| == |digits| && forall i :: 0 <= i < |digits| ==> Spells(text[i], digits[i])
  }

  /** The number with these digits to the base 16, the most significant first. */
  function Positional(digits: seq<nat>): nat {
    if digits == [] then 0 else 16 * Positional(digits[..|digits| - 1]) + digits[|digits| - 1]
  }

  lemma SpelledDigit(b: byte, d: nat)
    requires Spells(b, d)
    ensures DigitValue(b) == Some(d) && b < 0x80 && b != SEMICOLON && b != PLUS && !IsSpace(b)
  {
  }

  lemma DigitSpelled(b: byte)
    requires DigitValue(b).Some?
    ensures Spells(b, DigitValue(b).value)
  {
  }

  lemma {:induction false} SpelledIsParsed(text: bytes, digits: seq<nat>)
    requires SpellsAll(text, digits)
    ensures ParseDigits(text) == if Positional(digits) <= USIZE_MAX then Some(Positional(digits)) else None
    decreases |digits|
  {
    if digits != [] {
      var n := |digits| - 1;
      SpelledIsParsed(text[..n], digits[..n]);
      SpelledDigit(text[n], digits[n]);
      hide DigitValue, Spells;
    }
  }

  lemma {:induction false} ParsedIsSpelled(text: bytes) returns (digits: seq<nat>)
    requires ParseDigits(text).Some?
    ensures SpellsAll(text, digits) && Positional(digits) == ParseDigits(text).value <= USIZE_MAX
    decreases |text|
  {
    if text == [] {
      digits := [];
    } else {
      var n := |text| - 1;
      var front := ParsedIsSpelled(text[..n]);
      DigitSpelled(text[n]);
      var d := DigitValue(text[n]).value;
      hide Spells, DigitValue;
      digits := front + [d];
      assert digits[..n] == front;
    }
  }

  // ----- size lines

  /** Space, tab, line feed, vertical tab, form feed or carriage return. */
  predicate Spaces(text: bytes) {
    forall i :: 0 <= i < |text| ==> text[i] in [32, 9, 10, 11, 12, 13]
  }

  /**
   * White space, maybe a plus sign (the standard has none, the reader takes it), digits, white space,
   * and maybe an extension behind a semicolon.
   */
  datatype SizeLine = SizeLine(before: bytes, plus: bool, digits: bytes, behind: bytes, extension: Option<bytes>) {

    function Text(): bytes {
      before + (if plus then [PLUS] else []) + digits + behind + Tail()
    }

    function Tail(): bytes {
      match extension
      case None => []
      case Some(e) => [SEMICOLON] + e
    }

    /** The line says `n`. */
    ghost predicate Says(n: nat) {
      && Spaces(before) && Spaces(behind) && Utf8(Text()) && n <= USIZE_MAX && digits != []
      && exists ds :: SpellsAll(digits, ds) && Positional(ds) == n
    }
  }

  lemma {:induction false} TrimmedEnd(core: bytes, behind: bytes)
    requires Spaces(behind) && core != [] && !IsSpace(core[|core| - 1])
    ensures TrimEnd(core + behind) == core
    decreases |behind|
  {
    var text := core + behind;
    if behind == [] {
      assert text == core;
    } else {
      assert text[..|text| - 1] == core + behind[..|behind| - 1];
      TrimmedEnd(core, behind[..|behind| - 1]);
    }
  }

  lemma {:induction false} TrimmedStart(before: bytes, core: bytes)
    requires Spaces(before) && core != [] && !IsSpace(core[0])
    ensures TrimStart(before + core) == core
    decreases |before|
  {
    var text := before + core;
    if before == [] {
      assert text == core;
    } else {
      assert text[1..] == before[1..] + core;
      TrimmedStart(before[1..], core);
    }
  }

  predicate Free(text: bytes) {
    forall i :: 0 <= i < |text| ==> text[i] != SEMICOLON
  }

  lemma DigitsFree(digits: bytes, ds: seq<nat>)
    requires SpellsAll(digits, ds)
    ensures Free(digits)
  {
    forall i | 0 <= i < |digits|
      ensures digits[i] != SEMICOLON
    {
      SpelledDigit(digits[i], ds[i]);
    }
  }

  lemma FreeAppend(a: bytes, b: bytes)
    requires Free(a) && Free(b)
    ensures Free(a + b)
  {
  }

  lemma NoSemicolon(line: SizeLine, n: nat)
    requires line.Says(n)
    ensures BeforeSemicolon(line.Text()) == line.before + (if line.plus then [PLUS] else []) + line.digits + line.behind
  {
    var sign := if line.plus then [PLUS] else [];
    var ds :| SpellsAll(line.digits, ds) && Positional(ds) == n;
    DigitsFree(line.digits, ds);
    assert Free(line.before) && Free(sign) && Free(line.behind);
    hide Free, SpellsAll, Positional, Utf8, BeforeSemicolon;
    FreeAppend(line.before, sign);
    FreeAppend(line.before + sign, line.digits);
    FreeAppend(line.before + sign + line.digits, line.behind);
    FirstSemicolon(line.before + sign + line.digits + line.behind, line.Tail());
  }

  lemma FirstSemicolon(front: bytes, tail: bytes)
    requires Free(front)
    requires tail == [] || tail[0] == SEMICOLON
    ensures BeforeSemicolon(front + tail) == front
  {
    var text := front + tail;
    var found := Find(text, [SEMICOLON]);
    if found.Some? {
      OccursFirst(text, found.value, [SEMICOLON]);
    }
    if tail == [] {
      assert text == front;
    } else {
      assert text[|front|..|front| + 1] == [SEMICOLON];
      assert OccursAt(text, |front|, [SEMICOLON]);
    }
  }

  /** The digits of a line, with the plus sign in front of them. */
  lemma CoreOf(line: SizeLine, n: nat) returns (core: bytes)
    requires line.Says(n)
    ensures core == (if line.plus then [PLUS] else []) + line.digits
    ensures !IsSpace(core[0]) && !IsSpace(core[|core| - 1]) && (line.plus <==> core[0] == PLUS)
    ensures ParseDigits(line.digits) == Some(n)
    ensures (if line.plus then core[1..] else core) == line.digits
  {
    hide Utf8, IsSpace, Spells, SpellsAll, Positional, ParseDigits;
    var ds :| SpellsAll(line.digits, ds) && Positional(ds) == n;
    DigitsAlone(line.digits, ds);
    SpelledIsParsed(line.digits, ds);
    core := if line.plus then [PLUS] + line.digits else line.digits;
    assert [] + line.digits == line.digits;
    SignedEnds(line.digits);
  }

  /** No white space and no sign at either end of the digits. */
  lemma DigitsAlone(digits: bytes, ds: seq<nat>)
    requires digits != [] && SpellsAll(digits, ds)
    ensures !IsSpace(digits[0]) && !IsSpace(digits[|digits| - 1]) && digits[0] != PLUS
  {
    SpelledDigit(digits[0], ds[0]);
    SpelledDigit(digits[|ds| - 1], ds[|ds| - 1]);
  }

  lemma SignedEnds(digits: bytes)
    requires digits != []
    ensures var signed := [PLUS] + digits;
            && signed[0] == PLUS && !IsSpace(signed[0]) && signed[|signed| - 1] == digits[|digits| - 1]
            && signed[1..] == digits
  {
  }

  /** A size line is read as the number it says. */
  lemma SizeLineRead(line: SizeLine, n: nat)
    requires line.Says(n)
    ensures ParseChunkLen(line.Text()) == Some(n)
  {
    NoSemicolon(line, n);
    var core := CoreOf(line, n);
    hide Utf8, IsSpace, TrimStart, TrimEnd, BeforeSemicolon, Spells, ParseDigits;
    Padded(line.before, core, line.behind);
    Assoc(line.before, if line.plus then [PLUS] else [], line.digits);
  }

  lemma Padded(before: bytes, core: bytes, behind: bytes)
    requires Spaces(before) && Spaces(behind)
    requires core != [] && !IsSpace(core[0]) && !IsSpace(core[|core| - 1])
    ensures TrimStart(TrimEnd(before + core + behind)) == core
  {
    assert (before + core)[|before + core| - 1] == core[|core| - 1];
    TrimmedEnd(before + core, behind);
    TrimmedStart(before, core);
  }

  lemma {:induction false} EndTrimmed(text: bytes) returns (behind: bytes)
    ensures Spaces(behind) && text == TrimEnd(text) + behind
    decreases |text|
  {
    if text != [] && IsSpace(text[|text| - 1]) {
      var inner := EndTrimmed(text[..|text| - 1]);
      behind := inner + [text[|text| - 1]];
      assert text == text[..|text| - 1] + [text[|text| - 1]];
      Assoc(TrimEnd(text), inner, [text[|text| - 1]]);
    } else {
      behind := [];
    }
  }

  lemma {:induction false} StartTrimmed(text: bytes) returns (before: bytes)
    ensures Spaces(before) && text == before + TrimStart(text)
    decreases |text|
  {
    if text != [] && IsSpace(text[0]) {
      var inner := StartTrimmed(text[1..]);
      before := [text[0]] + inner;
      assert text == [text[0]] + text[1..];
      Assoc([text[0]], inner, TrimStart(text));
    } else {
      before := [];
    }
  }

  lemma SemicolonSplit(text: bytes) returns (extension: Option<bytes>)
    ensures text == BeforeSemicolon(text) + (match extension case None => [] case Some(e) => [SEMICOLON] + e)
  {
    match Find(text, [SEMICOLON]) {
      case None => extension := None;
      case Some(k) =>
        assert text[k..k + 1] == [SEMICOLON];
        extension := Some(text[k + 1..]);
    }
  }

  /** Whatever line is read as a number is a size line that says it. */
  lemma ReadLineSays(text: bytes) returns (line: SizeLine)
    requires ParseChunkLen(text).Some?
    ensures line.Text() == text && line.Says(ParseChunkLen(text).value)
  {
    hide Utf8, TrimStart, TrimEnd, BeforeSemicolon, ParseDigits;
    var extension := SemicolonSplit(text);
    var front := BeforeSemicolon(text);
    var behind := EndTrimmed(front);
    var before := StartTrimmed(TrimEnd(front));
    var core := TrimStart(TrimEnd(front));
    var plus := core[0] == PLUS;
    var digits := if plus then core[1..] else core;
    assert core == (if plus then [PLUS] else []) + digits;
    var ds := ParsedIsSpelled(digits);
    line := SizeLine(before, plus, digits, behind, extension);
    Assoc(before, if plus then [PLUS] else [], digits);
    assert line.Text() == text;
  }

  // ----- bodies

  /** A chunk with its size line. */
  datatype Part = Part(line: bytes, data: bytes)

  /** A line says a size and holds no line end. */
  ghost predicate Sizes(line: bytes, n: nat) {
    !Contains(line, CRLF) && exists l: SizeLine :: l.Text() == line && l.Says(n)
  }

  function PartsText(parts: seq<Part>): bytes {
    if parts == [] then []
    else parts[0].line + CRLF + parts[0].data + CRLF + PartsText(parts[1..])
  }

  function DataOf(parts: seq<Part>): (r: seq<bytes>)
    ensures |r| == |parts| && forall i :: 0 <= i < |r| ==> r[i] == parts[i].data
  {
    seq(|parts|, i requires 0 <= i < |parts| => parts[i].data)
  }

  ghost predicate PartsOk(parts: seq<Part>) {
    forall i :: 0 <= i < |parts| ==> parts[i].data != [] && Sizes(parts[i].line, |parts[i].data|)
  }

  /** Trailer lines, each not empty and without a line end in it, and the empty line. */
  function TrailersText(trailers: seq<bytes>): bytes {
    if trailers == [] then CRLF else trailers[0] + CRLF + TrailersText(trailers[1..])
  }

  ghost predicate TrailersOk(trailers: seq<bytes>) {
    forall i :: 0 <= i < |trailers| ==> trailers[i] != [] && !Contains(trailers[i], CRLF)
  }

  /** A whole body: parts, a size line that says zero, and the trailers. */
  function BodyText(parts: seq<Part>, last: bytes, trailers: seq<bytes>): bytes {
    PartsText(parts) + (last + CRLF + TrailersText(trailers))
  }

  ghost predicate BodyOk(parts: seq<Part>, last: bytes, trailers: seq<bytes>) {
    PartsOk(parts) && Sizes(last, 0) && TrailersOk(trailers)
  }

  /** A line without a line end in it is read up to the line end behind it. */
  lemma LineFound(line: bytes, rest: bytes)
    requires !Contains(line, CRLF)
    ensures var text := line + CRLF + rest;
            Find(text, CRLF) == Some(|line|) && text[..|line|] == line && text[|line| + 2..] == rest
  {
    var text := line + CRLF + rest;
    assert text[|line|..|line| + 2] == CRLF;
    assert OccursAt(text, |line|, CRLF);
    forall k | 0 <= k < |line|
      ensures !OccursAt(text, k, CRLF)
    {
      if k + 2 <= |line| {
        OccursInPrefix(line, text, k, CRLF);
      } else {
        assert text[k + 1] == CR;
        if OccursAt(text, k, CRLF) {
          CrlfSecond(text, k);
        }
      }
    }
  }

  lemma CrlfSecond(text: bytes, k: nat)
    requires OccursAt(text, k, CRLF)
    ensures text[k + 1] == LF
  {
    OccursAtBytes(text, k, CRLF);
    assert text[k + 1] == CRLF[1];
  }

  /** The line before the first line end holds none. */
  lemma LineTaken(text: bytes)
    requires Find(text, CRLF).Some?
    ensures var k := Find(text, CRLF).value;
            !Contains(text[..k], CRLF) && text == text[..k] + CRLF + text[k + 2..]
  {
    var k := Find(text, CRLF).value;
    assert text[k..k + 2] == CRLF;
    forall i
      ensures !OccursAt(text[..k], i, CRLF)
    {
      if OccursAt(text[..k], i, CRLF) {
        OccursInPrefix(text[..k], text, i, CRLF);
      }
    }
  }

  lemma HeadFound(line: bytes, n: nat, rest: bytes)
    requires Sizes(line, n)
    ensures var text := line + CRLF + rest;
            ChunkHead(text) == Some((n, |line| + 2)) && text[|line| + 2..] == rest
  {
    hide Contains, Find, ParseChunkLen;
    LineFound(line, rest);
    var l: SizeLine :| l.Text() == line && l.Says(n);
    SizeLineRead(l, n);
  }

  lemma {:induction false} TrailersSkipped(trailers: seq<bytes>, rest: bytes)
    requires TrailersOk(trailers)
    ensures AfterTrailers(TrailersText(trailers) + rest) == Some(rest)
    decreases |trailers|
  {
    hide Contains, Find;
    if trailers == [] {
      NothingContained(CRLF);
      LineFound([], rest);
      assert [] + CRLF + rest == CRLF + rest;
    } else {
      var later := TrailersText(trailers[1..]) + rest;
      LineFound(trailers[0], later);
      Assoc(trailers[0] + CRLF, TrailersText(trailers[1..]), rest);
      TrailersSkipped(trailers[1..], rest);
    }
  }

  lemma NothingContained(pat: bytes)
    requires pat != []
    ensures !Contains([], pat)
  {
  }

  /** Every body is decoded to its chunks, and what follows it is left. */
  lemma {:induction false} BodyDecoded(parts: seq<Part>, last: bytes, trailers: seq<bytes>, rest: bytes)
    requires BodyOk(parts, last, trailers)
    ensures Decode(BodyText(parts, last, trailers) + rest) == Decoded(DataOf(parts), true, rest)
    decreases |parts|
  {
    hide Sizes, ChunkHead, AfterTrailers, TrailersText;
    var end := last + CRLF + TrailersText(trailers);
    if parts == [] {
      HeadFound(last, 0, TrailersText(trailers) + rest);
      Assoc(last + CRLF, TrailersText(trailers), rest);
      assert [] + end == end;
      TrailersSkipped(trailers, rest);
    } else {
      var p, later := parts[0], BodyText(parts[1..], last, trailers) + rest;
      BodyDecoded(parts[1..], last, trailers, rest);
      var text := BodyText(parts, last, trailers) + rest;
      FirstPart(p, PartsText(parts[1..]), end, rest);
      HeadFound(p.line, |p.data|, p.data + CRLF + later);
      DataFound(p.data, later);
      DecodeStep(text, |p.data|, |p.line| + 2);
      assert DataOf(parts) == [p.data] + DataOf(parts[1..]);
    }
  }

  lemma FirstPart(p: Part, middle: bytes, end: bytes, rest: bytes)
    ensures p.line + CRLF + p.data + CRLF + middle + end + rest
         == p.line + CRLF + (p.data + CRLF + (middle + end + rest))
  {
    Assoc(p.line + CRLF + p.data + CRLF, middle, end);
    Assoc(p.line + CRLF + p.data + CRLF, middle + end, rest);
    Assoc(p.line + CRLF, p.data + CRLF, middle + end + rest);
    Assoc(p.line + CRLF, p.data, CRLF);
  }

  lemma DataFound(data: bytes, later: bytes)
    ensures var text := data + CRLF + later;
            HasChunk(text, |data|) && text[..|data|] == data && text[|data| + 2..] == later
  {
    assert (data + CRLF + later)[|data|..|data| + 2] == CRLF;
  }

  lemma {:induction false} TrailersRead(text: bytes) returns (trailers: seq<bytes>)
    requires AfterTrailers(text).Some?
    ensures TrailersOk(trailers) && text == TrailersText(trailers) + AfterTrailers(text).value
    decreases |text|
  {
    hide Contains, Find;
    LineTaken(text);
    var k := Find(text, CRLF).value;
    var rest := text[k + 2..];
    if k == 0 {
      trailers := [];
      assert text == CRLF + rest;
    } else {
      var later := TrailersRead(rest);
      trailers := [text[..k]] + later;
      assert trailers[1..] == later;
      Assoc(text[..k] + CRLF, TrailersText(later), AfterTrailers(text).value);
    }
  }

  /** Whatever is decoded as complete is such a body. */
  lemma {:induction false} DecodedIsBody(text: bytes) returns (parts: seq<Part>, last: bytes, trailers: seq<bytes>)
    requires Decode(text).complete
    ensures BodyOk(parts, last, trailers) && DataOf(parts) == Decode(text).chunks
    ensures text == BodyText(parts, last, trailers) + Decode(text).rest
    decreases |text|
  {
    hide Decode, ChunkHead, Sizes, BodyOk, BodyText, DataOf;
    CompleteHasHead(text);
    if ChunkHead(text).value.0 == 0 {
      parts := [];
      last, trailers := EndIsBody(text);
    } else {
      var p, later := PartTaken(text);
      var inner;
      inner, last, trailers := DecodedIsBody(later);
      parts := [p] + inner;
      PartInFront(p, later, inner, last, trailers, Decode(later).rest);
    }
  }

  lemma CompleteHasHead(text: bytes)
    requires Decode(text).complete
    ensures ChunkHead(text).Some?
    ensures var (len, at) := ChunkHead(text).value;
            len > 0 ==> HasChunk(text[at..], len)
  {
    hide ChunkHead, AfterTrailers;
  }

  lemma EndIsBody(text: bytes) returns (last: bytes, trailers: seq<bytes>)
    requires Decode(text).complete && ChunkHead(text).value.0 == 0
    ensures BodyOk([], last, trailers) && DataOf([]) == Decode(text).chunks == []
    ensures text == BodyText([], last, trailers) + Decode(text).rest
  {
    hide Sizes, AfterTrailers, TrailersText;
    HeadSizes(text);
    var at := ChunkHead(text).value.1;
    last := text[..at - 2];
    trailers := TrailersRead(text[at..]);
    Assoc(last + CRLF, TrailersText(trailers), Decode(text).rest);
    assert [] + (last + CRLF + TrailersText(trailers)) == last + CRLF + TrailersText(trailers);
  }

  /** The first chunk of a text, and what follows it. */
  lemma PartTaken(text: bytes) returns (p: Part, later: bytes)
    requires ChunkHead(text).Some? && ChunkHead(text).value.0 > 0
    requires HasChunk(text[ChunkHead(text).value.1..], ChunkHead(text).value.0)
    ensures p.data != [] && Sizes(p.line, |p.data|) && |later| < |text|
    ensures text == p.line + CRLF + (p.data + CRLF + later)
    ensures Decode(text) == Preceded(p.data, Decode(later))
  {
    hide Sizes, ChunkHead, Decode;
    var (len, at) := ChunkHead(text).value;
    DecodeStep(text, len, at);
    HeadSizes(text);
    var rest := text[at..];
    p, later := Part(text[..at - 2], rest[..len]), rest[len + 2..];
    assert rest == p.data + CRLF + later;
  }

  /** A chunk in front of a body. */
  lemma PartInFront(p: Part, later: bytes, inner: seq<Part>, last: bytes, trailers: seq<bytes>, rest: bytes)
    requires BodyOk(inner, last, trailers) && later == BodyText(inner, last, trailers) + rest
    requires p.data != [] && Sizes(p.line, |p.data|)
    ensures BodyOk([p] + inner, last, trailers) && DataOf([p] + inner) == [p.data] + DataOf(inner)
    ensures p.line + CRLF + (p.data + CRLF + later) == BodyText([p] + inner, last, trailers) + rest
  {
    hide Sizes, TrailersText;
    assert ([p] + inner)[1..] == inner;
    FirstPart(p, PartsText(inner), last + CRLF + TrailersText(trailers), rest);
  }

  lemma HeadSizes(text: bytes)
    requires ChunkHead(text).Some?
    ensures var (len, at) := ChunkHead(text).value;
            Sizes(text[..at - 2], len) && text == text[..at - 2] + CRLF + text[at..]
  {
    hide ParseChunkLen;
    LineTaken(text);
    var line := ReadLineSays(text[..Find(text, CRLF).value]);
  }
}
