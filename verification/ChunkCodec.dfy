/** The chunked transfer coding (section 7.1 of RFC 9112) as src/proxy/server.rs reads and writes it. */
module ChunkCodec {
  import opened Bytes
  import Placeholder

  const CRLF: bytes := [CR, LF]
  const SEMICOLON: byte := 59
  const PLUS: byte := 43
  const USIZE_MAX: nat := 0xFFFF_FFFF_FFFF_FFFF

  // ----- hexadecimal sizes

  /** `{:x}`. */
  function FormatHex(n: nat): (r: bytes)
    ensures r != []
    ensures forall k :: 0 <= k < |r| ==> 48 <= r[k] <= 57 || 97 <= r[k] <= 102
  {
    if n < 16 then [Placeholder.HexDigit(n)] else FormatHex(n / 16) + [Placeholder.HexDigit(n % 16)]
  }

  function DigitValue(b: byte): (r: Option<nat>)
    ensures r.Some? ==> r.value < 16
  {
    if 48 <= b <= 57 then Some(b - 48)
    else if 97 <= b <= 102 then Some(b - 87)
    else if 65 <= b <= 70 then Some(b - 55)
    else None
  }

  /** One more digit, unless it is no digit or the value leaves the machine word. */
  function AddDigit(acc: Option<nat>, b: byte): Option<nat> {
    match (acc, DigitValue(b))
    case (Some(v), Some(d)) => if v * 16 + d <= USIZE_MAX then Some(v * 16 + d) else None
    case _ => None
  }

  function ParseDigits(digits: bytes): Option<nat> {
    if digits == [] then Some(0) else AddDigit(ParseDigits(digits[..|digits| - 1]), digits[|digits| - 1])
  }

  /** `usize::from_str_radix(_, 16)`: an optional plus sign and at least one digit. */
  function ParseHex(text: bytes): Option<nat> {
    var digits := if text != [] && text[0] == PLUS then text[1..] else text;
    if digits == [] then None else ParseDigits(digits)
  }

  lemma {:induction false} ParseFormatDigits(n: nat)
    requires n <= USIZE_MAX
    ensures ParseDigits(FormatHex(n)) == Some(n)
  {
    var text := FormatHex(n);
    if n >= 16 {
      ParseFormatDigits(n / 16);
      assert text[..|text| - 1] == FormatHex(n / 16);
    } else {
      assert text[..0] == [];
    }
  }

  predicate IsSpace(b: byte) {
    9 <= b <= 13 || b == 32
  }

  function TrimStart(text: bytes): (r: bytes)
    ensures |r| <= |text|
  {
    if text != [] && IsSpace(text[0]) then TrimStart(text[1..]) else text
  }

  function TrimEnd(text: bytes): (r: bytes)
    ensures |r| <= |text|
  {
    if text != [] && IsSpace(text[|text| - 1]) then TrimEnd(text[..|text| - 1]) else text
  }

  function BeforeSemicolon(line: bytes): bytes {
    match Find(line, [SEMICOLON])
    case None => line
    case Some(k) => line[..k]
  }

  /** Well-formed UTF-8, as table 3-7 of the Unicode Standard lists it. */
  predicate Utf8(text: bytes)
    decreases |text|
  {
    if text == [] then true
    else if text[0] < 0x80 then Utf8(text[1..])
    else if |text| >= 2 && 0xC2 <= text[0] <= 0xDF then Tail(text[1]) && Utf8(text[2..])
    else if |text| >= 3 && 0xE0 <= text[0] <= 0xEF then
      && Tail(text[1]) && Tail(text[2])
      && (text[0] == 0xE0 ==> 0xA0 <= text[1])
      && (text[0] == 0xED ==> text[1] <= 0x9F)
      && Utf8(text[3..])
    else if |text| >= 4 && 0xF0 <= text[0] <= 0xF4 then
      && Tail(text[1]) && Tail(text[2]) && Tail(text[3])
      && (text[0] == 0xF0 ==> 0x90 <= text[1])
      && (text[0] == 0xF4 ==> text[1] <= 0x8F)
      && Utf8(text[4..])
    else false
  }

  predicate Tail(b: byte) {
    0x80 <= b <= 0xBF
  }

  /** `parse_chunk_len`. */
  function ParseChunkLen(line: bytes): Option<nat> {
    if !Utf8(line) then None else ParseHex(TrimStart(TrimEnd(BeforeSemicolon(line))))
  }

  lemma {:induction false} AsciiIsUtf8(text: bytes)
    requires forall k :: 0 <= k < |text| ==> text[k] < 0x80
    ensures Utf8(text)
  {
    if text != [] {
      AsciiIsUtf8(text[1..]);
    }
  }

  /** A size line as it is written is read back. */
  lemma SizeLineRoundTrip(n: nat)
    requires n <= USIZE_MAX
    ensures ParseChunkLen(FormatHex(n)) == Some(n)
  {
    var line := FormatHex(n);
    AsciiIsUtf8(line);
    if Find(line, [SEMICOLON]).Some? {
      OccursFirst(line, Find(line, [SEMICOLON]).value, [SEMICOLON]);
    }
    assert TrimEnd(line) == line && TrimStart(line) == line;
    ParseFormatDigits(n);
  }

  // ----- decoding

  /** The chunks read in full, whether the body was complete, and what follows it if it was. */
  datatype Decoded = Decoded(chunks: seq<bytes>, complete: bool, rest: bytes)

  /** After the lines up to an empty one, if there is one. */
  function AfterTrailers(text: bytes): (r: Option<bytes>)
    decreases |text|
  {
    match Find(text, CRLF)
    case None => None
    case Some(k) => if k == 0 then Some(text[2..]) else AfterTrailers(text[k + 2..])
  }

  /** The size of the chunk that begins the text, and where its data begins. */
  function ChunkHead(text: bytes): (r: Option<(nat, nat)>)
    ensures r.Some? ==> 2 <= r.value.1 <= |text|
  {
    match Find(text, CRLF)
    case None => None
    case Some(k) =>
      match ParseChunkLen(text[..k])
      case None => None
      case Some(len) => Some((len, k + 2))
  }

  /** The text begins with `len` bytes of data and their delimiter. */
  predicate HasChunk(text: bytes, len: nat) {
    len + 2 <= |text| && text[len..len + 2] == CRLF
  }

  function Preceded(chunk: bytes, later: Decoded): Decoded {
    later.(chunks := [chunk] + later.chunks)
  }

  function Decode(text: bytes): Decoded
    decreases |text|
  {
    match ChunkHead(text)
    case None => Decoded([], false, [])
    case Some((len, at)) =>
      if len == 0 then
        match AfterTrailers(text[at..])
        case None => Decoded([], false, [])
        case Some(rest) => Decoded([], true, rest)
      else if HasChunk(text[at..], len) then Preceded(text[at..][..len], Decode(text[at..][len + 2..]))
      else Decoded([], false, [])
  }

  // ----- encoding

  const LAST_CHUNK: bytes := [48, CR, LF, CR, LF]

  /** `write_http_chunk`: nothing at all for an empty chunk. */
  function Wire(chunk: bytes): bytes {
    if chunk == [] then [] else FormatHex(|chunk|) + CRLF + chunk + CRLF
  }

  function WireAll(chunks: seq<bytes>): bytes {
    if chunks == [] then [] else Wire(chunks[0]) + WireAll(chunks[1..])
  }

  lemma {:induction false} WireAllAppend(a: seq<bytes>, b: seq<bytes>)
    ensures WireAll(a + b) == WireAll(a) + WireAll(b)
  {
    hide Wire;
    if a == [] {
      assert a + b == b;
    } else {
      WireAllAppend(a[1..], b);
      assert (a + b)[0] == a[0] && (a + b)[1..] == a[1..] + b;
      Assoc(Wire(a[0]), WireAll(a[1..]), WireAll(b));
    }
  }

  function NonEmpty(chunks: seq<bytes>): (r: seq<bytes>)
    ensures forall c :: c in r ==> c != []
  {
    if chunks == [] then []
    else if chunks[0] == [] then NonEmpty(chunks[1..])
    else [chunks[0]] + NonEmpty(chunks[1..])
  }

  lemma {:induction false} FlattenNonEmpty(chunks: seq<bytes>)
    ensures Flatten(NonEmpty(chunks)) == Flatten(chunks)
  {
    if chunks != [] {
      FlattenNonEmpty(chunks[1..]);
    }
  }

  lemma HexHasNoCrlf(n: nat, tail: bytes)
    ensures Find(FormatHex(n) + CRLF + tail, CRLF) == Some(|FormatHex(n)|)
  {
    var hex := FormatHex(n);
    var text := hex + CRLF + tail;
    assert text[|hex|..|hex| + 2] == CRLF;
    assert OccursAt(text, |hex|, CRLF);
    forall k | 0 <= k < |hex|
      ensures !OccursAt(text, k, CRLF)
    {
      assert text[k] == hex[k];
      if OccursAt(text, k, CRLF) {
        OccursFirst(text, k, CRLF);
      }
    }
  }

  /** The head of a written chunk is read as its size. */
  lemma HeadRoundTrip(n: nat, tail: bytes)
    requires n <= USIZE_MAX
    ensures ChunkHead(FormatHex(n) + CRLF + tail) == Some((n, |FormatHex(n)| + 2))
  {
    HexHasNoCrlf(n, tail);
    assert (FormatHex(n) + CRLF + tail)[..|FormatHex(n)|] == FormatHex(n);
    SizeLineRoundTrip(n);
  }

  lemma DecodeWire(chunk: bytes, tail: bytes)
    requires 0 < |chunk| <= USIZE_MAX
    ensures Decode(Wire(chunk) + tail) == Preceded(chunk, Decode(tail))
  {
    hide Decode, ChunkHead, FormatHex;
    var hex := FormatHex(|chunk|);
    HeadRoundTrip(|chunk|, chunk + CRLF + tail);
    WireParts(hex, chunk, tail);
    DecodeStep(Wire(chunk) + tail, |chunk|, |hex| + 2);
  }

  lemma WireParts(hex: bytes, chunk: bytes, tail: bytes)
    ensures var text, rest := hex + CRLF + chunk + CRLF + tail, chunk + CRLF + tail;
            && text == hex + CRLF + rest
            && text[|hex| + 2..] == rest
            && HasChunk(rest, |chunk|) && rest[..|chunk|] == chunk && rest[|chunk| + 2..] == tail
  {
    var text, rest := hex + CRLF + chunk + CRLF + tail, chunk + CRLF + tail;
    assert text == hex + CRLF + rest;
  }

  lemma DecodeStep(text: bytes, len: nat, at: nat)
    requires ChunkHead(text) == Some((len, at)) && len > 0 && HasChunk(text[at..], len)
    ensures Decode(text) == Preceded(text[at..][..len], Decode(text[at..][len + 2..]))
  {
    hide ChunkHead, AfterTrailers, Preceded;
  }

  lemma DecodeLast()
    ensures Decode(LAST_CHUNK) == Decoded([], true, [])
  {
    var line: bytes := FormatHex(0);
    assert LAST_CHUNK == line + CRLF + CRLF;
    HeadRoundTrip(0, CRLF);
    assert LAST_CHUNK[3..] == CRLF;
    assert OccursAt(CRLF, 0, CRLF);
    assert Find(CRLF, CRLF) == Some(0);
  }

  /**
   * A written body is well formed: it decodes to its non-empty chunks, no size of zero comes before
   * the end, and nothing is left behind the end.
   */
  lemma {:induction false} DecodeWireAll(chunks: seq<bytes>)
    requires forall i :: 0 <= i < |chunks| ==> |chunks[i]| <= USIZE_MAX
    ensures Decode(WireAll(chunks) + LAST_CHUNK) == Decoded(NonEmpty(chunks), true, [])
  {
    if chunks == [] {
      assert [] + LAST_CHUNK == LAST_CHUNK;
      DecodeLast();
    } else {
      DecodeWireAll(chunks[1..]);
      Assoc(Wire(chunks[0]), WireAll(chunks[1..]), LAST_CHUNK);
      var tail := WireAll(chunks[1..]) + LAST_CHUNK;
      if chunks[0] == [] {
        assert [] + tail == tail;
      } else {
        DecodeWire(chunks[0], tail);
      }
    }
  }

  /** Without the last chunk a written body is not complete; its chunks are all there. */
  lemma {:induction false} DecodeUnfinished(chunks: seq<bytes>)
    requires forall i :: 0 <= i < |chunks| ==> |chunks[i]| <= USIZE_MAX
    ensures Decode(WireAll(chunks)) == Decoded(NonEmpty(chunks), false, [])
  {
    if chunks == [] {
      assert Find([], CRLF).None?;
    } else {
      DecodeUnfinished(chunks[1..]);
      var tail := WireAll(chunks[1..]);
      if chunks[0] == [] {
        assert [] + tail == tail;
      } else {
        DecodeWire(chunks[0], tail);
      }
    }
  }
}
