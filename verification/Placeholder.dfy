/** Placeholder text (src/secrets/placeholder.rs) and label cleaning (src/secrets/registry.rs). */
module Placeholder {
  import opened Bytes

  /** The 32-byte output of the keyed MAC. */
  type Mac = m: bytes | |m| == 32 witness seq(32, _ => 0)

  predicate IsLabelByte(b: byte) {
    || 48 <= b <= 57
    || 65 <= b <= 90
    || 97 <= b <= 122
    || b == 95
    || b == 45
  }

  function CleanChar(c: char): (b: byte)
    ensures IsLabelByte(b)
  {
    if c < 128 as char && IsLabelByte(c as byte) then c as byte else 95
  }

  function CleanChars(name: string): (r: bytes)
    ensures |r| == |name|
    ensures forall k :: 0 <= k < |r| ==> IsLabelByte(r[k])
  {
    if name == "" then [] else [CleanChar(name[0])] + CleanChars(name[1..])
  }

  /** `SecretLabel::new`: never empty and only label bytes. */
  function SecretLabel(name: string): (r: bytes)
    ensures r != []
    ensures forall k :: 0 <= k < |r| ==> IsLabelByte(r[k])
  {
    var cleaned := CleanChars(name);
    if cleaned == [] then Ascii("SECRET") else cleaned
  }

  function HexDigit(d: int): (b: byte)
    requires 0 <= d < 16
    ensures 48 <= b <= 57 || 97 <= b <= 102
  {
    if d < 10 then 48 + d else 87 + d
  }

  function HexEncode(data: bytes): (r: bytes)
    ensures |r| == 2 * |data|
    ensures forall k :: 0 <= k < |r| ==> 48 <= r[k] <= 57 || 97 <= r[k] <= 102
  {
    if data == [] then []
    else [HexDigit(data[0] / 16), HexDigit(data[0] % 16)] + HexEncode(data[1..])
  }

  /** Everything between the two braces at each end. */
  function Body(name: bytes, mac: Mac): bytes {
    Ascii("CREBRO_SECRET:v1:") + name + Ascii(":s_") + HexEncode(mac[..6])
  }

  /** `Placeholder::new`, for the MAC of the label and the digest. */
  function NewPlaceholder(name: bytes, mac: Mac): bytes {
    [LBRACE, LBRACE] + Body(name, mac) + [RBRACE, RBRACE]
  }

  predicate NotBrace(b: byte) {
    b != LBRACE && b != RBRACE
  }

  predicate BraceFree(text: bytes) {
    forall k :: 0 <= k < |text| ==> NotBrace(text[k])
  }

  /** The brace shape: two opening braces, a non-empty brace-free body, two closing braces. */
  predicate Shaped(p: bytes) {
    && |p| >= 5
    && p[0] == p[1] == LBRACE
    && p[|p| - 2] == p[|p| - 1] == RBRACE
    && forall k :: 2 <= k < |p| - 2 ==> NotBrace(p[k])
  }

  lemma NewPlaceholderShaped(name: bytes, mac: Mac)
    requires forall k :: 0 <= k < |name| ==> IsLabelByte(name[k])
    ensures Shaped(NewPlaceholder(name, mac))
  {
    var head, mid, hex := Ascii("CREBRO_SECRET:v1:"), Ascii(":s_"), HexEncode(mac[..6]);
    assert BraceFree(head) && BraceFree(name) && BraceFree(mid) && BraceFree(hex);
    var body := Body(name, mac);
    forall k | 0 <= k < |body|
      ensures NotBrace(body[k])
    {
      if |head| <= k < |head| + |name| {
        assert body[k] == name[k - |head|];
      }
    }
    var p := NewPlaceholder(name, mac);
    forall k | 2 <= k < |p| - 2
      ensures NotBrace(p[k])
    {
      assert p[k] == body[k - 2];
    }
  }

  // ----- what is written in it

  /** The characters of a label that are kept. */
  predicate Kept(c: char) {
    'a' <= c <= 'z' || 'A' <= c <= 'Z' || '0' <= c <= '9' || c == '_' || c == '-'
  }

  /** A label is the name with every other character replaced by `_`; an empty name gives `SECRET`. */
  lemma {:induction false} LabelOfName(name: string)
    ensures |CleanChars(name)| == |name|
    ensures forall k :: 0 <= k < |name| ==> CleanChars(name)[k] == (if Kept(name[k]) then name[k] else '_') as int
    ensures name != "" ==> SecretLabel(name) == CleanChars(name)
    ensures SecretLabel("") == Ascii("SECRET")
  {
    if name != "" {
      LabelOfName(name[1..]);
    }
  }

  const HEX_DIGITS := "0123456789abcdef"

  /** Two digits for a byte, the higher one first. */
  lemma {:induction false} HexEncodeAt(data: bytes, k: nat)
    requires k < |data|
    ensures HexEncode(data)[2 * k] == HEX_DIGITS[data[k] / 16] as int
    ensures HexEncode(data)[2 * k + 1] == HEX_DIGITS[data[k] % 16] as int
  {
    hide HexDigit;
    if k > 0 {
      HexEncodeAt(data[1..], k - 1);
    } else {
      HexDigitIs(data[0] / 16);
      HexDigitIs(data[0] % 16);
    }
  }

  lemma HexDigitIs(d: nat)
    requires d < 16
    ensures HexDigit(d) == HEX_DIGITS[d] as int
  {
  }

  lemma SameHexDigit(a: nat, b: nat)
    requires a < 16 && b < 16 && HEX_DIGITS[a] == HEX_DIGITS[b]
    ensures a == b
  {
  }

  lemma HexTellsApart(a: bytes, b: bytes)
    requires HexEncode(a) == HexEncode(b)
    ensures a == b
  {
    assert |a| == |b|;
    forall k | 0 <= k < |a|
      ensures a[k] == b[k]
    {
      HexEncodeAt(a, k);
      HexEncodeAt(b, k);
      SameHexDigit(a[k] / 16, b[k] / 16);
      SameHexDigit(a[k] % 16, b[k] % 16);
    }
  }

  /** The fixed texts, the label and the first six bytes of the MAC stand in this order. */
  lemma PlaceholderRead(name: bytes, mac: Mac)
    ensures var p := NewPlaceholder(name, mac);
            && |p| == |name| + 36
            && p[..19] == Ascii("{{CREBRO_SECRET:v1:")
            && p[19..19 + |name|] == name
            && p[19 + |name|..22 + |name|] == Ascii(":s_")
            && p[22 + |name|..34 + |name|] == HexEncode(mac[..6])
            && p[34 + |name|..] == Ascii("}}")
  {
    hide HexEncode;
    FixedTexts();
    FivePieces(Ascii("{{CREBRO_SECRET:v1:"), name, Ascii(":s_"), HexEncode(mac[..6]), Ascii("}}"));
    InBraces(Ascii("CREBRO_SECRET:v1:"), name, Ascii(":s_"), HexEncode(mac[..6]));
  }

  lemma FixedTexts()
    ensures Ascii("{{CREBRO_SECRET:v1:") == [LBRACE, LBRACE] + Ascii("CREBRO_SECRET:v1:")
    ensures Ascii("}}") == [RBRACE, RBRACE]
  {
  }

  lemma InBraces(head: bytes, name: bytes, mid: bytes, hex: bytes)
    ensures [LBRACE, LBRACE] + (head + name + mid + hex) + [RBRACE, RBRACE]
         == ([LBRACE, LBRACE] + head) + name + mid + hex + [RBRACE, RBRACE]
  {
  }

  lemma FivePieces(a: bytes, b: bytes, c: bytes, d: bytes, e: bytes)
    ensures var p := a + b + c + d + e;
            && p[..|a|] == a && p[|a|..|a| + |b|] == b && p[|a| + |b|..|a| + |b| + |c|] == c
            && p[|a| + |b| + |c|..|a| + |b| + |c| + |d|] == d && p[|a| + |b| + |c| + |d|..] == e
  {
  }

  /** Equal placeholders were made for one label and for MACs that begin with the same six bytes. */
  lemma PlaceholderTellsApart(name: bytes, mac: Mac, name2: bytes, mac2: Mac)
    ensures NewPlaceholder(name, mac) == NewPlaceholder(name2, mac2) <==> name == name2 && mac[..6] == mac2[..6]
  {
    PlaceholderRead(name, mac);
    PlaceholderRead(name2, mac2);
    if NewPlaceholder(name, mac) == NewPlaceholder(name2, mac2) {
      HexTellsApart(mac[..6], mac2[..6]);
    }
  }

  /**
   * Two placeholder occurrences in one text coincide or share no byte; in particular no
   * placeholder is a proper substring of another.
   */
  lemma NoPartialOverlap(text: bytes, i: int, p: bytes, j: int, q: bytes)
    requires Shaped(p) && Shaped(q)
    requires OccursAt(text, i, p) && OccursAt(text, j, q)
    ensures i == j ==> p == q
    ensures i < j ==> i + |p| <= j
    ensures j < i ==> j + |q| <= i
  {
    if i < j {
      NoOverlapAhead(text, i, p, j, q);
    } else if j < i {
      NoOverlapAhead(text, j, q, i, p);
    } else if |p| < |q| {
      SameStart(text, i, p, q);
    } else if |q| < |p| {
      SameStart(text, i, q, p);
    }
  }

  lemma NoOverlapAhead(text: bytes, i: int, p: bytes, j: int, q: bytes)
    requires Shaped(p) && Shaped(q)
    requires OccursAt(text, i, p) && OccursAt(text, j, q) && i < j
    ensures i + |p| <= j
  {
    OccursAtBytes(text, i, p);
    OccursAtBytes(text, j, q);
    assert text[j + 0] == text[j + 1] == LBRACE;
    assert text[i + 2] == p[2];
    forall k | i + 2 <= k < i + |p|
      ensures text[k] != LBRACE
    {
      assert text[i + (k - i)] == p[k - i];
    }
  }

  lemma SameStart(text: bytes, i: int, p: bytes, q: bytes)
    requires Shaped(p) && Shaped(q)
    requires OccursAt(text, i, p) && OccursAt(text, i, q)
    ensures |p| >= |q|
  {
    OccursAtBytes(text, i, p);
    OccursAtBytes(text, i, q);
  }
}
