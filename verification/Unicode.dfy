/** What `str::from_utf8` accepts of a chunk's size line (src/proxy/server.rs, `parse_chunk_len`). */
module Unicode {
  import opened Bytes
  import opened ChunkCodec

  /** A code point that is not a surrogate. */
  type Scalar = c: nat | c < 0xD800 || 0xE000 <= c <= 0x10FFFF

  /** Section 3 of RFC 3629. */
  function Encoded(c: Scalar): (r: bytes)
    ensures 1 <= |r| <= 4
  {
    if c < 0x80 then [c]
    else if c < 0x800 then [0xC0 + c / 0x40, 0x80 + c % 0x40]
    else if c < 0x1_0000 then [0xE0 + c / 0x1000, 0x80 + c / 0x40 % 0x40, 0x80 + c % 0x40]
    else [0xF0 + c / 0x4_0000, 0x80 + c / 0x1000 % 0x40, 0x80 + c / 0x40 % 0x40, 0x80 + c % 0x40]
  }

  function EncodedAll(cs: seq<Scalar>): bytes {
    if cs == [] then [] else Encoded(cs[0]) + EncodedAll(cs[1..])
  }

  lemma EncodedFirst(c: Scalar, rest: bytes)
    ensures Utf8(Encoded(c) + rest) <==> Utf8(rest)
  {
    var text := Encoded(c) + rest;
    assert text[|Encoded(c)|..] == rest;
  }

  lemma {:induction false} EncodedIsUtf8(cs: seq<Scalar>)
    ensures Utf8(EncodedAll(cs))
  {
    if cs != [] {
      hide Utf8;
      EncodedIsUtf8(cs[1..]);
      EncodedFirst(cs[0], EncodedAll(cs[1..]));
    } else {
      AsciiIsUtf8([]);
    }
  }

  lemma Two(a: nat, b: nat)
    requires 2 <= a < 0x20 && b < 0x40
    ensures Encoded(a * 0x40 + b) == [0xC0 + a, 0x80 + b]
  {
  }

  lemma Three(a: nat, b: nat, c: nat)
    requires a < 0x10 && b < 0x40 && c < 0x40
    requires (a == 0 ==> b >= 0x20) && (a == 13 ==> b < 0x20)
    ensures Encoded(a * 0x1000 + b * 0x40 + c) == [0xE0 + a, 0x80 + b, 0x80 + c]
  {
  }

  lemma Four(a: nat, b: nat, c: nat, d: nat)
    requires a < 5 && b < 0x40 && c < 0x40 && d < 0x40
    requires (a == 0 ==> b >= 0x10) && (a == 4 ==> b < 0x10)
    ensures Encoded(a * 0x4_0000 + b * 0x1000 + c * 0x40 + d) == [0xF0 + a, 0x80 + b, 0x80 + c, 0x80 + d]
  {
    var n := a * 0x4_0000 + b * 0x1000 + c * 0x40 + d;
    assert n / 0x40 == a * 0x1000 + b * 0x40 + c && n % 0x40 == d;
    assert n / 0x1000 == a * 0x40 + b && n / 0x4_0000 == a;
  }

  /** What a byte carries besides its mark. */
  function Bits(b: int, mark: int): int {
    b - mark
  }

  /** The code point that the text begins with. */
  lemma FirstScalar(text: bytes) returns (c: Scalar)
    requires Utf8(text) && text != []
    ensures Encoded(c) <= text && Utf8(text[|Encoded(c)|..])
  {
    if text[0] < 0x80 {
      c := text[0];
    } else {
      hide Encoded;
      if text[0] <= 0xDF {
        Two(Bits(text[0], 0xC0), Bits(text[1], 0x80));
        c := Bits(text[0], 0xC0) * 0x40 + Bits(text[1], 0x80);
      } else if text[0] <= 0xEF {
        Three(Bits(text[0], 0xE0), Bits(text[1], 0x80), Bits(text[2], 0x80));
        c := Bits(text[0], 0xE0) * 0x1000 + Bits(text[1], 0x80) * 0x40 + Bits(text[2], 0x80);
      } else {
        Four(Bits(text[0], 0xF0), Bits(text[1], 0x80), Bits(text[2], 0x80), Bits(text[3], 0x80));
        c := Bits(text[0], 0xF0) * 0x4_0000 + Bits(text[1], 0x80) * 0x1000 + Bits(text[2], 0x80) * 0x40
             + Bits(text[3], 0x80);
      }
    }
  }

  /** A size line is accepted as text exactly when it is the encoding of some code points. */
  lemma {:induction false} Utf8IsEncoded(text: bytes) returns (cs: seq<Scalar>)
    requires Utf8(text)
    ensures EncodedAll(cs) == text
    decreases |text|
  {
    if text == [] {
      cs := [];
    } else {
      hide Utf8, Encoded;
      var c := FirstScalar(text);
      var rest := Utf8IsEncoded(text[|Encoded(c)|..]);
      cs := [c] + rest;
      assert cs[1..] == rest;
      assert text == Encoded(c) + text[|Encoded(c)|..];
    }
  }
}
