/**
 * WebSocket frames (src/proxy/websocket.rs, `read_frame` and `write_frame`; sections 5.2 and 5.3 of
 * RFC 6455). The bit operations of headers and masks are written out on bytes.
 */
module WsFrame {
  import opened Bytes

  const MAX_TEXT_MESSAGE_BYTES: nat := 16 * 1024 * 1024

  type Mask = m: bytes | |m| == 4 witness [0, 0, 0, 0]

  datatype Frame = Frame(fin: bool, opcode: byte, payload: bytes)

  // ----- bits

  /** `b & 0x80 != 0`. */
  predicate TopBit(b: byte) {
    b >= 0x80
  }

  /** `b & 0x7f`. */
  function LowSeven(b: byte): byte {
    b % 0x80
  }

  /** `b & 0x0f`. */
  function LowFour(b: byte): byte {
    b % 0x10
  }

  /** `0x80 | b` when the bit is to be set, and `b` when not. */
  function WithTopBit(on: bool, b: byte): byte {
    if on && b < 0x80 then 0x80 + b else b
  }

  /** The low `width` bits of `a ^ b`. */
  function Xor(a: nat, b: nat, width: nat): (r: nat)
    decreases width
  {
    if width == 0 then 0 else (a % 2 + b % 2) % 2 + 2 * Xor(a / 2, b / 2, width - 1)
  }

  function Power2(width: nat): nat {
    if width == 0 then 1 else 2 * Power2(width - 1)
  }

  lemma Halves(low: nat, half: nat)
    requires low < 2
    ensures (low + 2 * half) / 2 == half && (low + 2 * half) % 2 == low
  {
  }

  lemma {:induction false} XorTwice(a: nat, b: nat, width: nat)
    requires a < Power2(width)
    ensures Xor(a, b, width) < Power2(width) && Xor(Xor(a, b, width), b, width) == a
    decreases width
  {
    if width > 0 {
      XorTwice(a / 2, b / 2, width - 1);
      var low, half := (a % 2 + b % 2) % 2, Xor(a / 2, b / 2, width - 1);
      Halves(low, half);
      assert Xor(low + 2 * half, b, width) == (low + b % 2) % 2 + 2 * Xor(half, b / 2, width - 1);
    }
  }

  /** `a ^ b` on bytes. */
  function XorByte(a: byte, b: byte): byte {
    EightBits();
    XorTwice(a, b, 8);
    Xor(a, b, 8)
  }

  lemma EightBits()
    ensures Power2(8) == 256
  {
    assert Power2(4) == 16;
  }

  /** Bit `k` of `n`, counted from the least significant one. */
  predicate Bit(n: nat, k: nat) {
    if k == 0 then n % 2 == 1 else Bit(n / 2, k - 1)
  }

  /** Each bit of the result is set exactly when it differs in the two. */
  lemma {:induction false} XorBits(a: nat, b: nat, width: nat, k: nat)
    requires k < width
    ensures Bit(Xor(a, b, width), k) <==> Bit(a, k) != Bit(b, k)
    decreases width
  {
    var low, half := (a % 2 + b % 2) % 2, Xor(a / 2, b / 2, width - 1);
    Halves(low, half);
    if k > 0 {
      XorBits(a / 2, b / 2, width - 1, k - 1);
    }
  }

  lemma XorByteTwice(a: byte, b: byte)
    ensures XorByte(XorByte(a, b), b) == a
  {
    EightBits();
    XorTwice(a, b, 8);
  }

  // ----- masking

  /** What masking makes of a payload. */
  function Masked(payload: bytes, mask: Mask): (r: bytes)
    ensures |r| == |payload|
  {
    seq(|payload|, i requires 0 <= i < |payload| => XorByte(payload[i], mask[i % 4]))
  }

  /** Masking flips exactly the bits that are set in the key byte of the position modulo four. */
  lemma MaskedBits(payload: bytes, mask: Mask, i: nat, k: nat)
    requires i < |payload| && k < 8
    ensures Bit(Masked(payload, mask)[i], k) <==> Bit(payload[i], k) != Bit(mask[i % 4], k)
  {
    XorBits(payload[i], mask[i % 4], 8, k);
  }

  /** Masking twice with one key changes nothing (section 5.3 of RFC 6455). */
  lemma MaskedTwice(payload: bytes, mask: Mask)
    ensures Masked(Masked(payload, mask), mask) == payload
  {
    forall i | 0 <= i < |payload|
      ensures Masked(Masked(payload, mask), mask)[i] == payload[i]
    {
      XorByteTwice(payload[i], mask[i % 4]);
    }
  }

  /** `apply_mask`, in place. */
  method ApplyMask(payload: array<byte>, mask: Mask)
    modifies payload
    ensures payload[..] == Masked(old(payload[..]), mask)
    ensures forall i, k :: 0 <= i < payload.Length && 0 <= k < 8 ==> (
              Bit(payload[i], k) <==> Bit(old(payload[i]), k) != Bit(mask[i % 4], k))
  {
    for index := 0 to payload.Length
      invariant payload[..index] == Masked(old(payload[..]), mask)[..index]
      invariant payload[index..] == old(payload[..])[index..]
    {
      assert payload[index] == payload[index..][0];
      payload[index] := XorByte(payload[index], mask[index % 4]);
      assert payload[..index + 1] == payload[..index] + [payload[index]];
    }
    assert payload[..] == payload[..payload.Length];
    hide Bit, Masked;
    forall i, k | 0 <= i < payload.Length && 0 <= k < 8
      ensures Bit(payload[i], k) <==> Bit(old(payload[i]), k) != Bit(mask[i % 4], k)
    {
      MaskedBits(old(payload[..]), mask, i, k);
      assert payload[i] == payload[..][i] && old(payload[i]) == old(payload[..])[i];
    }
  }

  // ----- lengths

  /** `to_be_bytes` of a `width`-byte word. */
  function BigEndian(n: nat, width: nat): (r: bytes)
    ensures |r| == width
    decreases width
  {
    if width == 0 then [] else BigEndian(n / 256, width - 1) + [n % 256]
  }

  /** `from_be_bytes`. */
  function BigEndianValue(data: bytes): nat {
    if data == [] then 0 else 256 * BigEndianValue(data[..|data| - 1]) + data[|data| - 1]
  }

  function Power256(width: nat): nat {
    if width == 0 then 1 else 256 * Power256(width - 1)
  }

  lemma {:induction false} BigEndianRoundTrip(n: nat, width: nat)
    requires n < Power256(width)
    ensures BigEndianValue(BigEndian(n, width)) == n
    decreases width
  {
    if width > 0 {
      BigEndianRoundTrip(n / 256, width - 1);
      var data := BigEndian(n, width);
      assert data[..|data| - 1] == BigEndian(n / 256, width - 1);
    }
  }

  // ----- writing

  /** A four-bit opcode and a payload that a reader takes. */
  predicate Sendable(frame: Frame) {
    frame.opcode < 0x10 && |frame.payload| <= MAX_TEXT_MESSAGE_BYTES
  }

  /** The length field and its extension, with the mask bit. */
  function LengthField(n: nat, masked: bool): bytes {
    if n < 126 then [WithTopBit(masked, n)]
    else if n <= 0xFFFF then [WithTopBit(masked, 126)] + BigEndian(n, 2)
    else [WithTopBit(masked, 127)] + BigEndian(n, 8)
  }

  /** `write_frame`, for the mask key that was drawn when the frame is to be masked. */
  function WriteFrame(frame: Frame, mask: Option<Mask>): bytes {
    [WithTopBit(frame.fin, frame.opcode)]
    + LengthField(|frame.payload|, mask.Some?)
    + (match mask
       case Some(key) => key + Masked(frame.payload, key)
       case None => frame.payload)
  }

  /** `write_frame`, which builds the bytes step by step; `mask` is the key drawn at random. */
  method BuildFrame(fin: bool, opcode: byte, payload: bytes, mask: Option<Mask>) returns (out: bytes)
    ensures out == WriteFrame(Frame(fin, opcode, payload), mask)
  {
    hide BigEndian, Masked;
    out := [WithTopBit(fin, opcode)];
    if |payload| < 126 {
      out := out + [WithTopBit(mask.Some?, |payload|)];
    } else if |payload| <= 0xFFFF {
      out := out + [WithTopBit(mask.Some?, 126)];
      out := out + BigEndian(|payload|, 2);
    } else {
      out := out + [WithTopBit(mask.Some?, 127)];
      out := out + BigEndian(|payload|, 8);
    }
    ghost var head := out;
    assert head == [WithTopBit(fin, opcode)] + LengthField(|payload|, mask.Some?);
    if mask.Some? {
      out := out + mask.value;
      var copy := new byte[|payload|](i requires 0 <= i < |payload| => payload[i]);
      assert copy[..] == payload;
      ApplyMask(copy, mask.value);
      out := out + copy[..];
      assert out == head + (mask.value + Masked(payload, mask.value));
    } else {
      out := out + payload;
    }
  }

  // ----- reading

  /** The end of the stream before a frame, a refused frame, or a frame and what follows it. */
  datatype ReadResult = Eof | Refused | Got(frame: Frame, rest: bytes)

  /** The payload length and where the length field ends, if the field is there in full. */
  function ReadLength(text: bytes): (r: Option<(nat, nat)>)
    requires |text| >= 2
    ensures r.Some? ==> 2 <= r.value.1 <= |text|
  {
    var len := LowSeven(text[1]);
    if len == 126 then
      if |text| < 4 then None else Some((BigEndianValue(text[2..4]), 4))
    else if len == 127 then
      if |text| < 10 then None else Some((BigEndianValue(text[2..10]), 10))
    else Some((len, 2))
  }

  /** `read_frame` over all bytes still to come. */
  function ReadFrameFrom(text: bytes, expectMasked: bool): ReadResult {
    if |text| < 2 then Eof
    else if TopBit(text[1]) != expectMasked then Refused
    else
      var length := ReadLength(text);
      if length.None? || length.value.0 > MAX_TEXT_MESSAGE_BYTES then Refused
      else
        ReadBody(TopBit(text[0]), LowFour(text[0]), text[length.value.1..], length.value.0, expectMasked)
  }

  /** The mask key, when there is one, and the payload. */
  function ReadBody(fin: bool, opcode: byte, text: bytes, len: nat, masked: bool): ReadResult {
    var skip := if masked then 4 else 0;
    if |text| < skip + len then Refused
    else
      var payload := text[skip..skip + len];
      Got(Frame(fin, opcode, if masked then Masked(payload, text[..4]) else payload), text[skip + len..])
  }

  class FrameReader {
    var data: bytes

    constructor (data: bytes)
      ensures this.data == data
    {
      this.data := data;
    }

    /** `read_exact`. */
    method ReadExact(n: nat) returns (r: Option<bytes>)
      modifies this
      ensures if n <= |old(data)| then r == Some(old(data)[..n]) && data == old(data)[n..] else r == None
    {
      if |data| < n {
        return None;
      }
      r := Some(data[..n]);
      data := data[n..];
    }

    /** The extended length, if `short` announces one. */
    method ReadExtension(short: nat) returns (len: Option<nat>)
      modifies this
      ensures short < 126 ==> len == Some(short) && data == old(data)
      ensures short == 126 ==>
                if |old(data)| < 2 then len == None
                else len == Some(BigEndianValue(old(data)[..2])) && data == old(data)[2..]
      ensures short > 126 ==>
                if |old(data)| < 8 then len == None
                else len == Some(BigEndianValue(old(data)[..8])) && data == old(data)[8..]
    {
      hide BigEndianValue;
      if short < 126 {
        return Some(short);
      }
      var ext := ReadExact(if short == 126 then 2 else 8);
      len := if ext.None? then None else Some(BigEndianValue(ext.value));
    }

    /** The mask key, if there is one, and the payload, which is unmasked in place. */
    method ReadPayload(fin: bool, opcode: byte, len: nat, masked: bool) returns (r: ReadResult)
      modifies this
      ensures r == ReadBody(fin, opcode, old(data), len, masked)
      ensures r.Got? ==> data == r.rest
    {
      ghost var text := data;
      var mask: bytes := [0, 0, 0, 0];
      if masked {
        var key := ReadExact(4);
        if key.None? {
          return Refused;
        }
        mask := key.value;
      }
      ghost var skip := if masked then 4 else 0;
      var raw := ReadExact(len);
      if raw.None? {
        return Refused;
      }
      assert raw.value == text[skip..skip + len] && data == text[skip + len..];
      var payload := new byte[len](i requires 0 <= i < len => raw.value[i]);
      assert payload[..] == raw.value;
      if masked {
        ApplyMask(payload, mask);
      }
      r := Got(Frame(fin, opcode, payload[..]), data);
    }

    method ReadFrame(expectMasked: bool) returns (r: ReadResult)
      modifies this
      ensures r == ReadFrameFrom(old(data), expectMasked)
      ensures r.Got? ==> data == r.rest
    {
      hide BigEndianValue, ReadBody;
      ghost var text := data;
      var header := ReadExact(2);
      if header.None? {
        return Eof;
      }
      if TopBit(header.value[1]) != expectMasked {
        return Refused;
      }
      ghost var behind := data;
      var len := ReadExtension(LowSeven(header.value[1]));
      LengthBehind(text);
      if len.None? || len.value > MAX_TEXT_MESSAGE_BYTES {
        return Refused;
      }
      r := ReadPayload(TopBit(header.value[0]), LowFour(header.value[0]), len.value, expectMasked);
    }
  }

  /** The length field, seen from behind the two header bytes. */
  lemma LengthBehind(text: bytes)
    requires |text| >= 2
    ensures var short := LowSeven(text[1]);
            && var behind := text[2..];
            && var length := ReadLength(text);
            && (short < 126 ==> length == Some((short, 2)))
            && (short == 126 ==> (if |behind| < 2 then length == None
                                  else length == Some((BigEndianValue(behind[..2]), 4)) && text[4..] == behind[2..]))
            && (short > 126 ==> (if |behind| < 8 then length == None
                                 else length == Some((BigEndianValue(behind[..8]), 10)) && text[10..] == behind[8..]))
  {
    hide BigEndianValue;
    if |text| >= 4 {
      assert text[2..4] == text[2..][..2] && text[4..] == text[2..][2..];
    }
    if |text| >= 10 {
      assert text[2..10] == text[2..][..8] && text[10..] == text[2..][8..];
    }
  }

  // ----- round trips

  lemma LengthRoundTrip(first: byte, n: nat, masked: bool, tail: bytes)
    requires n <= MAX_TEXT_MESSAGE_BYTES
    ensures var text := [first] + LengthField(n, masked) + tail;
            && |text| >= 2
            && (TopBit(text[1]) <==> masked)
            && ReadLength(text) == Some((n, 1 + |LengthField(n, masked)|))
  {
    hide BigEndian, BigEndianValue, Power256;
    var text := [first] + LengthField(n, masked) + tail;
    if n >= 126 {
      var width := if n <= 0xFFFF then 2 else 8;
      assert text[2..2 + width] == BigEndian(n, width);
      Powers();
      BigEndianRoundTrip(n, width);
    }
  }

  lemma Powers()
    ensures Power256(2) == 0x1_0000 && Power256(8) == 0x1_0000_0000_0000_0000
  {
    assert Power256(4) == 0x1_0000_0000;
  }

  /**
   * Reading a written frame gives the same frame and leaves the bytes behind it untouched, in all
   * three length forms, masked or not.
   */
  lemma FrameRoundTrip(frame: Frame, mask: Option<Mask>, tail: bytes)
    requires Sendable(frame)
    ensures ReadFrameFrom(WriteFrame(frame, mask) + tail, mask.Some?) == Got(frame, tail)
  {
    hide LengthField, ReadLength, ReadBody, Masked;
    var first := WithTopBit(frame.fin, frame.opcode);
    var length := LengthField(|frame.payload|, mask.Some?);
    var body := match mask case Some(key) => key + Masked(frame.payload, key) case None => frame.payload;
    var text := WriteFrame(frame, mask) + tail;
    assert text == [first] + length + (body + tail);
    LengthRoundTrip(first, |frame.payload|, mask.Some?, body + tail);
    assert text[1 + |length|..] == body + tail;
    BodyRoundTrip(frame, mask, tail);
  }

  lemma BodyRoundTrip(frame: Frame, mask: Option<Mask>, tail: bytes)
    ensures var body := match mask case Some(key) => key + Masked(frame.payload, key) case None => frame.payload;
            ReadBody(frame.fin, frame.opcode, body + tail, |frame.payload|, mask.Some?) == Got(frame, tail)
  {
    match mask {
      case Some(key) =>
        var text := key + Masked(frame.payload, key) + tail;
        assert text[..4] == key && text[4..4 + |frame.payload|] == Masked(frame.payload, key);
        assert text[4 + |frame.payload|..] == tail;
        MaskedTwice(frame.payload, key);
      case None =>
        var text := frame.payload + tail;
        assert text[0..|frame.payload|] == frame.payload && text[|frame.payload|..] == tail;
    }
  }

  /** A written stream of frames, each with its own mask key. */
  function WriteFrames(frames: seq<(Frame, Option<Mask>)>): bytes {
    if frames == [] then [] else WriteFrame(frames[0].0, frames[0].1) + WriteFrames(frames[1..])
  }

  lemma GotIsShorter(text: bytes, masked: bool)
    ensures ReadFrameFrom(text, masked).Got? ==> |ReadFrameFrom(text, masked).rest| < |text|
  {
  }

  /** All frames of a stream up to its end; nothing if one is refused. */
  function ReadFrames(text: bytes, masked: bool): Option<seq<Frame>>
    decreases |text|
  {
    GotIsShorter(text, masked);
    match ReadFrameFrom(text, masked)
    case Eof => Some([])
    case Refused => None
    case Got(frame, rest) =>
      match ReadFrames(rest, masked)
      case None => None
      case Some(frames) => Some([frame] + frames)
  }

  function FramesOf(frames: seq<(Frame, Option<Mask>)>): (r: seq<Frame>)
    ensures |r| == |frames| && forall i :: 0 <= i < |r| ==> r[i] == frames[i].0
  {
    seq(|frames|, i requires 0 <= i < |frames| => frames[i].0)
  }

  /** A concatenation of written frames is read back as the same list. */
  lemma {:induction false} FramesRoundTrip(frames: seq<(Frame, Option<Mask>)>, masked: bool)
    requires forall sent :: sent in frames ==> Sendable(sent.0) && sent.1.Some? == masked
    ensures ReadFrames(WriteFrames(frames), masked) == Some(FramesOf(frames))
  {
    if frames == [] {
      assert FramesOf(frames) == [];
    } else {
      hide ReadFrameFrom, WriteFrame;
      FrameRoundTrip(frames[0].0, frames[0].1, WriteFrames(frames[1..]));
      FramesRoundTrip(frames[1..], masked);
      assert FramesOf(frames) == [frames[0].0] + FramesOf(frames[1..]);
    }
  }
}
