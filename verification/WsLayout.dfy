/**
 * The layout of WebSocket frames, byte by byte (section 5.2 of RFC 6455), and that reading accepts
 * exactly the frames laid out like that.
 */
module WsLayout {
  import opened Bytes
  import opened WsFrame

  // ----- numbers as bytes

  /** The `k`-th byte of `n`, counted from the least significant one. */
  function Digit256(n: nat, k: nat): byte {
    if k == 0 then n % 256 else Digit256(n / 256, k - 1)
  }

  /** A word in network byte order: the most significant byte comes first. */
  lemma {:induction false} BigEndianDigits(n: nat, width: nat, j: nat)
    requires j < width
    ensures BigEndian(n, width)[j] == Digit256(n, width - 1 - j)
    decreases width
  {
    if j < width - 1 {
      BigEndianDigits(n / 256, width - 1, j);
    }
  }

  lemma {:induction false} BigEndianReads(data: bytes, j: nat)
    requires j < |data|
    ensures Digit256(BigEndianValue(data), |data| - 1 - j) == data[j]
    decreases |data|
  {
    var front := BigEndianValue(data[..|data| - 1]);
    assert BigEndianValue(data) / 256 == front && BigEndianValue(data) % 256 == data[|data| - 1];
    if j < |data| - 1 {
      BigEndianReads(data[..|data| - 1], j);
    }
  }

  lemma {:induction false} BigEndianBound(data: bytes)
    ensures BigEndianValue(data) < Power256(|data|)
    decreases |data|
  {
    if data != [] {
      BigEndianBound(data[..|data| - 1]);
    }
  }

  /** Every word is written as it was read. */
  lemma {:induction false} BigEndianAgain(data: bytes)
    ensures BigEndian(BigEndianValue(data), |data|) == data
    decreases |data|
  {
    if data != [] {
      BigEndianAgain(data[..|data| - 1]);
      var value := BigEndianValue(data);
      assert value / 256 == BigEndianValue(data[..|data| - 1]) && value % 256 == data[|data| - 1];
    }
  }

  // ----- the layout

  /**
   * A frame on the wire: the three reserved bits as a number, the width of the extended length (none,
   * two or eight bytes), and the mask key.
   */
  datatype Shape = Shape(reserved: nat, width: nat, mask: Option<Mask>) {

    /** The shape can hold a payload of `n` bytes. */
    predicate Takes(n: nat) {
      && reserved < 8
      && ((width == 0 && n < 126) || (width == 2 && n <= 0xFFFF) || (width == 8 && n < Power256(8)))
    }

    function First(f: Frame): byte
      requires reserved < 8 && f.opcode < 16
    {
      (if f.fin then 128 else 0) + 16 * reserved + f.opcode
    }

    function Second(n: nat): byte
      requires Takes(n)
    {
      (if mask.Some? then 128 else 0) + (if width == 0 then n else if width == 2 then 126 else 127)
    }
  }

  /** First byte, second byte, extended length, mask key, payload. */
  function Laid(f: Frame, shape: Shape): bytes
    requires f.opcode < 16 && shape.Takes(|f.payload|)
  {
    [shape.First(f), shape.Second(|f.payload|)]
    + BigEndian(|f.payload|, shape.width)
    + (match shape.mask
       case Some(key) => key + Masked(f.payload, key)
       case None => f.payload)
  }

  /** The top bit of the first byte is the final bit, then three reserved ones, then the opcode. */
  lemma FirstByteFields(f: Frame, shape: Shape)
    requires f.opcode < 16 && shape.reserved < 8
    ensures shape.First(f) / 128 == (if f.fin then 1 else 0)
    ensures shape.First(f) / 16 % 8 == shape.reserved && shape.First(f) % 16 == f.opcode
  {
  }

  /** The top bit of the second byte says whether there is a mask key, and the rest is the length code. */
  lemma SecondByteFields(shape: Shape, n: nat)
    requires shape.Takes(n)
    ensures shape.Second(n) / 128 == (if shape.mask.Some? then 1 else 0)
    ensures shape.Second(n) % 128 == if shape.width == 0 then n else if shape.width == 2 then 126 else 127
  {
  }

  // ----- writing and reading

  /** The shortest form for a length. */
  function Shortest(n: nat): nat {
    if n < 126 then 0 else if n <= 0xFFFF then 2 else 8
  }

  /** A written frame has no reserved bit and the shortest length form. */
  lemma WrittenIsLaid(f: Frame, mask: Option<Mask>)
    requires Sendable(f)
    ensures Shape(0, Shortest(|f.payload|), mask).Takes(|f.payload|)
    ensures WriteFrame(f, mask) == Laid(f, Shape(0, Shortest(|f.payload|), mask))
  {
    hide Masked, Power256;
    Powers();
    var n := |f.payload|;
    var shape := Shape(0, Shortest(n), mask);
    assert BigEndian(n, 0) == [];
    assert [WithTopBit(f.fin, f.opcode)] + LengthField(n, mask.Some?)
        == [shape.First(f), shape.Second(n)] + BigEndian(n, shape.width);
  }

  /** A laid out frame is read whatever its reserved bits and its length form, if the reader takes its size. */
  lemma LaidIsRead(f: Frame, shape: Shape, tail: bytes)
    requires Sendable(f) && shape.Takes(|f.payload|)
    ensures ReadFrameFrom(Laid(f, shape) + tail, shape.mask.Some?) == Got(f, tail)
  {
    hide ReadBody, Masked, BigEndian, BigEndianValue;
    var n := |f.payload|;
    var body := match shape.mask case Some(key) => key + Masked(f.payload, key) case None => f.payload;
    var text := Laid(f, shape) + tail;
    LaidStarts(f, shape, tail, body);
    if shape.width > 0 {
      Powers();
      BigEndianRoundTrip(n, shape.width);
    }
    BodyRoundTrip(f, shape.mask, tail);
  }

  lemma LaidStarts(f: Frame, shape: Shape, tail: bytes, body: bytes)
    requires f.opcode < 16 && shape.Takes(|f.payload|)
    requires body == match shape.mask case Some(key) => key + Masked(f.payload, key) case None => f.payload
    ensures var text := Laid(f, shape) + tail;
            && |text| >= 2 + shape.width
            && text[0] == shape.First(f) && text[1] == shape.Second(|f.payload|)
            && text[2..2 + shape.width] == BigEndian(|f.payload|, shape.width)
            && text[2 + shape.width..] == body + tail
  {
    var head := [shape.First(f), shape.Second(|f.payload|)];
    var length := BigEndian(|f.payload|, shape.width);
    assert Laid(f, shape) + tail == head + length + (body + tail);
  }

  /** The fields of a frame that was read, and where its length field ended. */
  lemma FieldsRead(text: bytes, masked: bool)
    requires ReadFrameFrom(text, masked).Got?
    ensures |text| >= 2 && TopBit(text[1]) == masked && ReadLength(text).Some?
    ensures var (got, length) := (ReadFrameFrom(text, masked), ReadLength(text).value);
            && got == ReadBody(got.frame.fin, got.frame.opcode, text[length.1..], length.0, masked)
            && got.frame.fin == TopBit(text[0]) && got.frame.opcode == LowFour(text[0])
            && |got.frame.payload| == length.0 <= MAX_TEXT_MESSAGE_BYTES
  {
    hide BigEndianValue;
  }

  /** The shape of a frame that was read. */
  function ShapeOf(text: bytes, masked: bool): Shape
    requires ReadFrameFrom(text, masked).Got?
  {
    FieldsRead(text, masked);
    var at := ReadLength(text).value.1;
    Shape(text[0] / 16 % 8, at - 2, if masked && |text| >= at + 4 then Some(text[at..at + 4]) else None)
  }

  lemma HeaderIsLaid(text: bytes, masked: bool)
    requires ReadFrameFrom(text, masked).Got? && (masked ==> ShapeOf(text, masked).mask.Some?)
    ensures var (f, shape) := (ReadFrameFrom(text, masked).frame, ShapeOf(text, masked));
            && f.opcode < 16 && shape.Takes(|f.payload|)
            && text[0] == shape.First(f) && text[1] == shape.Second(|f.payload|)
            && |text| >= 2 + shape.width && text[2..2 + shape.width] == BigEndian(|f.payload|, shape.width)
  {
    hide ReadFrameFrom, ReadBody, BigEndian, BigEndianValue, Power256;
    FieldsRead(text, masked);
    var at := ReadLength(text).value.1;
    Powers();
    BigEndianAgain(text[2..at]);
    BigEndianBound(text[2..at]);
    BigEndianNone(|ReadFrameFrom(text, masked).frame.payload|);
  }

  lemma BigEndianNone(n: nat)
    ensures BigEndian(n, 0) == [] && Power256(0) == 1
  {
  }

  /** Whatever is read was laid out so. */
  lemma ReadIsLaid(text: bytes, masked: bool)
    requires ReadFrameFrom(text, masked).Got?
    ensures var (got, shape) := (ReadFrameFrom(text, masked), ShapeOf(text, masked));
            && Sendable(got.frame) && shape.Takes(|got.frame.payload|) && shape.mask.Some? == masked
            && text == Laid(got.frame, shape) + got.rest
  {
    hide ReadFrameFrom, ReadLength, ReadBody, Masked, BigEndian, BigEndianValue;
    FieldsRead(text, masked);
    var (got, shape) := (ReadFrameFrom(text, masked), ShapeOf(text, masked));
    var (n, at) := ReadLength(text).value;
    BodyMeans(got.frame.fin, got.frame.opcode, text[at..], n, masked);
    if masked {
      assert text[at..at + 4] == text[at..][..4];
    }
    HeaderIsLaid(text, masked);
    assert text == [text[0], text[1]] + text[2..at] + text[at..];
    Joined(text, got.frame, shape, got.rest);
  }

  lemma Joined(text: bytes, f: Frame, shape: Shape, rest: bytes)
    requires f.opcode < 16 && shape.Takes(|f.payload|)
    requires var body := match shape.mask case Some(key) => key + Masked(f.payload, key) case None => f.payload;
             text == [shape.First(f), shape.Second(|f.payload|)] + BigEndian(|f.payload|, shape.width) + (body + rest)
    ensures text == Laid(f, shape) + rest
  {
    var body := match shape.mask case Some(key) => key + Masked(f.payload, key) case None => f.payload;
    Assoc([shape.First(f), shape.Second(|f.payload|)] + BigEndian(|f.payload|, shape.width), body, rest);
  }

  lemma BodyMeans(fin: bool, opcode: byte, text: bytes, len: nat, masked: bool)
    requires ReadBody(fin, opcode, text, len, masked).Got?
    ensures var got := ReadBody(fin, opcode, text, len, masked);
            if masked
            then |text| >= 4 && text == text[..4] + Masked(got.frame.payload, text[..4]) + got.rest
            else text == got.frame.payload + got.rest
  {
    hide Masked;
    if masked {
      MaskedTwice(text[4..4 + len], text[..4]);
      assert text == text[..4] + text[4..4 + len] + text[4 + len..];
    }
  }

  /**
   * From two bytes on, a frame is read exactly when the text begins with one laid out under the wanted
   * masking, of a size the reader takes; else it is refused.
   */
  lemma ReadsExactlyFrames(text: bytes, masked: bool, f: Frame, rest: bytes)
    ensures ReadFrameFrom(text, masked) == Got(f, rest)
            <==> Sendable(f) && exists shape: Shape :: (
                   shape.Takes(|f.payload|) && shape.mask.Some? == masked && text == Laid(f, shape) + rest)
    ensures ReadFrameFrom(text, masked).Eof? <==> |text| < 2
  {
    hide Laid;
    if ReadFrameFrom(text, masked) == Got(f, rest) {
      ReadIsLaid(text, masked);
    }
    if Sendable(f) && exists shape: Shape :: (
         shape.Takes(|f.payload|) && shape.mask.Some? == masked && text == Laid(f, shape) + rest) {
      var shape: Shape :| shape.Takes(|f.payload|) && shape.mask.Some? == masked && text == Laid(f, shape) + rest;
      LaidIsRead(f, shape, rest);
    }
  }
}
