/** The frame codec: header and type bytes, checked frames and typed frames. */
module Frames {
  import opened Bytes
  import opened Crc

  const FRAME_MARKER: byte := 0x5A
  const HEADER_SIZE: nat := 6

  datatype FrameType = QueryVersion | ReadMemory | WriteMemory | Run | ErrorResponse

  datatype FrameTypeAndDirection = Request(kind: FrameType) | Response(kind: FrameType)

  datatype FrameHeader = FrameHeader(frameType: FrameTypeAndDirection, frameNumber: u16, payloadLength: u16)

  datatype FrameError =
    | NoFrameMarker
    | InvalidFrameType
    | InsufficientLength
    | InvalidLength
    | CrcMismatch(expected: u16, actual: u16, header: FrameHeader)

  datatype RawFrame = RawFrame(header: FrameHeader, payload: seq<byte>)

  // ---------------------------------------------------------------- type byte and header

  function FrameTypeCode(t: FrameType): byte {
    match t
    case QueryVersion => 0x00
    case ReadMemory => 0x01
    case WriteMemory => 0x02
    case Run => 0x03
    case ErrorResponse => 0x80
  }

  function FrameTypeFromByte(b: byte): Result<FrameType, FrameError> {
    if b == 0x00 then Ok(QueryVersion)
    else if b == 0x01 then Ok(ReadMemory)
    else if b == 0x02 then Ok(WriteMemory)
    else if b == 0x03 then Ok(Run)
    else if b == 0x80 then Ok(ErrorResponse)
    else Err(InvalidFrameType)
  }

  /** The type code with the direction flag set for responses (a bitwise or: the flag is
      already part of the error code). */
  function TypeToByte(t: FrameTypeAndDirection): byte {
    match t
    case Request(kind) => FrameTypeCode(kind)
    case Response(kind) => if FrameTypeCode(kind) >= 0x80 then FrameTypeCode(kind) else FrameTypeCode(kind) + 0x80
  }

  /** A type that the parser can produce. */
  predicate Parseable(t: FrameTypeAndDirection) {
    !t.kind.ErrorResponse?
  }

  function TypeFromByte(b: byte): (t: Result<FrameTypeAndDirection, FrameError>)
    ensures t.Ok? ==> Parseable(t.value)
  {
    match FrameTypeFromByte(b % 0x80)
    case Ok(kind) => Ok(if b < 0x80 then Request(kind) else Response(kind))
    case Err(e) => Err(e)
  }

  function HeaderToBytes(h: FrameHeader): (b: seq<byte>)
    ensures |b| == 5
  {
    [TypeToByte(h.frameType)] + U16ToBytes(h.frameNumber) + U16ToBytes(h.payloadLength)
  }

  function HeaderFromBytes(b: seq<byte>): (h: Result<FrameHeader, FrameError>)
    ensures h.Ok? ==> Parseable(h.value.frameType)
  {
    if |b| < 5 then Err(InsufficientLength)
    else
      match TypeFromByte(b[0])
      case Err(e) => Err(e)
      case Ok(t) => Ok(FrameHeader(t, U16FromBytes(b[1..3]), U16FromBytes(b[3..5])))
  }

  /** A type byte comes back as the same type exactly when the type is not an error response:
      that code loses its high bit to the direction flag. */
  lemma TypeRoundTrip(t: FrameTypeAndDirection)
    ensures TypeFromByte(TypeToByte(t)) == Ok(t) <==> Parseable(t)
  {
  }

  /** Both error types have the byte of a version response, and are parsed as one. */
  lemma ErrorTypeCollides()
    ensures TypeToByte(Request(ErrorResponse)) == TypeToByte(Response(ErrorResponse)) == 0x80
    ensures TypeFromByte(0x80) == Ok(Response(QueryVersion))
  {
  }

  lemma TypeParsed(b: byte)
    ensures TypeFromByte(b).Ok? ==> Parseable(TypeFromByte(b).value) && TypeToByte(TypeFromByte(b).value) == b
  {
  }

  lemma HeaderRoundTrip(h: FrameHeader, rest: seq<byte>)
    requires Parseable(h.frameType)
    ensures HeaderFromBytes(HeaderToBytes(h) + rest) == Ok(h)
  {
    var b := HeaderToBytes(h) + rest;
    assert b[1..3] == U16ToBytes(h.frameNumber);
    assert b[3..5] == U16ToBytes(h.payloadLength);
    TypeRoundTrip(h.frameType);
  }

  lemma HeaderErrors(b: seq<byte>)
    ensures |b| < 5 ==> HeaderFromBytes(b) == Err(InsufficientLength)
    ensures |b| >= 5 && HeaderFromBytes(b).Err? ==> HeaderFromBytes(b).error == InvalidFrameType
  {
  }

  lemma HeaderParsed(b: seq<byte>)
    requires HeaderFromBytes(b).Ok?
    ensures Parseable(HeaderFromBytes(b).value.frameType)
    ensures |b| >= 5 && HeaderToBytes(HeaderFromBytes(b).value) == b[..5]
  {
    TypeParsed(b[0]);
    U16RoundTrip(0, b[1..3]);
    U16RoundTrip(0, b[3..5]);
    assert b[..5] == [b[0]] + b[1..3] + b[3..5];
  }

  /** The position of the first frame marker, or the length when there is none. */
  function MarkerIndex(b: seq<byte>): (i: nat)
    ensures i <= |b|
    ensures FRAME_MARKER !in b[..i]
    ensures i < |b| ==> b[i] == FRAME_MARKER
  {
    if b == [] then 0
    else if b[0] == FRAME_MARKER then 0
    else
      var i := 1 + MarkerIndex(b[1..]);
      assert b[..i] == [b[0]] + b[1..][..i - 1];
      i
  }

  lemma {:induction false} MarkerIndexAfter(junk: seq<byte>, rest: seq<byte>)
    requires FRAME_MARKER !in junk
    ensures MarkerIndex(junk + [FRAME_MARKER] + rest) == |junk|
  {
    if junk != [] {
      var b := junk + [FRAME_MARKER] + rest;
      assert b[0] == junk[0];
      assert b[1..] == junk[1..] + [FRAME_MARKER] + rest;
      MarkerIndexAfter(junk[1..], rest);
    }
  }

  /** The outcome of looking for a header: the header and the offset behind it, or the error
      and the offset it belongs to. */
  datatype HeaderScan = Found(header: FrameHeader, next: nat) | Missed(error: FrameError, at: nat)

  function ReadHeader(b: seq<byte>): (scan: HeaderScan)
    ensures scan.Missed? ==> scan.at <= |b|
  {
    var offset := MarkerIndex(b);
    if offset == |b| then Missed(NoFrameMarker, |b|)
    else
      match HeaderFromBytes(b[offset + 1..])
      case Ok(header) => Found(header, offset + HEADER_SIZE)
      case Err(e) => Missed(e, offset)
  }

  // ---------------------------------------------------------------- checked frames

  /** The bytes a check value covers. */
  function Covered(h: FrameHeader, payload: seq<byte>): seq<byte> {
    [FRAME_MARKER] + HeaderToBytes(h) + payload
  }

  /** `calculate_crc`: only the first `payloadLength` bytes of the payload are covered. */
  function CalculateCrc(f: RawFrame): u16
    requires |f.payload| >= f.header.payloadLength
  {
    CrcOf(Covered(f.header, f.payload[..f.header.payloadLength]))
  }

  /** A frame whose two lengths agree and whose type the parser can produce. */
  predicate WellFormed(f: RawFrame) {
    |f.payload| == f.header.payloadLength && Parseable(f.header.frameType)
  }

  /** Everything `write_frame` emits: the whole payload slice, but a check value over its first
      `payloadLength` bytes. */
  function Encode(f: RawFrame): (b: seq<byte>)
    requires |f.payload| >= f.header.payloadLength
    ensures |b| == HEADER_SIZE + |f.payload| + 2
  {
    Covered(f.header, f.payload) + U16ToBytes(CalculateCrc(f))
  }

  function ReadFramePayload(h: FrameHeader, b: seq<byte>): Result<(RawFrame, nat), FrameError> {
    var length := h.payloadLength;
    if |b| < length + 2 then Err(InsufficientLength)
    else
      var payload := b[..length];
      var actual := U16FromBytes(b[length..length + 2]);
      var expected := CrcOf(Covered(h, payload));
      if actual != expected then Err(CrcMismatch(expected, actual, h))
      else Ok((RawFrame(h, payload), length + 2))
  }

  /** Find the first header and check what follows it.  The reported length counts the header
      twice. */
  function ReadFrame(b: seq<byte>): Result<(RawFrame, nat), FrameError> {
    match ReadHeader(b)
    case Missed(e, _) => Err(e)
    case Found(h, payloadOffset) =>
      var frameLength := HEADER_SIZE + h.payloadLength + 2;
      if |b| < payloadOffset + h.payloadLength + 2 then Err(InsufficientLength)
      else
        match ReadFramePayload(h, b[payloadOffset..])
        case Ok((frame, _)) => Ok((frame, payloadOffset + frameLength))
        case Err(e) => Err(e)
  }

  lemma ReadFramePayloadRoundTrip(f: RawFrame, rest: seq<byte>)
    requires WellFormed(f)
    ensures ReadFramePayload(f.header, f.payload + U16ToBytes(CalculateCrc(f)) + rest)
         == Ok((f, |f.payload| + 2))
  {
    var crc := CalculateCrc(f);
    var b := f.payload + U16ToBytes(crc) + rest;
    var n := |f.payload|;
    assert f.payload[..n] == f.payload;
    assert b[..n] == f.payload;
    assert b[n..n + 2] == U16ToBytes(crc);
  }

  /** What is accepted is the returned payload followed by its check value. */
  lemma ReadFramePayloadSound(h: FrameHeader, b: seq<byte>, f: RawFrame, n: nat)
    requires ReadFramePayload(h, b) == Ok((f, n))
    ensures f.header == h && |f.payload| == h.payloadLength
    ensures n == h.payloadLength + 2 <= |b|
    ensures b[..n] == f.payload + U16ToBytes(CalculateCrc(f))
  {
    hide CrcOf;
    var length := h.payloadLength;
    var payload, field := b[..length], b[length..length + 2];
    U16RoundTrip(0, field);
    assert payload[..length] == payload;
    assert b[..length + 2] == payload + field;
  }

  lemma ReadHeaderRoundTrip(junk: seq<byte>, h: FrameHeader, tail: seq<byte>)
    requires Parseable(h.frameType)
    requires FRAME_MARKER !in junk
    ensures ReadHeader(junk + ([FRAME_MARKER] + HeaderToBytes(h)) + tail) == Found(h, |junk| + HEADER_SIZE)
  {
    var b := junk + ([FRAME_MARKER] + HeaderToBytes(h)) + tail;
    assert b == junk + [FRAME_MARKER] + (HeaderToBytes(h) + tail);
    MarkerIndexAfter(junk, HeaderToBytes(h) + tail);
    assert b[|junk| + 1..] == HeaderToBytes(h) + tail;
    HeaderRoundTrip(h, tail);
  }

  lemma ReadHeaderSound(b: seq<byte>, h: FrameHeader, next: nat)
    requires ReadHeader(b) == Found(h, next)
    ensures Parseable(h.frameType)
    ensures MarkerIndex(b) + HEADER_SIZE == next <= |b|
    ensures b[next - HEADER_SIZE..next] == [FRAME_MARKER] + HeaderToBytes(h)
  {
    hide HeaderFromBytes, HeaderToBytes, MarkerIndex;
    var at := MarkerIndex(b);
    var after := b[at + 1..];
    HeaderParsed(after);
    SliceJoin(b, at, at + 1, 5);
    assert b[at..at + 1] == [FRAME_MARKER];
  }

  /** `read_frame` undoes the encoder behind any marker-free junk and whatever follows.  The
      length it reports lies six bytes behind the end of the frame. */
  lemma ReadFrameRoundTrip(junk: seq<byte>, f: RawFrame, rest: seq<byte>)
    requires WellFormed(f)
    requires FRAME_MARKER !in junk
    ensures ReadFrame(junk + Encode(f) + rest) == Ok((f, |junk| + |Encode(f)| + HEADER_SIZE))
  {
    hide CrcOf, ReadHeader, ReadFramePayload, HeaderToBytes, U16ToBytes, MarkerIndex;
    var b := junk + Encode(f) + rest;
    var tail := f.payload + U16ToBytes(CalculateCrc(f)) + rest;
    assert b == junk + ([FRAME_MARKER] + HeaderToBytes(f.header)) + tail;
    ReadHeaderRoundTrip(junk, f.header, tail);
    assert b[|junk| + HEADER_SIZE..] == tail;
    ReadFramePayloadRoundTrip(f, rest);
  }

  /** What `read_frame` accepts is nothing but the encoding of what it returns, starting at the
      first marker. */
  lemma ReadFrameSound(b: seq<byte>, f: RawFrame, n: nat)
    requires ReadFrame(b) == Ok((f, n))
    ensures WellFormed(f)
    ensures n == MarkerIndex(b) + |Encode(f)| + HEADER_SIZE
    ensures n - HEADER_SIZE <= |b| && b[MarkerIndex(b)..n - HEADER_SIZE] == Encode(f)
  {
    hide CrcOf, ReadHeader, ReadFramePayload, HeaderToBytes, U16ToBytes, MarkerIndex;
    var h, next := ReadHeader(b).header, ReadHeader(b).next;
    ReadHeaderSound(b, h, next);
    var body := b[next..];
    var m := ReadFramePayload(h, body).value.1;
    ReadFramePayloadSound(h, body, f, m);
    SliceJoin(b, next - HEADER_SIZE, next, m);
    assert f.payload[..h.payloadLength] == f.payload;
    Associate([FRAME_MARKER] + HeaderToBytes(h), f.payload, U16ToBytes(CalculateCrc(f)));
  }

  // ---------------------------------------------------------------- the bytes on the wire

  /** A type byte is known when its low seven bits are at most 3. */
  predicate KnownType(b: byte) {
    b % 0x80 <= 3
  }

  lemma KnownTypesParse(b: byte)
    ensures TypeFromByte(b).Ok? <==> KnownType(b)
  {
  }

  function TypeNumber(t: FrameTypeAndDirection): nat
    requires Parseable(t)
  {
    (match t.kind case QueryVersion => 0 case ReadMemory => 1 case WriteMemory => 2 case Run => 3)
    + if t.Response? then 0x80 else 0
  }

  lemma HeaderLayout(h: FrameHeader)
    requires Parseable(h.frameType)
    ensures var b := HeaderToBytes(h);
            && b[0] == TypeNumber(h.frameType)
            && Two(b[1], b[2]) == h.frameNumber
            && Two(b[3], b[4]) == h.payloadLength
  {
  }

  /** The place of everything in an encoded frame, numbers with their most significant byte first,
      and the check value over all that stands in front of it. */
  lemma EncodedLayout(f: RawFrame)
    requires WellFormed(f)
    ensures var b, n := Encode(f), f.header.payloadLength;
            && |b| == n + 8
            && b[0] == 0x5A
            && b[1] == TypeNumber(f.header.frameType)
            && Two(b[2], b[3]) == f.header.frameNumber
            && Two(b[4], b[5]) == n
            && b[6..6 + n] == f.payload
            && Two(b[6 + n], b[7 + n]) == CrcOf(b[..6 + n])
  {
    hide CrcOf, HeaderToBytes, U16ToBytes;
    HeaderLayout(f.header);
    assert f.payload[..f.header.payloadLength] == f.payload;
    var crc := CalculateCrc(f);
    assert Encode(f)[..6 + |f.payload|] == Covered(f.header, f.payload);
    U16Layout(crc);
  }

  /** What a frame header says, read off its bytes. */
  lemma HeaderOutcome(b: seq<byte>)
    ensures |b| < 5 ==> HeaderFromBytes(b) == Err(InsufficientLength)
    ensures |b| >= 5 && !KnownType(b[0]) ==> HeaderFromBytes(b) == Err(InvalidFrameType)
    ensures |b| >= 5 && KnownType(b[0]) ==>
              && HeaderFromBytes(b).Ok?
              && TypeNumber(HeaderFromBytes(b).value.frameType) == b[0]
              && HeaderFromBytes(b).value.frameNumber == Two(b[1], b[2])
              && HeaderFromBytes(b).value.payloadLength == Two(b[3], b[4])
  {
  }

  /** What `read_frame` says of any bytes, read off the bytes: which error, and the frame when there
      is none. */
  lemma ReadFrameOutcome(b: seq<byte>)
    ensures var i := MarkerIndex(b);
            if i == |b| then ReadFrame(b) == Err(NoFrameMarker)
            else if |b| < i + 6 then ReadFrame(b) == Err(InsufficientLength)
            else if !KnownType(b[i + 1]) then ReadFrame(b) == Err(InvalidFrameType)
            else
              var n := Two(b[i + 4], b[i + 5]);
              if |b| < i + 8 + n then ReadFrame(b) == Err(InsufficientLength)
              else
                var field, crc := Two(b[i + 6 + n], b[i + 7 + n]), CrcOf(b[i..i + 6 + n]);
                if field != crc then
                  && ReadFrame(b).Err? && ReadFrame(b).error.CrcMismatch?
                  && ReadFrame(b).error.expected == crc && ReadFrame(b).error.actual == field
                  && HeaderToBytes(ReadFrame(b).error.header) == b[i + 1..i + 6]
                else
                  && ReadFrame(b).Ok?
                  && HeaderToBytes(ReadFrame(b).value.0.header) == b[i + 1..i + 6]
                  && ReadFrame(b).value.0.payload == b[i + 6..i + 6 + n]
  {
    hide CrcOf, HeaderFromBytes, HeaderToBytes, MarkerIndex, KnownType;
    var i := MarkerIndex(b);
    if i < |b| {
      var after := b[i + 1..];
      HeaderOutcome(after);
      if HeaderFromBytes(after).Ok? {
        HeaderParsed(after);
        FoundFrameOutcome(b, i, HeaderFromBytes(after).value);
      }
    }
  }

  lemma FoundFrameOutcome(b: seq<byte>, i: nat, h: FrameHeader)
    requires i == MarkerIndex(b) && i + 6 <= |b| && HeaderFromBytes(b[i + 1..]) == Ok(h)
    requires HeaderToBytes(h) == b[i + 1..i + 6] && h.payloadLength == Two(b[i + 4], b[i + 5])
    ensures var n := h.payloadLength;
            if |b| < i + 8 + n then ReadFrame(b) == Err(InsufficientLength)
            else
              var field, crc := Two(b[i + 6 + n], b[i + 7 + n]), CrcOf(b[i..i + 6 + n]);
              ReadFrame(b) ==
              if field != crc then Err(CrcMismatch(crc, field, h))
              else Ok((RawFrame(h, b[i + 6..i + 6 + n]), i + 6 + (6 + n + 2)))
  {
    hide CrcOf, HeaderFromBytes, HeaderToBytes, MarkerIndex, ReadFramePayload, Two;
    assert ReadHeader(b) == Found(h, i + 6);
    if |b| >= i + 8 + h.payloadLength {
      BodyOutcome(b, i, h);
    }
  }

  lemma BodyOutcome(b: seq<byte>, i: nat, h: FrameHeader)
    requires i + 8 + h.payloadLength <= |b| && b[i] == FRAME_MARKER
    requires HeaderToBytes(h) == b[i + 1..i + 6]
    ensures var n := h.payloadLength;
            var field, crc := Two(b[i + 6 + n], b[i + 7 + n]), CrcOf(b[i..i + 6 + n]);
            ReadFramePayload(h, b[i + 6..]) ==
            if field != crc then Err(CrcMismatch(crc, field, h))
            else Ok((RawFrame(h, b[i + 6..i + 6 + n]), n + 2))
  {
    hide CrcOf, HeaderToBytes, U16FromBytes, Two;
    var n, rest := h.payloadLength, b[i + 6..];
    assert rest[..n] == b[i + 6..i + 6 + n];
    assert rest[n..n + 2] == b[i + 6 + n..i + 8 + n];
    U16Read(rest[n..n + 2]);
    assert b[i..i + 6 + n] == [FRAME_MARKER] + b[i + 1..i + 6] + b[i + 6..i + 6 + n];
  }

  // ---------------------------------------------------------------- typed frames

  datatype Frame =
    | QueryVersionRequest(header: FrameHeader)
    | QueryVersionResponse(raw: RawFrame)
    | ReadMemoryRequest(raw: RawFrame)
    | ReadMemoryResponse(raw: RawFrame)
    | WriteMemoryRequest(raw: RawFrame)
    | WriteMemoryResponse(raw: RawFrame)
    | RunRequest(raw: RawFrame)
    | RunResponse(raw: RawFrame)
    | ErrorReply(raw: RawFrame)
  {
    function Header(): FrameHeader {
      if QueryVersionRequest? then header else raw.header
    }

    function ToRaw(): RawFrame {
      if QueryVersionRequest? then RawFrame(header, []) else raw
    }
  }

  predicate HasLength(raw: RawFrame, n: nat) {
    raw.header.payloadLength == n && |raw.payload| == n
  }

  function FrameFromRaw(raw: RawFrame): Result<Frame, FrameError> {
    match raw.header.frameType
    case Request(QueryVersion) => if HasLength(raw, 0) then Ok(QueryVersionRequest(raw.header)) else Err(InvalidLength)
    case Response(QueryVersion) => if HasLength(raw, 6) then Ok(QueryVersionResponse(raw)) else Err(InvalidLength)
    case Request(ReadMemory) => if HasLength(raw, 6) then Ok(ReadMemoryRequest(raw)) else Err(InvalidLength)
    case Response(ReadMemory) => Ok(ReadMemoryResponse(raw))
    case Request(WriteMemory) =>
      if raw.header.payloadLength < 4 || |raw.payload| < 4 then Err(InvalidLength) else Ok(WriteMemoryRequest(raw))
    case Response(WriteMemory) => if HasLength(raw, 0) then Ok(WriteMemoryResponse(raw)) else Err(InvalidLength)
    case Request(Run) => if HasLength(raw, 4) then Ok(RunRequest(raw)) else Err(InvalidLength)
    case Response(Run) => if HasLength(raw, 0) then Ok(RunResponse(raw)) else Err(InvalidLength)
    case Request(ErrorResponse) => Err(InvalidFrameType)
    case Response(ErrorResponse) => if HasLength(raw, 4) then Ok(ErrorReply(raw)) else Err(InvalidLength)
  }

  /** A typed frame keeps all of the raw frame. */
  lemma FrameKeepsRaw(raw: RawFrame)
    requires FrameFromRaw(raw).Ok?
    ensures FrameFromRaw(raw).value.ToRaw() == raw
    ensures FrameFromRaw(raw).value.Header() == raw.header
  {
  }

  function AddressOf(raw: RawFrame): u32
    requires |raw.payload| >= 4
  {
    U32FromBytes(raw.payload[..4])
  }

  function LengthOf(raw: RawFrame): u16
    requires |raw.payload| >= 6
  {
    U16FromBytes(raw.payload[4..6])
  }

  function DataOf(raw: RawFrame): seq<byte>
    requires |raw.payload| >= 4
  {
    raw.payload[4..]
  }

  // ---------------------------------------------------------------- writing into a cursor

  /** `data` laid over `buffer` from `position` on, cut off at the end of the buffer. */
  function Overlay(buffer: seq<byte>, position: nat, data: seq<byte>): (r: seq<byte>)
    requires position <= |buffer|
    ensures |r| == |buffer|
  {
    var n := if |data| < |buffer| - position then |data| else |buffer| - position;
    buffer[..position] + data[..n] + buffer[position + n..]
  }

  lemma OverlayTwice(buffer: seq<byte>, position: nat, a: seq<byte>, b: seq<byte>)
    requires position <= |buffer|
    ensures var next := if position + |a| < |buffer| then position + |a| else |buffer|;
            Overlay(Overlay(buffer, position, a), next, b) == Overlay(buffer, position, a + b)
  {
  }

  /** A write cursor over a fixed buffer: a write that does not fit is cut short without an
      error. */
  class Cursor {
    const buffer: array<byte>
    var position: nat

    ghost predicate Valid()
      reads this
    {
      position <= buffer.Length
    }

    constructor (buffer: array<byte>)
      ensures Valid()
      ensures this.buffer == buffer && position == 0
    {
      this.buffer := buffer;
      position := 0;
    }

    method Write(data: seq<byte>)
      requires Valid()
      modifies this, buffer
      ensures Valid()
      ensures buffer[..] == Overlay(old(buffer[..]), old(position), data)
      ensures position == if old(position) + |data| < buffer.Length then old(position) + |data| else buffer.Length
    {
      var n := if |data| < buffer.Length - position then |data| else buffer.Length - position;
      forall i | 0 <= i < n {
        buffer[position + i] := data[i];
      }
      position := position + n;
    }
  }

  /** Writes a frame, unless its payload is shorter than its header says: then the slice that the
      check value covers panics, after the payload has gone out. */
  method WriteFrame(frame: RawFrame, writer: Cursor) returns (completed: bool)
    requires writer.Valid()
    modifies writer, writer.buffer
    ensures writer.Valid()
    ensures completed <==> |frame.payload| >= frame.header.payloadLength
    ensures writer.buffer[..] == Overlay(old(writer.buffer[..]), old(writer.position),
                                         if completed then Encode(frame) else Covered(frame.header, frame.payload))
  {
    ghost var buffer, at := writer.buffer[..], writer.position;
    var bytes := [FRAME_MARKER] + HeaderToBytes(frame.header);
    writer.Write(bytes);
    writer.Write(frame.payload);
    OverlayTwice(buffer, at, bytes, frame.payload);
    if |frame.payload| < frame.header.payloadLength {
      return false;
    }
    var crc := CrcOf(bytes + frame.payload[..frame.header.payloadLength]);
    writer.Write(U16ToBytes(crc));
    OverlayTwice(buffer, at, bytes + frame.payload, U16ToBytes(crc));
    return true;
  }
}
