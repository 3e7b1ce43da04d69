/** What the server's answers mean to a caller, and that the server is a plain byte array. */
module ServerTheorems {
  import opened Bytes
  import opened Crc
  import opened Frames
  import opened Receiving
  import opened Memory
  import opened Serving

  // ---------------------------------------------------------------- which frames halt the firmware

  /** Requests that make a slice, or the place of the check value, fall outside its buffer. */
  predicate TakesDown(max: nat, f: Frame)
    requires FrameSize(max) && Typed(f)
  {
    match f
    case ReadMemoryRequest(raw) => ReadTakesDown(max, AddressOf(raw), LengthOf(raw))
    case WriteMemoryRequest(raw) => WrapsIntoImage(IMAGE_SIZE, AddressOf(raw), |DataOf(raw)|)
    case _ => false
  }

  predicate ReadTakesDown(max: nat, address: u32, length: u16)
    requires FrameSize(max)
  {
    || max - HEADER_SIZE < length <= max - 2
    || (length <= max - HEADER_SIZE && WrapsIntoImage(IMAGE_SIZE, address, length))
    || (max - HEADER_SIZE - 2 < length <= max - HEADER_SIZE && address + length <= IMAGE_SIZE)
  }

  lemma ReadOutcome(image: seq<byte>, address: u32, length: u16)
    requires |image| < ADDRESS_SPACE
    ensures ReadImage(image, address, length).Success? <==> address + length <= |image|
    ensures ReadImage(image, address, length).Panic? <==> WrapsIntoImage(|image|, address, length)
  {
    AccessOutcome(image, address, seq(length, _ => 0));
  }

  /** The firmware halts on these requests and on no others, whatever the image holds. */
  lemma HaltsExactlyOn(max: nat, image: seq<byte>, f: Frame)
    requires FrameSize(max) && |image| == IMAGE_SIZE && Typed(f)
    ensures Dispatch(max, image, f).0.Halt? <==> TakesDown(max, f)
  {
    match f
    case ReadMemoryRequest(raw) => ReadOutcome(image, AddressOf(raw), LengthOf(raw));
    case WriteMemoryRequest(raw) => AccessOutcome(image, AddressOf(raw), DataOf(raw));
    case _ =>
  }

  // ---------------------------------------------------------------- what a caller reads in a reply

  datatype Report =
    | VersionIs(version: u32, maxPayload: u16)
    | Contents(data: seq<byte>)
    | Written
    | Started
    | Refused(code: int)

  /** A reply as a client decodes it; `Refused` is a reply that no typed frame accepts, with
      the number its first four bytes hold. */
  function Meaning(reply: RawFrame): Report {
    match FrameFromRaw(reply)
    case Ok(QueryVersionResponse(raw)) => VersionIs(U32FromBytes(raw.payload[..4]), U16FromBytes(raw.payload[4..6]))
    case Ok(ReadMemoryResponse(raw)) => Contents(raw.payload)
    case Ok(WriteMemoryResponse(_)) => Written
    case Ok(RunResponse(_)) => Started
    case Ok(_) => Refused(RefusalCode(reply))
    case Err(_) => Refused(RefusalCode(reply))
  }

  function RefusalCode(reply: RawFrame): int {
    var p := reply.payload;
    if |p| < 4 then 0 else Four(p[0], p[1], p[2], p[3])
  }

  /** The four replies to successful requests decode to what they report; an error reply decodes
      to no typed frame at all, so it is never taken for success. */
  lemma RepliesDecode(number: u16, version: u32, maxPayload: u16, data: seq<byte>, e: ServerError)
    requires |data| < 0x1_0000
    ensures Meaning(Reply(QueryVersion, number, U32ToBytes(version) + U16ToBytes(maxPayload)))
         == VersionIs(version, maxPayload)
    ensures Meaning(Reply(ReadMemory, number, data)) == Contents(data)
    ensures Meaning(Reply(WriteMemory, number, [])) == Written
    ensures Meaning(Reply(Run, number, [])) == Started
    ensures FrameFromRaw(ErrorReplyFrame(number, e)) == Err(InvalidLength)
  {
    var p := U32ToBytes(version) + U16ToBytes(maxPayload);
    assert p[..4] == U32ToBytes(version) && p[4..6] == U16ToBytes(maxPayload);
    U32RoundTrip(version);
    U16RoundTrip(maxPayload, [0, 0]);
  }

  /** The requests that succeed. */
  predicate Granted(max: nat, f: Frame)
    requires FrameSize(max) && Typed(f)
  {
    match f
    case QueryVersionRequest(_) => true
    case ReadMemoryRequest(raw) =>
      LengthOf(raw) <= max - HEADER_SIZE - 2 && AddressOf(raw) + LengthOf(raw) <= IMAGE_SIZE
    case WriteMemoryRequest(raw) => AddressOf(raw) + |DataOf(raw)| <= IMAGE_SIZE
    case RunRequest(_) => true
    case _ => false
  }

  /** Every typed frame that does not halt the firmware gets exactly one reply, which carries its
      number and fits the buffer; the reply decodes to a typed frame exactly when the request was
      granted; and the image changes only through a granted write. */
  lemma EveryTypedFrameIsAnswered(max: nat, image: seq<byte>, f: Frame)
    requires FrameSize(max) && |image| == IMAGE_SIZE && Typed(f) && !TakesDown(max, f)
    ensures var (reaction, after) := Dispatch(max, image, f);
            && reaction.Answer?
            && reaction.frame.header.frameNumber == f.Header().frameNumber
            && |Encode(reaction.frame)| <= max
            && (FrameFromRaw(reaction.frame).Ok? <==> Granted(max, f))
            && (after != image ==> f.WriteMemoryRequest? && Granted(max, f))
  {
    hide FrameFromRaw, ReadImage, WriteImage, CrcOf, HeaderToBytes, U16ToBytes, U32ToBytes, Meaning;
    var number := f.Header().frameNumber;
    HaltsExactlyOn(max, image, f);
    AllErrorsAreUntyped(number);
    SuccessIsTyped(number, VERSION, max - HEADER_SIZE - 2, []);
    TypedSizes(f);
    match f
    case ReadMemoryRequest(raw) =>
      ReadOutcome(image, AddressOf(raw), LengthOf(raw));
      var r := ReadImage(image, AddressOf(raw), LengthOf(raw));
      if r.Success? {
        SuccessIsTyped(number, VERSION, 0, r.value);
      }
    case WriteMemoryRequest(raw) =>
      AccessOutcome(image, AddressOf(raw), DataOf(raw));
    case _ =>
  }

  lemma TypedSizes(f: Frame)
    requires Typed(f)
    ensures f.ReadMemoryRequest? ==> |f.raw.payload| == 6
    ensures f.WriteMemoryRequest? ==> 4 <= |f.raw.payload| < 0x1_0000
  {
  }

  lemma AllErrorsAreUntyped(number: u16)
    ensures forall e :: FrameFromRaw(ErrorReplyFrame(number, e)).Err?
  {
    forall e
      ensures FrameFromRaw(ErrorReplyFrame(number, e)).Err?
    {
      RepliesDecode(number, 0, 0, [], e);
    }
  }

  lemma SuccessIsTyped(number: u16, version: u32, maxPayload: u16, data: seq<byte>)
    requires |data| < 0x1_0000
    ensures FrameFromRaw(Reply(QueryVersion, number, U32ToBytes(version) + U16ToBytes(maxPayload))).Ok?
    ensures FrameFromRaw(Reply(ReadMemory, number, data)).Ok?
    ensures FrameFromRaw(Reply(WriteMemory, number, [])).Ok?
    ensures FrameFromRaw(Reply(Run, number, [])).Ok?
  {
    RepliesDecode(number, version, maxPayload, data, InvalidAddress);
  }

  // ---------------------------------------------------------------- a plain byte array

  datatype Command =
    | Query
    | Read(address: u32, length: u16)
    | Write(address: u32, data: seq<byte>)
    | Start(address: u32)

  /** Commands whose request fits the server's receive buffer. */
  predicate Sendable(max: nat, c: Command)
    requires FrameSize(max)
  {
    c.Write? ==> |c.data| <= max - 6
  }

  predicate CommandTakesDown(max: nat, c: Command)
    requires FrameSize(max)
  {
    match c
    case Read(address, length) => ReadTakesDown(max, address, length)
    case Write(address, data) => WrapsIntoImage(IMAGE_SIZE, address, |data|)
    case _ => false
  }

  function PlainNext(memory: seq<byte>, c: Command): (next: seq<byte>)
    ensures |next| == |memory|
  {
    if c.Write? && c.address + |c.data| <= |memory| then
      memory[..c.address] + c.data + memory[c.address + |c.data|..]
    else memory
  }

  function PlainResult(max: nat, memory: seq<byte>, c: Command): Report
    requires FrameSize(max)
  {
    match c
    case Query => VersionIs(VERSION, max - HEADER_SIZE - 2)
    case Read(address, length) =>
      if length > max - 2 then Refused(0x03)
      else if length <= max - HEADER_SIZE - 2 && address + length <= |memory| then
        Contents(memory[address..address + length])
      else Refused(0x02)
    case Write(address, data) => if address + |data| <= |memory| then Written else Refused(0x02)
    case Start(_) => Started
  }

  /** The value most recently written to an address by a write that lies in the memory. */
  function LastWrite(size: nat, commands: seq<Command>, a: nat): Option<byte>
    decreases |commands|
  {
    if commands == [] then None
    else
      var c := commands[|commands| - 1];
      if c.Write? && c.address + |c.data| <= size && c.address <= a < c.address + |c.data| then
        Some(c.data[a - c.address])
      else LastWrite(size, commands[..|commands| - 1], a)
  }

  function PlainMemory(memory: seq<byte>, commands: seq<Command>): (m: seq<byte>)
    ensures |m| == |memory|
    decreases |commands|
  {
    if commands == [] then memory
    else PlainNext(PlainMemory(memory, commands[..|commands| - 1]), commands[|commands| - 1])
  }

  /** Each cell of the plain array holds what was last written to it. */
  lemma {:induction false} CellHoldsLastWrite(memory: seq<byte>, commands: seq<Command>, a: nat)
    requires a < |memory|
    ensures PlainMemory(memory, commands)[a] ==
            match LastWrite(|memory|, commands, a) case Some(b) => b case None => memory[a]
    decreases |commands|
  {
    if commands != [] {
      CellHoldsLastWrite(memory, commands[..|commands| - 1], a);
    }
  }

  // ---------------------------------------------------------------- the server refines it

  function RequestFrame(number: u16, c: Command): (f: RawFrame)
    requires c.Write? ==> |c.data| + 4 < 0x1_0000
    ensures WellFormed(f)
  {
    match c
    case Query => RawFrame(FrameHeader(Request(QueryVersion), number, 0), [])
    case Read(address, length) =>
      RawFrame(FrameHeader(Request(ReadMemory), number, 6), U32ToBytes(address) + U16ToBytes(length))
    case Write(address, data) =>
      RawFrame(FrameHeader(Request(WriteMemory), number, 4 + |data|), U32ToBytes(address) + data)
    case Start(address) => RawFrame(FrameHeader(Request(Run), number, 4), U32ToBytes(address))
  }

  lemma RequestDecodes(number: u16, c: Command)
    requires c.Write? ==> |c.data| + 4 < 0x1_0000
    ensures var raw := RequestFrame(number, c);
            match c
            case Query => FrameFromRaw(raw) == Ok(QueryVersionRequest(raw.header))
            case Read(address, length) =>
              FrameFromRaw(raw) == Ok(ReadMemoryRequest(raw)) && AddressOf(raw) == address && LengthOf(raw) == length
            case Write(address, data) =>
              FrameFromRaw(raw) == Ok(WriteMemoryRequest(raw)) && AddressOf(raw) == address && DataOf(raw) == data
            case Start(address) => FrameFromRaw(raw) == Ok(RunRequest(raw)) && AddressOf(raw) == address
  {
    var raw := RequestFrame(number, c);
    match c
    case Query =>
    case Read(address, length) =>
      assert raw.payload[..4] == U32ToBytes(address) && raw.payload[4..6] == U16ToBytes(length);
      U32RoundTrip(address);
      U16RoundTrip(length, [0, 0]);
    case Write(address, data) =>
      assert raw.payload[..4] == U32ToBytes(address) && raw.payload[4..] == data;
      U32RoundTrip(address);
    case Start(address) =>
      assert raw.payload[..4] == U32ToBytes(address);
      U32RoundTrip(address);
  }

  /** Requests and replies on the wire, by the places of their bytes, numbers with the most
      significant byte first. */
  lemma RequestLayout(number: u16, c: Command)
    requires c.Write? ==> |c.data| + 4 < 0x1_0000
    ensures var f := RequestFrame(number, c);
            var p := f.payload;
            && f.header.frameNumber == number
            && match c
               case Query => TypeNumber(f.header.frameType) == 0 && p == []
               case Read(address, length) =>
                 && TypeNumber(f.header.frameType) == 1 && |p| == 6
                 && Four(p[0], p[1], p[2], p[3]) == address && Two(p[4], p[5]) == length
               case Write(address, data) =>
                 && TypeNumber(f.header.frameType) == 2 && |p| == 4 + |data|
                 && Four(p[0], p[1], p[2], p[3]) == address && p[4..] == data
               case Start(address) =>
                 && TypeNumber(f.header.frameType) == 3 && |p| == 4
                 && Four(p[0], p[1], p[2], p[3]) == address
  {
    hide U32ToBytes, U16ToBytes, Four, Two;
    match c
    case Query =>
    case Read(address, length) =>
      U32Layout(address);
      U16Layout(length);
    case Write(address, _) => U32Layout(address);
    case Start(address) => U32Layout(address);
  }

  lemma ReplyLayout(number: u16, version: u32, maxPayload: u16, e: ServerError)
    ensures var p := Reply(QueryVersion, number, U32ToBytes(version) + U16ToBytes(maxPayload)).payload;
            |p| == 6 && Four(p[0], p[1], p[2], p[3]) == version && Two(p[4], p[5]) == maxPayload
    ensures var p := ErrorReplyFrame(number, e).payload;
            && |p| == 4
            && Four(p[0], p[1], p[2], p[3]) ==
               match e
               case InvalidParameter => 0x01
               case InvalidAddress => 0x02
               case LengthTooLong => 0x03
               case InvalidRequest => 0x04
               case Unknown => 0x80
  {
    hide U32ToBytes, U16ToBytes, Four, Two;
    U32Layout(version);
    U16Layout(maxPayload);
    U32Layout(ErrorCode(e));
  }

  /** The first version query of a client, byte by byte. */
  lemma QueryBytes()
    ensures Encode(RequestFrame(1, Query)) == [0x5A, 0, 0, 1, 0, 0, 0x21, 0x5D]
  {
    hide CrcOf;
    var f := RequestFrame(1, Query);
    assert Covered(f.header, f.payload[..0]) == [0x5A, 0, 0, 1, 0, 0];
    assert Covered(f.header, f.payload) == [0x5A, 0, 0, 1, 0, 0];
    QueryCheckValue();
  }

  /** A marker and an unknown type byte swallow the query that follows them. */
  lemma UnknownHeaderSwallowsQuery(max: nat)
    requires BufferSize(max)
    ensures Parse(max, [0x5A, 0x7F] + Encode(RequestFrame(1, Query))) == []
  {
    hide Parse, Encode;
    QueryBytes();
    var line := [0x5A, 0x7F] + Encode(RequestFrame(1, Query));
    assert line == [0x5A, 0x7F, 0x5A, 0, 0, 1, 0, 0, 0x21, 0x5D];
    assert line[6..] == [0, 0, 0x21, 0x5D];
    assert FRAME_MARKER !in line[6..];
    MarkerFreeIsNoise(line[6..]);
    ParseWithinNoise(max, line, |line|);
    assert line[..|line|] == line;
  }

  /** A read one byte longer than the largest reply, of an image that holds it, halts a server with
      the firmware's frame size; one byte less is answered. */
  lemma BoundaryRead(image: seq<byte>, number: u16)
    requires |image| == IMAGE_SIZE
    ensures React(128, image, Accepted(RequestFrame(number, Read(0, 121)))).0.Halt?
    ensures React(128, image, Accepted(RequestFrame(number, Read(0, 120)))).0.Answer?
  {
    hide RequestFrame, FrameFromRaw, ReadImage, U32FromBytes, U16FromBytes;
    RequestDecodes(number, Read(0, 121));
    RequestDecodes(number, Read(0, 120));
    ReadOutcome(image, 0, 121);
    ReadOutcome(image, 0, 120);
  }

  /** The commands that halt the firmware; they leave the image alone. */
  lemma CommandHalts(max: nat, image: seq<byte>, number: u16, c: Command)
    requires FrameSize(max) && |image| == IMAGE_SIZE && Sendable(max, c)
    ensures var (reaction, after) := React(max, image, Accepted(RequestFrame(number, c)));
            && (reaction.Halt? <==> CommandTakesDown(max, c))
            && (reaction.Halt? ==> after == image)
  {
    hide RequestFrame, FrameFromRaw, ReadImage, WriteImage, U32ToBytes, U16ToBytes, U32FromBytes, U16FromBytes;
    RequestDecodes(number, c);
    match c
    case Read(address, length) => ReadOutcome(image, address, length);
    case Write(address, data) => AccessOutcome(image, address, data);
    case _ =>
  }

  /** Any other command: exactly one reply, with the request's number, within the buffer, reading
      as what the plain array answers; and the image becomes the plain array's. */
  lemma CommandIsAnswered(max: nat, image: seq<byte>, number: u16, c: Command)
    requires FrameSize(max) && |image| == IMAGE_SIZE && Sendable(max, c) && !CommandTakesDown(max, c)
    ensures var (reaction, after) := React(max, image, Accepted(RequestFrame(number, c)));
            && reaction.Answer?
            && WellFormed(reaction.frame)
            && reaction.frame.header.frameNumber == number
            && |Encode(reaction.frame)| <= max
            && Meaning(reaction.frame) == PlainResult(max, image, c)
            && after == PlainNext(image, c)
  {
    hide U32ToBytes, U16ToBytes, CrcOf, HeaderToBytes, FrameFromRaw, Meaning, RequestFrame, ReadImage, WriteImage;
    var raw := RequestFrame(number, c);
    assert raw.header.frameNumber == number by { RequestNumber(number, c); }
    RequestDecodes(number, c);
    RepliesDecode(number, VERSION, max - HEADER_SIZE - 2, [], InvalidAddress);
    ErrorsAreRefused(number);
    match c
    case Query =>
    case Read(address, length) =>
      ReadOutcome(image, address, length);
      if length <= max - 2 && address + length <= |image| {
        ReadInside(image, address, length);
        RepliesDecode(number, VERSION, 0, image[address..address + length], InvalidAddress);
      }
      OtherAccessIsInvalid(image, address, length, []);
    case Write(address, data) =>
      AccessOutcome(image, address, data);
      if address + |data| <= |image| {
        WriteInside(image, address, data);
      }
      OtherAccessIsInvalid(image, address, 0, data);
    case Start(_) =>
  }

  lemma RequestNumber(number: u16, c: Command)
    requires c.Write? ==> |c.data| + 4 < 0x1_0000
    ensures RequestFrame(number, c).header.frameNumber == number
  {
  }

  lemma ErrorsAreRefused(number: u16)
    ensures forall e :: Meaning(ErrorReplyFrame(number, e)) == Refused(ErrorCode(e))
  {
    forall e
      ensures Meaning(ErrorReplyFrame(number, e)) == Refused(ErrorCode(e))
    {
      RepliesDecode(number, 0, 0, [], e);
      U32Layout(ErrorCode(e));
    }
  }

  lemma ReadInside(image: seq<byte>, address: u32, length: u16)
    requires |image| < ADDRESS_SPACE && address + length <= |image|
    ensures ReadImage(image, address, length) == Success(image[address..address + length])
  {
  }

  lemma WriteInside(image: seq<byte>, address: u32, data: seq<byte>)
    requires |image| < ADDRESS_SPACE && address + |data| <= |image|
    ensures WriteImage(image, address, data) == Success(image[..address] + data + image[address + |data|..])
  {
  }
}
