/** The host-side client: what its calls put on the wire and what they accept. */
module Clients {
  import opened Bytes
  import opened Crc
  import opened Frames
  import opened Receiving
  import opened Memory
  import opened Serving
  import opened ServerTheorems
  import opened Sessions

  // ---------------------------------------------------------------- what a call sends

  /** The bytes `send_frame_raw` sends: everything `write_frame` emits, cut off at the size of a
      frame with the payload length of the header. */
  function SentBytes(f: RawFrame): (b: seq<byte>)
    requires |f.payload| >= f.header.payloadLength
    ensures |b| == HEADER_SIZE + f.header.payloadLength + 2
  {
    Encode(f)[..HEADER_SIZE + f.header.payloadLength + 2]
  }

  /** A write of so much data that the 16-bit length field wraps around. */
  predicate Overlong(c: Command) {
    c.Write? && |c.data| + 4 >= 0x1_0000
  }

  /** The frame the client builds for a command: for all but the version query, the payload slice
      is the whole zero-initialised buffer, header and check value space included. */
  function BuiltFrame(number: u16, c: Command): (f: RawFrame)
    ensures f.header.payloadLength <= |f.payload| && Parseable(f.header.frameType)
    ensures !c.Query? ==> f.header.payloadLength + 8 <= |f.payload|
  {
    match c
    case Query => RequestFrame(number, c)
    case Read(address, length) =>
      var content := U32ToBytes(address) + U16ToBytes(length);
      RawFrame(FrameHeader(Request(ReadMemory), number, 6), content + seq(8, _ => 0))
    case Write(address, data) =>
      var content := U32ToBytes(address) + data;
      RawFrame(FrameHeader(Request(WriteMemory), number, |content| % 0x1_0000), content + seq(10, _ => 0))
    case Start(address) =>
      RawFrame(FrameHeader(Request(Run), number, 4), U32ToBytes(address) + seq(8, _ => 0))
  }

  /** The frame that header announces. */
  function MeantFrame(number: u16, c: Command): (f: RawFrame)
    ensures WellFormed(f)
  {
    var f := BuiltFrame(number, c);
    RawFrame(f.header, f.payload[..f.header.payloadLength])
  }

  /** What the receiver finds where it looks for the check value. */
  function CheckField(number: u16, c: Command): (field: seq<byte>)
    ensures |field| == 2
  {
    var f := BuiltFrame(number, c);
    if c.Query? then U16ToBytes(CalculateCrc(f))
    else f.payload[f.header.payloadLength..f.header.payloadLength + 2]
  }

  lemma SentAsMeant(number: u16, c: Command)
    ensures var f := MeantFrame(number, c);
            SentBytes(BuiltFrame(number, c)) == Covered(f.header, f.payload) + CheckField(number, c)
  {
    hide HeaderToBytes, CrcOf, U16ToBytes, BuiltFrame;
    var g := BuiltFrame(number, c);
    var n := g.header.payloadLength;
    if c.Query? {
      QueryIsBuiltWhole(number);
      assert g.payload[..n] == g.payload;
    } else {
      assert g.payload == g.payload[..n] + g.payload[n..];
      assert Encode(g)[..HEADER_SIZE + n + 2] == Covered(g.header, g.payload[..n]) + g.payload[n..n + 2];
    }
  }

  lemma QueryIsBuiltWhole(number: u16)
    ensures |BuiltFrame(number, Query).payload| == BuiltFrame(number, Query).header.payloadLength
  {
  }

  lemma MeantIsRequested(number: u16, c: Command)
    requires !c.Query? && !Overlong(c)
    ensures MeantFrame(number, c) == RequestFrame(number, c) && CheckField(number, c) == [0, 0]
  {
    hide U32ToBytes, U16ToBytes, BuiltFrame, RequestFrame;
    PaddedRequest(number, c);
    var f, g := RequestFrame(number, c), BuiltFrame(number, c);
    var n := g.header.payloadLength;
    assert g.payload[..n] == f.payload;
    assert g.payload[n..n + 2] == [0, 0];
  }

  lemma PaddedRequest(number: u16, c: Command)
    requires !c.Query? && !Overlong(c)
    ensures var f, g := RequestFrame(number, c), BuiltFrame(number, c);
            && g.header == f.header
            && |g.payload| >= |f.payload| + 2
            && forall i | 0 <= i < |g.payload| :: g.payload[i] == if i < |f.payload| then f.payload[i] else 0
  {
    hide U32ToBytes, U16ToBytes;
  }

  lemma OverlongIsCutOff(number: u16, c: Command)
    requires Overlong(c)
    ensures var content := U32ToBytes(c.address) + c.data;
            var n := |content| % 0x1_0000;
            && MeantFrame(number, c) == RawFrame(FrameHeader(Request(WriteMemory), number, n), content[..n])
            && CheckField(number, c) == content[n..n + 2]
  {
    hide U32ToBytes;
    var content, g := U32ToBytes(c.address) + c.data, BuiltFrame(number, c);
    var n := |content| % 0x1_0000;
    assert g.payload[..n] == content[..n] && g.payload[n..n + 2] == content[n..n + 2];
  }

  /** Only the version query goes out as a whole frame.  Every other request carries two zero
      bytes where its check value belongs; a write whose length wraps around carries two bytes of
      its own contents there, behind as many as the wrapped length says. */
  lemma OnlyQueryIsSentWhole(number: u16, c: Command)
    ensures var sent := SentBytes(BuiltFrame(number, c));
            if Overlong(c) then
              var content := U32ToBytes(c.address) + c.data;
              var n := |content| % 0x1_0000;
              sent == Covered(FrameHeader(Request(WriteMemory), number, n), content[..n]) + content[n..n + 2]
            else
              var f := RequestFrame(number, c);
              sent == if c.Query? then Encode(f) else Covered(f.header, f.payload) + [0, 0]
  {
    hide HeaderToBytes, CrcOf, U16ToBytes, U32ToBytes, BuiltFrame, MeantFrame, CheckField;
    SentAsMeant(number, c);
    if Overlong(c) {
      OverlongIsCutOff(number, c);
    } else if c.Query? {
      assert SentBytes(RequestFrame(number, c)) == Encode(RequestFrame(number, c));
      assert BuiltFrame(number, c) == RequestFrame(number, c) by { QueryIsBuilt(number); }
    } else {
      MeantIsRequested(number, c);
    }
  }

  lemma QueryIsBuilt(number: u16)
    ensures BuiltFrame(number, Query) == RequestFrame(number, Query)
  {
  }

  /** A frame with any two bytes in its check field is accepted exactly when they are its check
      value. */
  lemma CheckFieldDecides(f: RawFrame, field: seq<byte>)
    requires WellFormed(f) && |field| == 2
    ensures Judge(f.header, f.payload + field) ==
            if CalculateCrc(f) == U16FromBytes(field) then Accepted(f)
            else Rejected(CrcMismatch(CalculateCrc(f), U16FromBytes(field), f.header))
  {
    hide CrcOf;
    var n, body := |f.payload|, f.payload + field;
    assert body[..n] == f.payload && f.payload[..n] == f.payload;
    assert body[n..n + 2] == field;
  }

  /** In particular a request with a zero check field reaches a server, as the frame that was
      meant, exactly when its check value happens to be zero. */
  lemma ZeroCheckValueDecides(f: RawFrame)
    requires WellFormed(f)
    ensures Judge(f.header, f.payload + [0, 0]) ==
            if CalculateCrc(f) == 0 then Accepted(f)
            else Rejected(CrcMismatch(CalculateCrc(f), 0, f.header))
  {
    hide CrcOf, Judge;
    CheckFieldDecides(f, [0, 0]);
  }

  // ---------------------------------------------------------------- what a server makes of it

  lemma ParseOne(max: nat, f: RawFrame, field: seq<byte>)
    requires BufferSize(max) && WellFormed(f) && |field| == 2 && f.header.payloadLength <= max - 2
    ensures Parse(max, Covered(f.header, f.payload) + field) == [Judge(f.header, f.payload + field)]
  {
    hide Parse, Judge, HeaderToBytes;
    var body := f.payload + field;
    Associate([FRAME_MARKER] + HeaderToBytes(f.header), f.payload, field);
    ParseHeader(max, f.header, body);
    assert body[..f.header.payloadLength + 2] == body && body[f.header.payloadLength + 2..] == [];
    assert Parse(max, []) == [] by { ParseTooShort(max, []); }
  }

  /** What a server's receiver reports of the bytes of a call, once it has read them in any chunks:
      the frame meant, exactly when the check field holds its check value, and otherwise exactly
      the check error. */
  function RequestReport(number: u16, c: Command): (r: Received)
    ensures Proper(r)
  {
    var f, actual := MeantFrame(number, c), U16FromBytes(CheckField(number, c));
    if CalculateCrc(f) == actual then Accepted(f) else Rejected(CrcMismatch(CalculateCrc(f), actual, f.header))
  }

  lemma ParseRequest(max: nat, number: u16, c: Command)
    requires BufferSize(max) && MeantFrame(number, c).header.payloadLength <= max - 2
    ensures Parse(max, SentBytes(BuiltFrame(number, c))) == [RequestReport(number, c)]
  {
    hide Parse, Judge, HeaderToBytes, CrcOf, BuiltFrame, MeantFrame, CheckField, U16FromBytes, Encode;
    SentAsMeant(number, c);
    ParseOne(max, MeantFrame(number, c), CheckField(number, c));
    CheckFieldDecides(MeantFrame(number, c), CheckField(number, c));
  }

  lemma RequestArrivesIff(max: nat, number: u16, c: Command, grants: seq<nat>)
    requires BufferSize(max) && MeantFrame(number, c).header.payloadLength <= max - 2
    requires Deliver(max, Header([]), SentBytes(BuiltFrame(number, c)), grants).2 == []
    ensures Deliver(max, Header([]), SentBytes(BuiltFrame(number, c)), grants).1 == [RequestReport(number, c)]
    ensures !Overlong(c) ==>
              var f := RequestFrame(number, c);
              RequestReport(number, c) ==
              if c.Query? || CalculateCrc(f) == 0 then Accepted(f)
              else Rejected(CrcMismatch(CalculateCrc(f), 0, f.header))
  {
    hide Parse, Deliver, CrcOf, BuiltFrame, MeantFrame, CheckField, Encode, U16ToBytes, U32ToBytes;
    var line := SentBytes(BuiltFrame(number, c));
    ChunkingIsInvisible(max, line, grants);
    assert line[..|line| - 0] == line;
    ParseRequest(max, number, c);
    if c.Query? {
      QueryReport(number);
    } else if !Overlong(c) {
      MeantIsRequested(number, c);
    }
  }

  lemma QueryReport(number: u16)
    ensures RequestReport(number, Query) == Accepted(RequestFrame(number, Query))
  {
    hide CrcOf;
    U16RoundTrip(CalculateCrc(BuiltFrame(number, Query)), [0, 0]);
    assert MeantFrame(number, Query) == RequestFrame(number, Query);
  }

  /** A request whose check field does not hold its check value is never answered: at no moment of
      any run on its bytes has the server put out or prepared anything. */
  lemma RefusedRequestIsNeverAnswered(max: nat, image: seq<byte>, number: u16, c: Command, calls: seq<Allowance>)
    requires FrameSize(max) && |image| == IMAGE_SIZE
    requires MeantFrame(number, c).header.payloadLength <= max - 2
    requires CalculateCrc(MeantFrame(number, c)) != U16FromBytes(CheckField(number, c))
    ensures ValidServer(max, Fresh(image))
    ensures var h := RunServer(max, Fresh(image), SentBytes(BuiltFrame(number, c)), calls);
            h.sent == [] && h.state.pending == [] && h.state.image == image && !h.state.halted
  {
    hide Parse, RunServer, CrcOf, BuiltFrame, MeantFrame, CheckField, U16FromBytes, Encode, Pending;
    var line, s := SentBytes(BuiltFrame(number, c)), Fresh(image);
    var h := RunServer(max, s, line, calls);
    RunEventsAreParsed(max, s, line, calls, h.rest);
    assert Pending(s.rx) == [] by { NothingPending(); }
    assert [] + line[..|line| - |h.rest|] + h.rest == line;
    ParseRequest(max, number, c);
    OutputIsConserved(max, s, line, calls);
    assert h.events == [] || h.events == [RequestReport(number, c)];
    UnacceptedIsIgnored(max, image, h.events);
  }

  lemma UnacceptedIsIgnored(max: nat, image: seq<byte>, events: seq<Received>)
    requires FrameSize(max) && |image| == IMAGE_SIZE
    requires forall r | r in events :: !r.Accepted?
    ensures Serve(max, image, events) == Service([], image, false)
    decreases |events|
  {
    if events != [] {
      assert events[0] in events && forall r | r in events[1..] :: r in events;
      UnacceptedIsIgnored(max, image, events[1..]);
    }
  }

  /** A message with an odd number of ones never has the check value zero. */
  lemma OddMessageHasCheckValue(m: seq<byte>)
    requires Parity(Bits(m))
    ensures CrcOf(m) != 0
  {
    hide CrcOf, Bits, Parity;
    CrcParity(m);
    if CrcOf(m) == 0 {
      assert U16ToBytes(CrcOf(m)) == [0, 0];
      BitsConcat(m, [0, 0]);
      ParityConcat(Bits(m), Bits([0, 0]));
      ZeroFieldParity();
      assert false;
    }
  }

  /** In particular every frame whose header and payload hold an odd number of ones is refused. */
  lemma OddRequestsAreRefused(f: RawFrame)
    requires WellFormed(f)
    requires Parity(Bits(Covered(f.header, f.payload)))
    ensures Judge(f.header, f.payload + [0, 0]).Rejected?
  {
    hide CrcOf, HeaderToBytes, Judge, Bits, Parity;
    assert f.payload[..|f.payload|] == f.payload;
    ZeroCheckValueDecides(f);
    OddMessageHasCheckValue(Covered(f.header, f.payload));
  }

  lemma BytesParity(b: byte, rest: seq<byte>)
    ensures Parity(Bits([b] + rest)) == (Parity(ToBits(b, 8)) != Parity(Bits(rest)))
  {
    assert ([b] + rest)[1..] == rest;
    ParityConcat(ToBits(b, 8), Bits(rest));
  }

  lemma ZeroFieldParity()
    ensures !Parity(Bits([0, 0]))
  {
    BytesParity(0, [0]);
    BytesParity(0, []);
    assert [0] + [0] == [0, 0] && [0] + [] == [0];
    assert !Parity(ToBits(0, 8)) by { NoParity(8); }
  }

  lemma StepParity(n: nat, k: nat)
    requires k > 0
    ensures Parity(ToBits(n, k)) == ((n % 2 == 1) != Parity(ToBits(n / 2, k - 1)))
  {
    assert ToBits(n, k)[1..] == ToBits(n / 2, k - 1);
  }

  lemma {:induction false} NoParity(k: nat)
    ensures !Parity(ToBits(0, k))
  {
    if k > 0 {
      StepParity(0, k);
      NoParity(k - 1);
    }
  }

  lemma ThreeSteps(n: nat, k: nat)
    requires k >= 3
    ensures Parity(ToBits(n, k)) ==
            ((n % 2 == 1) != ((n / 2 % 2 == 1) != ((n / 2 / 2 % 2 == 1) != Parity(ToBits(n / 2 / 2 / 2, k - 3)))))
  {
    hide Parity, ToBits;
    StepParity(n, k);
    StepParity(n / 2, k - 1);
    StepParity(n / 2 / 2, k - 2);
  }

  lemma SmallByteParity(b: byte, k: nat)
    requires b < 8 && k == 8
    ensures Parity(ToBits(b, k)) == ((b % 2 == 1) != ((b / 2 % 2 == 1) != (b / 4 % 2 == 1)))
  {
    hide Parity, ToBits;
    ThreeSteps(b, k);
    NoParity(k - 3);
  }

  lemma MarkerParity(b: byte, k: nat)
    requires b == FRAME_MARKER && k == 8
    ensures !Parity(ToBits(b, k))
  {
    hide Parity, ToBits;
    ThreeSteps(b, k);
    ThreeSteps(b / 8, k - 3);
    StepParity(b / 64, k - 6);
    NoParity(k - 7);
  }

  /** Two bytes below eight in front of a message. */
  lemma SmallPairParity(a: byte, b: byte, rest: seq<byte>)
    requires a < 8 && b < 8
    ensures Parity(Bits([a, b] + rest)) ==
            (((a % 2 == 1) != ((a / 2 % 2 == 1) != (a / 4 % 2 == 1))) !=
             (((b % 2 == 1) != ((b / 2 % 2 == 1) != (b / 4 % 2 == 1))) != Parity(Bits(rest))))
  {
    hide Parity, ToBits, Bits;
    TwoBytes(a, b, rest);
    SmallByteParity(a, 8);
    SmallByteParity(b, 8);
  }

  lemma NothingParity(rest: seq<byte>)
    requires rest == []
    ensures !Parity(Bits(rest))
  {
  }

  lemma FirstSmallReadParity()
    ensures Parity(Bits([0x5A, 1, 0, 1, 0, 6, 0, 0, 0, 0, 0, 1]))
  {
    hide Bits, Parity, ToBits;
    NothingParity([]);
    var t1: seq<byte> := [0, 1] + [];
    var t2: seq<byte> := [0, 0] + t1;
    var t3: seq<byte> := [0, 0] + t2;
    var t4: seq<byte> := [0, 6] + t3;
    var t5: seq<byte> := [0, 1] + t4;
    SmallPairParity(0, 1, []);
    SmallPairParity(0, 0, t1);
    SmallPairParity(0, 0, t2);
    SmallPairParity(0, 6, t3);
    SmallPairParity(0, 1, t4);
    TwoBytes(0x5A, 1, t5);
    MarkerParity(0x5A, 8);
    SmallByteParity(1, 8);
    assert [0x5A, 1] + t5 == [0x5A, 1, 0, 1, 0, 6, 0, 0, 0, 0, 0, 1];
  }

  lemma TwoBytes(a: byte, b: byte, rest: seq<byte>)
    ensures Parity(Bits([a, b] + rest)) ==
            (Parity(ToBits(a, 8)) != (Parity(ToBits(b, 8)) != Parity(Bits(rest))))
  {
    BytesParity(a, [b] + rest);
    BytesParity(b, rest);
    assert [a] + ([b] + rest) == [a, b] + rest;
  }

  /** The very first read of a new client, of one byte at address zero, is lost. */
  lemma FirstSmallReadIsLost()
    ensures var f := RequestFrame(1, Read(0, 1));
            Judge(f.header, SentBytes(BuiltFrame(1, Read(0, 1)))[HEADER_SIZE..]).Rejected?
  {
    hide CrcOf, Judge, Bits, Parity, RequestFrame, BuiltFrame, SentBytes, Covered;
    var f := RequestFrame(1, Read(0, 1));
    OnlyQueryIsSentWhole(1, Read(0, 1));
    assert SentBytes(BuiltFrame(1, Read(0, 1)))[HEADER_SIZE..] == f.payload + [0, 0] by {
      CoveredBehindHeader(f, [0, 0]);
    }
    FirstSmallReadBytes();
    FirstSmallReadParity();
    OddRequestsAreRefused(f);
  }

  lemma CoveredBehindHeader(f: RawFrame, field: seq<byte>)
    ensures |Covered(f.header, f.payload) + field| >= HEADER_SIZE
    ensures (Covered(f.header, f.payload) + field)[HEADER_SIZE..] == f.payload + field
  {
  }

  lemma FirstSmallReadBytes()
    ensures var f := RequestFrame(1, Read(0, 1));
            Covered(f.header, f.payload) == [0x5A, 1, 0, 1, 0, 6, 0, 0, 0, 0, 0, 1]
  {
  }

  // ---------------------------------------------------------------- what a call accepts

  /** The size of a reply as announced by its first six bytes; their first byte is not looked
      at. */
  function ReplySize(head: seq<byte>): (size: Result<nat, FrameError>)
    requires |head| >= HEADER_SIZE
    ensures size.Ok? ==> size.value >= HEADER_SIZE + 2
  {
    match HeaderFromBytes(head[1..HEADER_SIZE])
    case Ok(h) => Ok(HEADER_SIZE + h.payloadLength + 2)
    case Err(e) => Err(e)
  }

  /** The size is read off the bytes: it is announced exactly when the type byte is known. */
  lemma ReplySizeOutcome(head: seq<byte>)
    requires |head| >= HEADER_SIZE
    ensures ReplySize(head) ==
            if KnownType(head[1]) then Ok(8 + Two(head[4], head[5])) else Err(InvalidFrameType)
  {
    hide HeaderFromBytes;
    HeaderOutcome(head[1..HEADER_SIZE]);
  }

  function VersionReply(number: u16, version: u32, maxPayload: u16): (f: RawFrame)
    ensures WellFormed(f)
  {
    Reply(QueryVersion, number, U32ToBytes(version) + U16ToBytes(maxPayload))
  }

  function VersionFromFrame(number: u16, raw: RawFrame): Option<(u32, u16)> {
    match FrameFromRaw(raw)
    case Ok(QueryVersionResponse(r)) =>
      if r.header.frameNumber != number then None
      else Some((U32FromBytes(r.payload[..4]), U16FromBytes(r.payload[4..6])))
    case _ => None
  }

  /** What a version query makes of a reply of the announced size. */
  function VersionFromReply(number: u16, reply: seq<byte>): Option<(u32, u16)> {
    match ReadFrame(reply)
    case Err(_) => None
    case Ok((raw, _)) => VersionFromFrame(number, raw)
  }

  /** A version query succeeds on a checked frame exactly when its header is that of a version reply
      with the query's number, and then returns what the payload says, whatever it says. */
  lemma VersionTakenIff(number: u16, reply: seq<byte>)
    ensures VersionFromReply(number, reply).Some? <==>
            ReadFrame(reply).Ok? && ReadFrame(reply).value.0.header == FrameHeader(Response(QueryVersion), number, 6)
    ensures VersionFromReply(number, reply).Some? ==>
              var p := ReadFrame(reply).value.0.payload;
              && |p| == 6
              && VersionFromReply(number, reply) == Some((Four(p[0], p[1], p[2], p[3]), Two(p[4], p[5])))
  {
    hide ReadFrame, MarkerIndex, Encode;
    match ReadFrame(reply)
    case Err(_) =>
    case Ok((f, n)) => ReadFrameSound(reply, f, n);
  }

  /** Every version and every payload size comes back from the reply that carries it. */
  lemma EveryVersionIsTaken(number: u16, version: u32, maxPayload: u16)
    ensures var e := Encode(VersionReply(number, version, maxPayload));
            && |e| == 14 && ReplySize(e) == Ok(14)
            && VersionFromReply(number, e) == Some((version, maxPayload))
  {
    hide CrcOf, ReadFrame, HeaderToBytes, HeaderFromBytes, U32ToBytes, U16ToBytes, U32FromBytes, U16FromBytes;
    var f := VersionReply(number, version, maxPayload);
    assert Encode(f)[1..HEADER_SIZE] == HeaderToBytes(f.header);
    HeaderRoundTrip(f.header, []);
    assert HeaderToBytes(f.header) + [] == HeaderToBytes(f.header);
    ReadFrameRoundTrip([], f, []);
    assert [] + Encode(f) + [] == Encode(f);
    RepliesDecode(number, version, maxPayload, [], InvalidAddress);
  }

  lemma SizeOfPrefix(queue: seq<byte>, n: nat)
    requires HEADER_SIZE <= n <= |queue|
    ensures ReplySize(queue) == ReplySize(queue[..n])
  {
    assert queue[..n][1..HEADER_SIZE] == queue[1..HEADER_SIZE];
  }

  lemma QueuedVersionIsTaken(number: u16, version: u32, maxPayload: u16, queue: seq<byte>)
    requires |queue| >= 14 && queue[..14] == Encode(VersionReply(number, version, maxPayload))
    ensures ReplySize(queue) == Ok(14)
    ensures VersionFromReply(number, queue[..14]) == Some((version, maxPayload))
  {
    hide ReplySize, VersionFromReply, Encode;
    SizeOfPrefix(queue, 14);
    EveryVersionIsTaken(number, version, maxPayload);
  }

  /** A version query succeeds only when the first marker of the bytes it took begins the encoding
      of a version reply with its own number, and it returns what that reply means. */
  lemma AcceptedReplyIsVersionReply(number: u16, reply: seq<byte>, f: RawFrame, n: nat)
    requires VersionFromReply(number, reply).Some?
    requires ReadFrame(reply) == Ok((f, n))
    ensures WellFormed(f) && f.header == FrameHeader(Response(QueryVersion), number, 6)
    ensures HEADER_SIZE <= n && MarkerIndex(reply) <= n - HEADER_SIZE <= |reply|
    ensures reply[MarkerIndex(reply)..n - HEADER_SIZE] == Encode(f)
    ensures var (version, maxPayload) := VersionFromReply(number, reply).value;
            Meaning(f) == VersionIs(version, maxPayload)
  {
    hide ReadFrame, Encode, MarkerIndex, U32FromBytes, U16FromBytes;
    ReadFrameSound(reply, f, n);
  }

  /** The bytes taken are that encoding and nothing else exactly when the first of them, which only
      the search for a marker looks at, is a marker. */
  lemma WholeReplyIffMarkerFirst(number: u16, reply: seq<byte>, f: RawFrame, n: nat)
    requires VersionFromReply(number, reply).Some?
    requires ReadFrame(reply) == Ok((f, n))
    requires |reply| >= HEADER_SIZE && ReplySize(reply) == Ok(|reply|)
    ensures reply[0] == FRAME_MARKER <==> reply == Encode(f)
  {
    hide ReadFrame, MarkerIndex, CrcOf, HeaderFromBytes, HeaderToBytes, FrameFromRaw;
    AcceptedReplyIsVersionReply(number, reply, f, n);
    if reply[0] == FRAME_MARKER {
      assert MarkerIndex(reply) == 0 by { MarkerAtFront(reply); }
      assert reply[..n - HEADER_SIZE] == Encode(f);
      assert reply[1..HEADER_SIZE] == Encode(f)[1..HEADER_SIZE] == HeaderToBytes(f.header);
      HeaderRoundTrip(f.header, []);
      assert HeaderToBytes(f.header) + [] == HeaderToBytes(f.header);
      assert reply[..|reply|] == reply;
    }
  }

  lemma MarkerAtFront(b: seq<byte>)
    requires b != [] && b[0] == FRAME_MARKER
    ensures MarkerIndex(b) == 0
  {
  }

  /** A reply of twenty bytes that is accepted with six bytes in front of the encoding: without a
      marker, but with a length field that covers the rest. */
  lemma ReplyBehindJunkIsAccepted(number: u16)
    ensures var f := VersionReply(number, VERSION, 120);
            var reply := [0, 0, 0, 0, 0, 12] + Encode(f);
            && ReplySize(reply) == Ok(20) && |reply| == 20
            && VersionFromReply(number, reply) == Some((VERSION, 120))
            && reply != Encode(f)
  {
    hide CrcOf, ReadFrame, U32ToBytes, U16ToBytes, U32FromBytes, HeaderToBytes;
    var f := VersionReply(number, VERSION, 120);
    var junk: seq<byte> := [0, 0, 0, 0, 0, 12];
    var reply := junk + Encode(f);
    assert reply[1..HEADER_SIZE] == [0, 0, 0, 0, 12];
    assert [0, 0, 0, 0, 12][3..5] == [0, 12];
    ReadFrameRoundTrip(junk, f, []);
    assert reply + [] == reply;
    RepliesDecode(number, VERSION, 120, [], InvalidAddress);
  }

  /** No error reply, under any number, makes a version query succeed; nor does it decode to the
      typed reply any other call waits for. */
  lemma ErrorReplyIsNeverSuccess(number: u16, replyNumber: u16, e: ServerError)
    ensures VersionFromReply(number, Encode(ErrorReplyFrame(replyNumber, e))) == None
    ensures Meaning(ErrorReplyFrame(replyNumber, e)).Refused?
  {
    hide Encode, ReadFrame;
    var f := ErrorReplyFrame(replyNumber, e);
    ReadFrameRoundTrip([], f, []);
    assert [] + Encode(f) + [] == Encode(f);
    RepliesDecode(replyNumber, 0, 0, [], e);
  }

  class Client {
    var nextFrameNumber: u16

    constructor ()
      ensures nextFrameNumber == 1
    {
      nextFrameNumber := 1;
    }

    /** Hands out frame numbers in turn, wrapping around at 2^16. */
    method NextFrameNumber() returns (number: u16)
      modifies this
      ensures number == old(nextFrameNumber)
      ensures nextFrameNumber == (old(nextFrameNumber) + 1) % 0x1_0000
    {
      number := nextFrameNumber;
      nextFrameNumber := (nextFrameNumber + 1) % 0x1_0000;
    }

    /** `read_exact`: all the bytes asked for, or failure. */
    static method ReadExact(reader: Reader, buffer: array<byte>, offset: nat) returns (ok: bool)
      requires offset <= buffer.Length
      modifies reader`arrived, buffer
      ensures reader.fault ==> reader.arrived == old(reader.arrived)
      ensures ok <==> !reader.fault && |old(reader.arrived)| >= buffer.Length - offset
      ensures ok ==>
                var n := buffer.Length - offset;
                && buffer[..] == old(buffer[..offset]) + old(reader.arrived)[..n]
                && reader.arrived == old(reader.arrived)[n..]
    {
      var count := reader.Read(buffer, offset, buffer.Length - offset);
      ok := count == Some(buffer.Length - offset);
    }

    /** The reply half of a version query, on bytes that have all arrived or from a reader that
        fails: six header bytes, as many more as they announce, and the checks. */
    static method ReceiveVersion(number: u16, reader: Reader) returns (result: Option<(u32, u16)>)
      modifies reader`arrived
      ensures reader.fault ==> result == None && reader.arrived == old(reader.arrived)
      ensures !reader.fault ==>
              var queue := old(reader.arrived);
              if |queue| >= HEADER_SIZE && ReplySize(queue).Ok? && ReplySize(queue).value <= |queue| then
                && result == VersionFromReply(number, queue[..ReplySize(queue).value])
                && reader.arrived == queue[ReplySize(queue).value..]
              else result == None
      ensures !reader.fault ==>
              forall version: u32, maxPayload: u16 |
                |old(reader.arrived)| >= 14
                && old(reader.arrived)[..14] == Encode(VersionReply(number, version, maxPayload)) ::
                result == Some((version, maxPayload)) && reader.arrived == old(reader.arrived)[14..]
    {
      hide ReadFrame, HeaderFromBytes, FrameFromRaw, Encode, VersionReply;
      ghost var queue := reader.arrived;
      forall version: u32, maxPayload: u16 |
        |queue| >= 14 && queue[..14] == Encode(VersionReply(number, version, maxPayload))
        ensures ReplySize(queue) == Ok(14)
        ensures VersionFromReply(number, queue[..14]) == Some((version, maxPayload))
      {
        QueuedVersionIsTaken(number, version, maxPayload, queue);
      }
      var headerBuffer := new byte[HEADER_SIZE];
      var ok := ReadExact(reader, headerBuffer, 0);
      if !ok {
        return None;
      }
      assert headerBuffer[..] == queue[..HEADER_SIZE];
      assert queue[1..HEADER_SIZE] == headerBuffer[1..HEADER_SIZE];
      match ReplySize(headerBuffer[..])
      case Err(_) =>
        return None;
      case Ok(size) =>
        var frameBuffer := new byte[size];
        forall i | 0 <= i < HEADER_SIZE {
          frameBuffer[i] := headerBuffer[i];
        }
        assert frameBuffer[..HEADER_SIZE] == queue[..HEADER_SIZE];
        ok := ReadExact(reader, frameBuffer, HEADER_SIZE);
        if !ok {
          return None;
        }
        assert frameBuffer[..] == queue[..size];
        result := VersionFromReply(number, frameBuffer[..]);
    }

    /** Writes the frame through a cursor over a buffer of the size the header announces. */
    method SendFrameRaw(frame: RawFrame) returns (frameBuffer: array<byte>)
      requires |frame.payload| >= frame.header.payloadLength
      ensures frameBuffer[..] == SentBytes(frame)
    {
      hide Encode;
      frameBuffer := new byte[HEADER_SIZE + frame.header.payloadLength + 2](_ => 0);
      var cursor := new Cursor(frameBuffer);
      var _ := WriteFrame(frame, cursor);
    }

    /** The request half of a call. */
    method SendRequest(command: Command) returns (number: u16, frameBuffer: array<byte>)
      modifies this
      ensures number == old(nextFrameNumber) && nextFrameNumber == (number + 1) % 0x1_0000
      ensures frameBuffer[..] == SentBytes(BuiltFrame(number, command))
    {
      number := NextFrameNumber();
      var frame := MakeFrame(number, command);
      frameBuffer := SendFrameRaw(frame);
    }

    static method MakeFrame(number: u16, command: Command) returns (frame: RawFrame)
      ensures frame == BuiltFrame(number, command)
    {
      hide U32ToBytes, U16ToBytes;
      match command {
        case Query =>
          frame := RequestFrame(number, command);
        case Read(address, length) =>
          var payload := Filled(HEADER_SIZE + 6 + 2, U32ToBytes(address) + U16ToBytes(length));
          frame := RawFrame(FrameHeader(Request(ReadMemory), number, 6), payload);
        case Write(address, data) =>
          var payload := Filled(HEADER_SIZE + 6 + 2 + |data|, U32ToBytes(address) + data);
          frame := RawFrame(FrameHeader(Request(WriteMemory), number, (4 + |data|) % 0x1_0000), payload);
        case Start(address) =>
          var payload := Filled(HEADER_SIZE + 4 + 2, U32ToBytes(address));
          frame := RawFrame(FrameHeader(Request(Run), number, 4), payload);
      }
    }

    /** A zeroed buffer of the given size with data copied to its front. */
    static method Filled(size: nat, data: seq<byte>) returns (payload: seq<byte>)
      requires |data| <= size
      ensures payload == data + seq(size - |data|, _ => 0)
    {
      var buffer := new byte[size](_ => 0);
      forall i | 0 <= i < |data| {
        buffer[i] := data[i];
      }
      return buffer[..];
    }
  }
}
