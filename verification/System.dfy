/** Client and server over two lossless byte queues, under every interleaving of their steps. */
module QueryProtocol {
  import opened Bytes
  import opened Crc
  import opened Frames
  import opened Receiving
  import opened Memory
  import opened Serving
  import opened ServerTheorems
  import opened Sessions
  import opened Clients

  // ---------------------------------------------------------------- the state machine

  /** Where a client is in its calls: between them, with request bytes still to be written, or
      with the reply bytes read so far. */
  datatype Phase =
    | Idle
    | Sending(number: u16, rest: seq<byte>)
    | Reading(number: u16, got: seq<byte>)

  datatype System = System(
    nextNumber: u16,
    phase: Phase,
    requests: seq<byte>,
    replies: seq<byte>,
    server: ServerState,
    results: seq<Option<(u32, u16)>>)

  /** A scheduler's choice: a new call begins, the client writes or reads up to so many bytes, or
      the server runs once. */
  datatype Step = Begin | ClientWrites(n: nat) | ClientReads(n: nat) | ServerRuns(allowance: Allowance)

  function QueryFrame(number: u16): (f: RawFrame)
    ensures WellFormed(f)
  {
    RequestFrame(number, Query)
  }

  function VersionFrame(max: nat, number: u16): (f: RawFrame)
    requires FrameSize(max)
    ensures WellFormed(f)
  {
    VersionReply(number, VERSION, max - HEADER_SIZE - 2)
  }

  /** How many more bytes the client waits for, given those it has read. */
  function Wanted(got: seq<byte>): nat {
    if |got| < HEADER_SIZE then HEADER_SIZE - |got|
    else
      match ReplySize(got)
      case Ok(size) => if size < |got| then 0 else size - |got|
      case Err(_) => 0
  }

  /** The phase and results after reading: a header that cannot be parsed ends the call, as does
      the last byte of the reply. */
  function AfterReading(number: u16, got: seq<byte>): (Phase, seq<Option<(u32, u16)>>) {
    if |got| < HEADER_SIZE then (Reading(number, got), [])
    else
      match ReplySize(got)
      case Err(_) => (Idle, [None])
      case Ok(size) =>
        if |got| < size then (Reading(number, got), []) else (Idle, [VersionFromReply(number, got)])
  }

  function Next(max: nat, s: System, step: Step): System
    requires ValidServer(max, s.server)
  {
    match step
    case Begin =>
      if s.phase != Idle then s
      else
        s.(nextNumber := (s.nextNumber + 1) % 0x1_0000,
           phase := Sending(s.nextNumber, SentBytes(BuiltFrame(s.nextNumber, Query))))
    case ClientWrites(n) =>
      if !s.phase.Sending? then s
      else
        var k := Min(n, |s.phase.rest|);
        var rest := s.phase.rest[k..];
        s.(phase := if rest == [] then Reading(s.phase.number, []) else Sending(s.phase.number, rest),
           requests := s.requests + s.phase.rest[..k])
    case ClientReads(n) =>
      if !s.phase.Reading? then s
      else
        var k := Min(n, Min(Wanted(s.phase.got), |s.replies|));
        var (phase, outcome) := AfterReading(s.phase.number, s.phase.got + s.replies[..k]);
        s.(phase := phase, replies := s.replies[k..], results := s.results + outcome)
    case ServerRuns(allowance) =>
      var m := Process(max, s.server, s.requests, allowance);
      s.(server := m.state, requests := s.requests[m.taken..], replies := s.replies + m.sent)
  }

  function Init(image: seq<byte>): System {
    System(1, Idle, [], [], Fresh(image), [])
  }

  // ---------------------------------------------------------------- the invariant

  /** The request, or what is left of it, lies between the client and the server's receiver. */
  predicate Asking(s: System, number: u16, rest: seq<byte>) {
    && s.replies == [] && s.server.pending == []
    && Pending(s.server.rx) + s.requests + rest == Encode(QueryFrame(number))
  }

  /** The reply lies between the server's buffer and the client. */
  predicate Answering(max: nat, s: System, number: u16, got: seq<byte>)
    requires FrameSize(max)
  {
    && s.server.rx == Header([]) && s.requests == []
    && got + s.replies + s.server.pending == Encode(VersionFrame(max, number))
    && |got| < |Encode(VersionFrame(max, number))|
  }

  predicate Quiet(s: System) {
    s.requests == [] && s.replies == [] && s.server.pending == [] && s.server.rx == Header([])
  }

  predicate Inv(max: nat, s: System) {
    && ValidServer(max, s.server) && !s.server.halted
    && (match s.phase
        case Idle => Quiet(s)
        case Sending(number, rest) => rest != [] && Asking(s, number, rest)
        case Reading(number, got) => (got == [] && Asking(s, number, [])) || Answering(max, s, number, got))
    && (forall r | r in s.results :: r == Some((VERSION, max - HEADER_SIZE - 2)))
    && (var begun := |s.results| + (if s.phase.Idle? then 0 else 1);
        && s.nextNumber == (1 + begun) % 0x1_0000
        && (!s.phase.Idle? ==> s.phase.number == begun % 0x1_0000))
  }

  // ---------------------------------------------------------------- a frame on its way in

  lemma HeaderBytesInjective(h: FrameHeader, g: FrameHeader)
    requires Parseable(h.frameType) && Parseable(g.frameType)
    requires HeaderToBytes(h) == HeaderToBytes(g)
    ensures h == g
  {
    hide HeaderToBytes, HeaderFromBytes;
    HeaderRoundTrip(h, []);
    HeaderRoundTrip(g, []);
  }

  /** Two splittings of a frame agree on the header and on what follows it. */
  lemma SameHead(h: FrameHeader, rest: seq<byte>, f: RawFrame)
    requires WellFormed(f) && Parseable(h.frameType)
    requires [FRAME_MARKER] + HeaderToBytes(h) + rest == Encode(f)
    ensures h == f.header && rest == Intact([], f).body
  {
    hide HeaderToBytes, CrcOf, U16ToBytes;
    var e := Encode(f);
    assert f.payload[..|f.payload|] == f.payload;
    assert e[1..HEADER_SIZE] == HeaderToBytes(h);
    assert e[1..HEADER_SIZE] == HeaderToBytes(f.header);
    HeaderBytesInjective(h, f.header);
    assert e[HEADER_SIZE..] == rest;
    assert e[HEADER_SIZE..] == Intact([], f).body;
  }

  /** A receiver that is in the middle of a frame stays in it until the last byte, and then
      reports it. */
  lemma AdvanceWithinFrame(max: nat, rx: RxState, chunk: seq<byte>, later: seq<byte>, f: RawFrame)
    requires BufferSize(max) && ValidRx(max, rx) && |chunk| <= Demand(max, rx)
    requires WellFormed(f) && f.header.payloadLength <= max - 2
    requires Pending(rx) + chunk + later == Encode(f)
    ensures var (next, r) := Advance(max, rx, chunk);
            if later == [] then next == Header([]) && r == Accepted(f)
            else r == Nothing && Pending(next) + later == Encode(f)
  {
    hide HeaderToBytes, AfterWindow, Judge, Encode, CrcOf, U16ToBytes;
    match rx
    case Header(got) =>
      assert |Encode(f)| >= 8 by { EncodedSize(f); }
      if |got + chunk| == HEADER_SIZE {
        WholeHeaderStartsBody(max, got + chunk, later, f);
      }
      assert chunk == [] ==> got + chunk == got;
    case Payload(got, h) =>
      Associate([FRAME_MARKER] + HeaderToBytes(h), got, chunk);
      Associate([FRAME_MARKER] + HeaderToBytes(h), got + chunk, later);
      SameHead(h, got + chunk + later, f);
      IntactIsAccepted([], f);
      assert later == [] ==> got + chunk + later == got + chunk;
      assert chunk == [] ==> Pending(rx) + chunk == Pending(rx);
    case Discard(_, h) =>
      Associate([FRAME_MARKER] + HeaderToBytes(h), chunk, later);
      SameHead(h, chunk + later, f);
      assert false;
  }

  lemma EncodedSize(f: RawFrame)
    requires WellFormed(f)
    ensures |Encode(f)| == HEADER_SIZE + f.header.payloadLength + 2
  {
  }

  lemma EmptyRx(max: nat, rx: RxState, f: RawFrame)
    requires BufferSize(max) && ValidRx(max, rx)
    requires WellFormed(f) && f.header.payloadLength <= max - 2
    ensures Pending(rx) != Encode(f)
  {
    hide Encode, Advance, Pending;
    if Pending(rx) == Encode(f) {
      assert Pending(rx) + [] + [] == Pending(rx);
      AdvanceWithinFrame(max, rx, [], [], f);
      AdvanceNothing(max, rx);
    }
  }

  lemma AdvanceNothing(max: nat, rx: RxState)
    requires BufferSize(max) && ValidRx(max, rx)
    ensures Advance(max, rx, []) == (rx, Nothing)
  {
  }

  /** The server answers the query it has read with the version reply, whatever its image. */
  lemma QueryIsAnswered(max: nat, image: seq<byte>, number: u16)
    requires FrameSize(max) && |image| == IMAGE_SIZE
    ensures React(max, image, Accepted(QueryFrame(number))) == (Answer(VersionFrame(max, number)), image)
  {
    hide U32ToBytes, U16ToBytes;
    RequestDecodes(number, Query);
  }

  /** The client takes the whole version reply for what it says. */
  lemma VersionReplyIsTaken(max: nat, number: u16, got: seq<byte>, rest: seq<byte>)
    requires FrameSize(max)
    requires got + rest == Encode(VersionFrame(max, number))
    ensures |got| + |rest| == 14
    ensures |got| >= HEADER_SIZE ==> ReplySize(got) == Ok(14)
    ensures rest == [] ==> VersionFromReply(number, got) == Some((VERSION, max - HEADER_SIZE - 2))
  {
    hide HeaderToBytes, HeaderFromBytes, CrcOf, ReadFrame, U32ToBytes, U16ToBytes, U32FromBytes, U16FromBytes;
    var f := VersionFrame(max, number);
    EncodedSize(f);
    if |got| >= HEADER_SIZE {
      assert got[1..HEADER_SIZE] == (got + rest)[1..HEADER_SIZE];
      assert Encode(f)[1..HEADER_SIZE] == HeaderToBytes(f.header);
      HeaderRoundTrip(f.header, []);
      assert HeaderToBytes(f.header) + [] == HeaderToBytes(f.header);
    }
    if rest == [] {
      assert got == [] + Encode(f) + [];
      ReadFrameRoundTrip([], f, []);
      RepliesDecode(number, VERSION, max - HEADER_SIZE - 2, [], InvalidAddress);
    }
  }

  // ---------------------------------------------------------------- every step keeps it

  lemma BeginKeepsInv(max: nat, s: System)
    requires Inv(max, s)
    ensures Inv(max, Next(max, s, Begin))
  {
    hide Encode, ValidRx;
    if s.phase.Idle? {
      OnlyQueryIsSentWhole(s.nextNumber, Query);
      EncodedSize(QueryFrame(s.nextNumber));
      var e := Encode(QueryFrame(s.nextNumber));
      assert [] + [] + e == e;
    }
  }

  lemma WriteKeepsInv(max: nat, s: System, n: nat)
    requires Inv(max, s)
    ensures Inv(max, Next(max, s, ClientWrites(n)))
  {
    hide Encode, ValidRx, Pending;
    if s.phase.Sending? {
      var k := Min(n, |s.phase.rest|);
      var p, q, a, b := Pending(s.server.rx), s.requests, s.phase.rest[..k], s.phase.rest[k..];
      assert s.phase.rest == a + b;
      Associate(p + q, a, b);
      Associate(p, q, a);
    }
  }

  /** Reading on within the reply: the call goes on, or ends with the right result and nothing
      left over. */
  lemma ClientReadsOn(max: nat, s: System, number: u16, got: seq<byte>, n: nat)
    requires ValidServer(max, s.server)
    requires s.phase == Reading(number, got) && Answering(max, s, number, got)
    ensures var t := Next(max, s, ClientReads(n));
            || (&& t.phase.Reading? && t.phase.number == number && Answering(max, t, number, t.phase.got)
                && t.results == s.results)
            || (&& t.phase == Idle && Quiet(t)
                && t.results == s.results + [Some((VERSION, max - HEADER_SIZE - 2))])
  {
    hide Encode, ValidRx, VersionFromReply, ReplySize;
    var e := Encode(VersionFrame(max, number));
    Associate(got, s.replies, s.server.pending);
    VersionReplyIsTaken(max, number, got, s.replies + s.server.pending);
    var k := Min(n, Min(Wanted(got), |s.replies|));
    var got', rest := got + s.replies[..k], s.replies[k..] + s.server.pending;
    assert got' + rest == e;
    VersionReplyIsTaken(max, number, got', rest);
    Associate(got', s.replies[k..], s.server.pending);
  }

  lemma ReadKeepsInv(max: nat, s: System, n: nat)
    requires Inv(max, s)
    ensures Inv(max, Next(max, s, ClientReads(n)))
  {
    hide Encode, ValidRx, Pending;
    if s.phase.Reading? {
      var number, got := s.phase.number, s.phase.got;
      if got == [] && Asking(s, number, []) {
        assert got + s.replies[..0] == [];
        assert s.replies[0..] == [];
      } else {
        ClientReadsOn(max, s, number, got, n);
      }
    }
  }

  /** The server's part of a call: reading on within the query, or answering it. */
  lemma ServerReadsOn(max: nat, s: System, number: u16, rest: seq<byte>, a: Allowance)
    requires ValidServer(max, s.server) && !s.server.halted && Asking(s, number, rest)
    ensures var m := Process(max, s.server, s.requests, a);
            && m.sent == [] && !m.state.halted
            && var later := s.requests[m.taken..] + rest;
               if later != [] then
                 m.state.pending == [] && Pending(m.state.rx) + later == Encode(QueryFrame(number))
               else
                 m.state.rx == Header([]) && m.state.pending == Encode(VersionFrame(max, number))
  {
    hide Process, Encode, ValidRx, Pending;
    var rx := s.server.rx;
    if a.readFault {
      FaultyCall(max, s.server, s.requests, a);
      assert s.requests[0..] == s.requests;
      Associate(Pending(rx), s.requests, rest);
      if s.requests + rest == [] {
        assert Pending(rx) + [] == Pending(rx);
        EmptyRx(max, rx, QueryFrame(number));
      }
    } else {
      var m := Process(max, s.server, s.requests, a);
      var chunk, left := s.requests[..m.taken], s.requests[m.taken..];
      assert s.requests == chunk + left;
      assert Pending(rx) + chunk + (left + rest) == Pending(rx) + (chunk + left) + rest;
      ServerReads(max, s.server, s.requests, number, left + rest, a);
    }
  }

  lemma FaultyCall(max: nat, s: ServerState, stream: seq<byte>, a: Allowance)
    requires ValidServer(max, s) && !s.halted && s.pending == [] && a.readFault
    ensures Process(max, s, stream, a) == Moved(s, 0, [], Nothing)
  {
  }

  lemma ServerReads(max: nat, s: ServerState, stream: seq<byte>, number: u16, later: seq<byte>, a: Allowance)
    requires ValidServer(max, s) && !s.halted && s.pending == [] && !a.readFault
    requires Pending(s.rx) + stream[..Process(max, s, stream, a).taken] + later == Encode(QueryFrame(number))
    ensures var m := Process(max, s, stream, a);
            && m.sent == [] && !m.state.halted
            && if later != [] then
                 m.state.pending == [] && Pending(m.state.rx) + later == Encode(QueryFrame(number))
               else
                 m.state.rx == Header([]) && m.state.pending == Encode(VersionFrame(max, number))
  {
    hide Advance, Encode, ValidRx, Pending, Dispatch, FrameFromRaw, Demand;
    var m := Process(max, s, stream, a);
    AdvanceWithinFrame(max, s.rx, stream[..m.taken], later, QueryFrame(number));
    QueryIsAnswered(max, s.image, number);
  }

  lemma ServerKeepsInv(max: nat, s: System, a: Allowance)
    requires Inv(max, s)
    ensures Inv(max, Next(max, s, ServerRuns(a)))
  {
    hide Encode, ValidRx, Pending, Process, ValidServer;
    ProcessInvariant(max, s.server, s.requests, a);
    match s.phase
    case Idle =>
      ServerIdles(max, s.server, a);
    case Sending(number, rest) =>
      ServerReadsOn(max, s, number, rest, a);
      AskingNext(max, s, number, rest, a);
    case Reading(number, got) =>
      if got == [] && Asking(s, number, []) {
        ServerReadsOn(max, s, number, [], a);
        AskingNext(max, s, number, [], a);
      } else {
        ServerIdles(max, s.server, a);
        var m := Process(max, s.server, s.requests, a);
        assert got + s.replies + (m.sent + m.state.pending) == got + (s.replies + m.sent) + m.state.pending;
      }
  }

  lemma AskingNext(max: nat, s: System, number: u16, rest: seq<byte>, a: Allowance)
    requires ValidServer(max, s.server) && !s.server.halted && Asking(s, number, rest)
    ensures var t := Next(max, s, ServerRuns(a));
            || Asking(t, number, rest)
            || (rest == [] && Answering(max, t, number, []))
  {
    hide Encode, ValidRx, Pending, Process;
    ServerReadsOn(max, s, number, rest, a);
    var t := Next(max, s, ServerRuns(a));
    if t.requests + rest == [] {
      EncodedSize(VersionFrame(max, number));
      assert [] + t.replies + t.server.pending == t.server.pending;
    } else {
      Associate(Pending(t.server.rx), t.requests, rest);
    }
  }

  /** With nothing to read, a call only sends. */
  lemma ServerIdles(max: nat, s: ServerState, a: Allowance)
    requires ValidServer(max, s) && !s.halted
    ensures var m := Process(max, s, [], a);
            && m.taken == 0 && m.state.rx == s.rx && !m.state.halted
            && s.pending == m.sent + m.state.pending
  {
    hide Encode, ValidRx;
    AdvanceNothing(max, s.rx);
  }

  lemma NextKeepsInv(max: nat, s: System, step: Step)
    requires Inv(max, s)
    ensures Inv(max, Next(max, s, step))
  {
    hide Inv, Next;
    match step
    case Begin => BeginKeepsInv(max, s);
    case ClientWrites(n) => WriteKeepsInv(max, s, n);
    case ClientReads(n) => ReadKeepsInv(max, s, n);
    case ServerRuns(a) => ServerKeepsInv(max, s, a);
  }

  // ---------------------------------------------------------------- every run

  function RunSystem(max: nat, s: System, steps: seq<Step>): System
    requires Inv(max, s)
    decreases |steps|
  {
    if steps == [] then s
    else
      NextKeepsInv(max, s, steps[0]);
      RunSystem(max, Next(max, s, steps[0]), steps[1..])
  }

  lemma {:induction false} RunKeepsInv(max: nat, s: System, steps: seq<Step>)
    requires Inv(max, s)
    ensures Inv(max, RunSystem(max, s, steps))
    decreases |steps|
  {
    hide Next;
    if steps != [] {
      NextKeepsInv(max, s, steps[0]);
      RunKeepsInv(max, Next(max, s, steps[0]), steps[1..]);
    }
  }

  lemma InitInv(max: nat, image: seq<byte>)
    requires FrameSize(max) && |image| == IMAGE_SIZE
    ensures Inv(max, Init(image))
  {
  }

  /** Any number of version queries, under any interleaving of short reads, short writes, write
      errors and read errors: every call that has finished returned the handler's version and
      the payload size, between calls both queues and the server are empty, and the frame
      numbers count the calls modulo 2^16. */
  lemma EveryQuerySucceeds(max: nat, image: seq<byte>, steps: seq<Step>)
    requires FrameSize(max) && |image| == IMAGE_SIZE
    ensures Inv(max, Init(image))
    ensures var s := RunSystem(max, Init(image), steps);
            && (forall r | r in s.results :: r == Some((1, max - 8)))
            && (s.phase.Idle? ==> s.requests == [] && s.replies == [] && s.server.pending == [])
            && (s.phase.Idle? ==> s.nextNumber == (1 + |s.results|) % 0x1_0000)
            && !s.server.halted
  {
    hide RunSystem;
    InitInv(max, image);
    RunKeepsInv(max, Init(image), steps);
  }

  // ---------------------------------------------------------------- progress

  /** How far the bytes of the current call still have to travel: each has one queue to enter and
      one to leave, and the reply is worth more than anything left of it once it is under way. */
  function Distance(s: System): nat {
    match s.phase
    case Idle => 0
    case Sending(_, rest) => 40 + 2 * |rest| + |s.requests|
    case Reading(number, got) =>
      if got == [] && Asking(s, number, []) then 40 + |s.requests|
      else 2 * |s.server.pending| + |s.replies|
  }

  lemma ReplyDistance(max: nat, s: System, number: u16, got: seq<byte>)
    requires FrameSize(max) && Answering(max, s, number, got)
    ensures 2 * |s.server.pending| + |s.replies| <= 28
    ensures !Asking(s, number, [])
    ensures s.replies != [] || s.server.pending != []
  {
    hide HeaderToBytes, CrcOf, Encode;
    EncodedSize(VersionFrame(max, number));
    EncodedSize(QueryFrame(number));
    assert |got + s.replies + s.server.pending| == |got| + |s.replies| + |s.server.pending|;
  }

  lemma ServerStays(max: nat, s: ServerState, a: Allowance)
    requires ValidServer(max, s) && !s.halted
    ensures var m := Process(max, s, [], a);
            m.state == s.(pending := m.state.pending) && s.pending == m.sent + m.state.pending
  {
    hide Encode, ValidRx;
    AdvanceNothing(max, s.rx);
  }

  lemma NoBytesNoChange(max: nat, s: ServerState, stream: seq<byte>, a: Allowance)
    requires ValidServer(max, s) && !s.halted && s.pending == []
    requires Process(max, s, stream, a).taken == 0
    ensures Process(max, s, stream, a).state == s
  {
    hide Encode, ValidRx;
    AdvanceNothing(max, s.rx);
  }

  lemma ServerStepDistance(max: nat, s: System, a: Allowance)
    requires Inv(max, s)
    ensures var t := Next(max, s, ServerRuns(a));
            t == s || Distance(t) < Distance(s)
  {
    hide Encode, ValidRx, Pending, Process;
    var m, t := Process(max, s.server, s.requests, a), Next(max, s, ServerRuns(a));
    if s.requests == [] {
      ServerStays(max, s.server, a);
    }
    if m.taken == 0 && s.server.pending == [] {
      NoBytesNoChange(max, s.server, s.requests, a);
    }
    match s.phase
    case Idle =>
    case Sending(number, rest) =>
      ServerReadsOn(max, s, number, rest, a);
    case Reading(number, got) =>
      if got == [] && Asking(s, number, []) {
        ServerReadsOn(max, s, number, [], a);
        AskingNext(max, s, number, [], a);
        if !Asking(t, number, []) {
          ReplyDistance(max, t, number, []);
        }
      } else {
        ReplyDistance(max, s, number, got);
        ServerKeepsInv(max, s, a);
        if !(got == [] && Asking(t, number, [])) {
          ReplyDistance(max, t, number, got);
        }
      }
  }

  lemma WriteStepDistance(max: nat, s: System, n: nat)
    requires Inv(max, s)
    ensures var t := Next(max, s, ClientWrites(n));
            t == s || Distance(t) < Distance(s)
  {
    hide Encode, ValidRx, Pending, Answering;
    WriteKeepsInv(max, s, n);
    if s.phase.Sending? {
      var k := Min(n, |s.phase.rest|);
      if k == 0 {
        assert s.phase.rest[0..] == s.phase.rest && s.requests + [] == s.requests;
      } else if k == |s.phase.rest| {
        SentDistance(max, Next(max, s, ClientWrites(n)), s.phase.number);
      }
    }
  }

  lemma SentDistance(max: nat, t: System, number: u16)
    requires Inv(max, t) && t.phase == Reading(number, []) && t.requests != []
    ensures Distance(t) == 40 + |t.requests|
  {
  }

  /** A read within the reply changes nothing, or takes bytes off the queue. */
  lemma ReadTakesReply(max: nat, s: System, number: u16, got: seq<byte>, n: nat)
    requires ValidServer(max, s.server)
    requires s.phase == Reading(number, got) && Answering(max, s, number, got)
    ensures var t := Next(max, s, ClientReads(n));
            t.server == s.server && (t == s || |t.replies| < |s.replies|)
  {
    hide Encode, ValidRx, Pending, VersionFromReply, ReplySize;
    VersionReplyIsTaken(max, number, got, s.replies + s.server.pending);
    Associate(got, s.replies, s.server.pending);
    assert got + s.replies[..0] == got && s.replies[0..] == s.replies && s.results + [] == s.results;
  }

  lemma ReplyReadDistance(max: nat, s: System, t: System, number: u16, got: seq<byte>)
    requires FrameSize(max)
    requires s.phase == Reading(number, got) && Answering(max, s, number, got)
    requires t.phase.Idle? || (t.phase.Reading? && Answering(max, t, t.phase.number, t.phase.got))
    requires t.server == s.server && |t.replies| < |s.replies|
    ensures Distance(t) < Distance(s)
  {
    hide Encode, Pending, Answering, Asking;
    ReplyDistance(max, s, number, got);
    if t.phase.Reading? {
      ReplyDistance(max, t, t.phase.number, t.phase.got);
    }
  }

  lemma NothingToReadYet(max: nat, s: System, number: u16, n: nat)
    requires ValidServer(max, s.server)
    requires s.phase == Reading(number, []) && s.replies == []
    ensures Next(max, s, ClientReads(n)) == s
  {
    hide Encode, ValidRx, Pending;
    assert [] + s.replies[..0] == [] && s.results + [] == s.results;
  }

  lemma ReadStepDistance(max: nat, s: System, n: nat)
    requires Inv(max, s)
    ensures var t := Next(max, s, ClientReads(n));
            t == s || Distance(t) < Distance(s)
  {
    hide Encode, ValidRx, Pending, Answering, Distance, AfterReading, Wanted;
    if s.phase.Reading? {
      var number, got := s.phase.number, s.phase.got;
      if got == [] && Asking(s, number, []) {
        NothingToReadYet(max, s, number, n);
      } else {
        ClientReadsOn(max, s, number, got, n);
        ReadTakesReply(max, s, number, got, n);
        if Next(max, s, ClientReads(n)) != s {
          ReplyReadDistance(max, s, Next(max, s, ClientReads(n)), number, got);
        }
      }
    }
  }

  /** A step either changes nothing, or begins a call, or brings the current call nearer to its
      end. */
  lemma EveryMoveIsProgress(max: nat, s: System, step: Step)
    requires Inv(max, s)
    ensures var t := Next(max, s, step);
            t == s || (s.phase.Idle? && step.Begin?) || Distance(t) < Distance(s)
  {
    hide Distance;
    match step
    case Begin =>
    case ServerRuns(a) => ServerStepDistance(max, s, a);
    case ClientWrites(n) => WriteStepDistance(max, s, n);
    case ClientReads(n) => ReadStepDistance(max, s, n);
  }

  /** A step that is sure to move a byte of the call under way: the client writes, reads what has
      arrived, or, while nothing has, the server runs with room to write while it has a reply
      pending, and with something to read otherwise. */
  predicate Enabled(s: System, step: Step) {
    match s.phase
    case Idle => false
    case Sending(_, _) => step.ClientWrites? && step.n > 0
    case Reading(_, _) =>
      if s.replies != [] then step.ClientReads? && step.n > 0
      else step.ServerRuns? && Useful(s.server, step.allowance)
  }

  lemma WriteMoves(max: nat, s: System, n: nat)
    requires Inv(max, s) && s.phase.Sending? && n > 0
    ensures Next(max, s, ClientWrites(n)) != s
  {
    hide Encode, ValidRx, Asking;
    var t := Next(max, s, ClientWrites(n));
    assert t.phase.Sending? ==> |t.phase.rest| < |s.phase.rest|;
  }

  lemma ReadMoves(max: nat, s: System, n: nat)
    requires Inv(max, s) && s.phase.Reading? && s.replies != [] && n > 0
    ensures Next(max, s, ClientReads(n)) != s
  {
    hide Encode, ValidRx, Pending, VersionFromReply, ReplySize;
    var number, got := s.phase.number, s.phase.got;
    VersionReplyIsTaken(max, number, got, s.replies + s.server.pending);
    Associate(got, s.replies, s.server.pending);
    assert |Next(max, s, ClientReads(n)).replies| < |s.replies|;
  }

  lemma UsefulCallMovesByte(max: nat, s: ServerState, stream: seq<byte>, a: Allowance)
    requires ValidServer(max, s) && !s.halted && Useful(s, a)
    ensures var m := Process(max, s, stream, a);
            if s.pending == [] then stream != [] ==> m.taken > 0 else |m.sent| > 0
  {
    hide Encode, Advance, React, ValidRx;
  }

  lemma ServerMoves(max: nat, s: System, a: Allowance)
    requires Inv(max, s) && s.phase.Reading? && s.replies == [] && Useful(s.server, a)
    ensures Next(max, s, ServerRuns(a)) != s
  {
    hide Encode, ValidRx, Pending, Process;
    var number, got := s.phase.number, s.phase.got;
    UsefulCallMovesByte(max, s.server, s.requests, a);
    if got == [] && Asking(s, number, []) {
      if s.requests == [] {
        assert Pending(s.server.rx) + [] + [] == Pending(s.server.rx);
        EmptyRx(max, s.server.rx, QueryFrame(number));
      }
    } else {
      ReplyDistance(max, s, number, got);
    }
  }

  lemma EnabledStepMoves(max: nat, s: System, step: Step)
    requires Inv(max, s) && Enabled(s, step)
    ensures Distance(Next(max, s, step)) < Distance(s)
  {
    hide Inv, Next, Distance, MayRead, MayWrite;
    EveryMoveIsProgress(max, s, step);
    match step
    case Begin =>
    case ClientWrites(n) => WriteMoves(max, s, n);
    case ClientReads(n) => ReadMoves(max, s, n);
    case ServerRuns(a) => ServerMoves(max, s, a);
  }

  /** In every state of a call, a step of one byte that is enabled. */
  function UsefulStep(s: System): Step {
    match s.phase
    case Idle => Begin
    case Sending(_, _) => ClientWrites(1)
    case Reading(_, _) => if s.replies != [] then ClientReads(1) else ServerRuns(Allowance(false, 1, Some(1)))
  }

  lemma UsefulStepMoves(max: nat, s: System)
    requires Inv(max, s) && !s.phase.Idle?
    ensures Distance(Next(max, s, UsefulStep(s))) < Distance(s)
  {
    hide Inv, Next, Distance;
    EnabledStepMoves(max, s, UsefulStep(s));
  }

  function RunUseful(max: nat, s: System, k: nat): System
    requires Inv(max, s)
    decreases k
  {
    if k == 0 || s.phase.Idle? then s
    else
      NextKeepsInv(max, s, UsefulStep(s));
      RunUseful(max, Next(max, s, UsefulStep(s)), k - 1)
  }

  /** No reachable state is stuck: from any of them the current call can be brought to its end,
      and in no more moves than its distance. */
  lemma {:induction false} CallsCanFinish(max: nat, s: System, k: nat)
    requires Inv(max, s) && k >= Distance(s)
    ensures RunUseful(max, s, k).phase.Idle?
    decreases k
  {
    hide Next, Distance, UsefulStep, Asking, Answering;
    if s.phase.Idle? {
    } else {
      UsefulStepMoves(max, s);
      NextKeepsInv(max, s, UsefulStep(s));
      if k == 0 {
        assert false;
      } else {
        CallsCanFinish(max, Next(max, s, UsefulStep(s)), k - 1);
      }
    }
  }

  // ---------------------------------------------------------------- every fair schedule

  /** Where a run from `s` to `t` stands: the call under way in `s` has ended, or it is still under
      way and no further from its end. */
  predicate NotBack(s: System, t: System) {
    || |s.results| < |t.results|
    || (t.results == s.results && !t.phase.Idle? && Distance(t) <= Distance(s))
  }

  /** A step of a call ends it, with one more result, or leaves it under way. */
  lemma StepKeepsCall(max: nat, s: System, step: Step)
    requires Inv(max, s) && !s.phase.Idle?
    ensures var t := Next(max, s, step);
            |t.results| == |s.results| + 1 || (t.results == s.results && !t.phase.Idle?)
  {
    hide Encode, ValidRx, Pending, Process, VersionFromReply, ReplySize, Asking, Answering;
  }

  lemma ResultsGrow(max: nat, s: System, step: Step)
    requires Inv(max, s)
    ensures |s.results| <= |Next(max, s, step).results|
  {
    hide Encode, ValidRx, Pending, Process, VersionFromReply, ReplySize, Asking, Answering;
  }

  lemma {:induction false} RunResultsGrow(max: nat, s: System, steps: seq<Step>)
    requires Inv(max, s)
    ensures |s.results| <= |RunSystem(max, s, steps).results|
    decreases |steps|
  {
    hide Next, Asking, Answering, Quiet, ValidServer;
    if steps != [] {
      NextKeepsInv(max, s, steps[0]);
      ResultsGrow(max, s, steps[0]);
      RunResultsGrow(max, Next(max, s, steps[0]), steps[1..]);
    }
  }

  /** No run moves a call away from its end. */
  lemma {:induction false} NeverBack(max: nat, s: System, steps: seq<Step>)
    requires Inv(max, s) && !s.phase.Idle?
    ensures NotBack(s, RunSystem(max, s, steps))
    decreases |steps|
  {
    hide Next, Asking, Answering, Quiet, ValidServer, Distance;
    if steps != [] {
      var t := Next(max, s, steps[0]);
      NextKeepsInv(max, s, steps[0]);
      StepKeepsCall(max, s, steps[0]);
      EveryMoveIsProgress(max, s, steps[0]);
      if t.phase.Idle? || |t.results| > |s.results| {
        RunResultsGrow(max, t, steps[1..]);
      } else {
        NeverBack(max, t, steps[1..]);
      }
    }
  }

  /** Among any steps one that is enabled at first brings the call nearer to its end, wherever it
      stands and whatever comes before it. */
  lemma {:induction false} EnabledOnceMoves(max: nat, s: System, steps: seq<Step>, i: nat)
    requires Inv(max, s) && !s.phase.Idle?
    requires i < |steps| && Enabled(s, steps[i])
    ensures var t := RunSystem(max, s, steps);
            NotBack(s, t) && (t.results == s.results ==> Distance(t) < Distance(s))
    decreases i
  {
    hide Next, Asking, Answering, Quiet, ValidServer, Distance, Enabled;
    var t := Next(max, s, steps[0]);
    NextKeepsInv(max, s, steps[0]);
    StepKeepsCall(max, s, steps[0]);
    EveryMoveIsProgress(max, s, steps[0]);
    if i == 0 {
      EnabledStepMoves(max, s, steps[0]);
    }
    if |t.results| > |s.results| {
      RunResultsGrow(max, t, steps[1..]);
    } else if t == s && i > 0 {
      EnabledOnceMoves(max, s, steps[1..], i - 1);
    } else {
      NeverBack(max, t, steps[1..]);
    }
  }

  /** A stretch of a schedule in which both sides get their turns: somewhere in it the client may
      write, the client may read, a server call may read and a server call may write, in any order,
      the last two in one call or in two, and with anything in between. */
  predicate Fair(steps: seq<Step>) {
    && (exists i | 0 <= i < |steps| :: steps[i].ClientWrites? && steps[i].n > 0)
    && (exists i | 0 <= i < |steps| :: steps[i].ClientReads? && steps[i].n > 0)
    && (exists i | 0 <= i < |steps| :: steps[i].ServerRuns? && MayRead(steps[i].allowance))
    && (exists i | 0 <= i < |steps| :: steps[i].ServerRuns? && MayWrite(steps[i].allowance))
  }

  lemma FairStretchMoves(max: nat, s: System, steps: seq<Step>)
    requires Inv(max, s) && !s.phase.Idle? && Fair(steps)
    ensures var t := RunSystem(max, s, steps);
            NotBack(s, t) && (t.results == s.results ==> Distance(t) < Distance(s))
  {
    hide Inv, Distance, RunSystem;
    var i :| 0 <= i < |steps| && Enabled(s, steps[i]);
    EnabledOnceMoves(max, s, steps, i);
  }

  function Joined(stretches: seq<seq<Step>>): seq<Step> {
    if stretches == [] then [] else stretches[0] + Joined(stretches[1..])
  }

  lemma {:induction false} RunJoined(max: nat, s: System, a: seq<Step>, b: seq<Step>)
    requires Inv(max, s)
    ensures Inv(max, RunSystem(max, s, a))
    ensures RunSystem(max, s, a + b) == RunSystem(max, RunSystem(max, s, a), b)
    decreases |a|
  {
    hide Next, Asking, Answering, Quiet, ValidServer;
    RunKeepsInv(max, s, a);
    if a == [] {
      assert a + b == b;
    } else {
      NextKeepsInv(max, s, a[0]);
      assert (a + b)[1..] == a[1..] + b;
      RunJoined(max, Next(max, s, a[0]), a[1..], b);
    }
  }

  /** Every fair schedule ends the call: as many fair stretches as its distance suffice, however
      long they are, however they are interleaved and whatever else they hold. */
  lemma {:induction false} FairSchedulesEndCalls(max: nat, s: System, stretches: seq<seq<Step>>)
    requires Inv(max, s) && !s.phase.Idle?
    requires |stretches| >= Distance(s) && forall f | f in stretches :: Fair(f)
    ensures |s.results| < |RunSystem(max, s, Joined(stretches)).results|
    decreases |stretches|
  {
    hide Inv, Distance, RunSystem, Fair;
    if stretches == [] {
      UsefulStepMoves(max, s);
      assert false;
    } else {
      var first, later := stretches[0], stretches[1..];
      assert first in stretches && forall f | f in later :: f in stretches;
      var t := RunSystem(max, s, first);
      RunJoined(max, s, first, Joined(later));
      FairStretchMoves(max, s, first);
      if t.results == s.results {
        FairSchedulesEndCalls(max, t, later);
      } else {
        RunResultsGrow(max, t, Joined(later));
      }
    }
  }

  /** From the beginning of a call that is at most 56 fair stretches. */
  lemma NewCallDistance(max: nat, s: System)
    requires Inv(max, s) && s.phase.Idle?
    ensures !Next(max, s, Begin).phase.Idle? && Distance(Next(max, s, Begin)) == 56
  {
    hide Encode, ValidRx;
    EncodedSize(QueryFrame(s.nextNumber));
    OnlyQueryIsSentWhole(s.nextNumber, Query);
  }

  /** Any new call, under any such schedule of 56 stretches, has ended with the right result. */
  lemma EveryCallEnds(max: nat, s: System, stretches: seq<seq<Step>>)
    requires Inv(max, s) && s.phase.Idle?
    requires |stretches| >= 56 && forall f | f in stretches :: Fair(f)
    ensures var t := RunSystem(max, s, [Begin] + Joined(stretches));
            |t.results| > |s.results| && forall r | r in t.results :: r == Some((1, max - 8))
  {
    hide Fair, RunSystem, Asking, Answering, Quiet, ValidServer, Distance;
    var begun := Next(max, s, Begin);
    NewCallDistance(max, s);
    NextKeepsInv(max, s, Begin);
    FairSchedulesEndCalls(max, begun, stretches);
    RunFirst(max, s, Begin, Joined(stretches));
    RunKeepsInv(max, s, [Begin] + Joined(stretches));
  }

  lemma RunFirst(max: nat, s: System, step: Step, steps: seq<Step>)
    requires Inv(max, s)
    ensures Inv(max, Next(max, s, step))
    ensures RunSystem(max, s, [step] + steps) == RunSystem(max, Next(max, s, step), steps)
  {
    hide Next, Asking, Answering, Quiet, ValidServer;
    NextKeepsInv(max, s, step);
    assert ([step] + steps)[1..] == steps;
  }
}
