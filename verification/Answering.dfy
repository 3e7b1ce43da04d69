/** Which frames the server answers, and in how many calls at best. */
module Answering {
  import opened Bytes
  import opened Crc
  import opened Frames
  import opened Receiving
  import opened Memory
  import opened Serving
  import opened ServerTheorems
  import opened Sessions

  // ---------------------------------------------------------------- which frames are answered

  /** The payload lengths that each type of frame admits. */
  predicate Admitted(h: FrameHeader) {
    match h.frameType
    case Request(QueryVersion) => h.payloadLength == 0
    case Request(ReadMemory) => h.payloadLength == 6
    case Request(WriteMemory) => h.payloadLength >= 4
    case Request(Run) => h.payloadLength == 4
    case Response(QueryVersion) => h.payloadLength == 6
    case Response(ReadMemory) => true
    case Response(WriteMemory) => h.payloadLength == 0
    case Response(Run) => h.payloadLength == 0
    case _ => false
  }

  /** A checked frame is answered, or halts the firmware, exactly when its type admits its payload
      length; otherwise nothing happens. */
  lemma AnsweredIffAdmitted(max: nat, image: seq<byte>, f: RawFrame)
    requires FrameSize(max) && |image| == IMAGE_SIZE && WellFormed(f)
    ensures Admitted(f.header) <==> !React(max, image, Accepted(f)).0.Silent?
    ensures !Admitted(f.header) ==> React(max, image, Accepted(f)) == (Silent, image)
  {
    hide Dispatch;
    TypedIffAdmitted(f);
    if Admitted(f.header) {
      DispatchReacts(max, image, FrameFromRaw(f).value);
    }
  }

  lemma TypedIffAdmitted(f: RawFrame)
    requires WellFormed(f)
    ensures Admitted(f.header) <==> FrameFromRaw(f).Ok?
    ensures Admitted(f.header) ==> Typed(FrameFromRaw(f).value)
  {
  }

  lemma DispatchReacts(max: nat, image: seq<byte>, f: Frame)
    requires FrameSize(max) && |image| == IMAGE_SIZE && Typed(f)
    ensures !Dispatch(max, image, f).0.Silent?
  {
  }

  /** A response that reaches the server is answered as an invalid request. */
  lemma ResponsesAreRefused(max: nat, image: seq<byte>, f: RawFrame)
    requires FrameSize(max) && |image| == IMAGE_SIZE && WellFormed(f)
    requires f.header.frameType.Response? && Admitted(f.header)
    ensures var (reaction, after) := React(max, image, Accepted(f));
            && reaction.Answer? && after == image
            && reaction.frame.header.frameNumber == f.header.frameNumber
            && Meaning(reaction.frame) == Refused(0x04)
  {
    hide Meaning;
    ErrorsAreRefused(f.header.frameNumber);
  }

  /** The numbers of the frames that are answered. */
  function AdmittedNumbers(frames: seq<RawFrame>): seq<u16> {
    if frames == [] then []
    else (if Admitted(frames[0].header) then [frames[0].header.frameNumber] else []) + AdmittedNumbers(frames[1..])
  }

  function Numbers(replies: seq<RawFrame>): seq<u16> {
    if replies == [] then [] else [replies[0].header.frameNumber] + Numbers(replies[1..])
  }

  /** Replies with these numbers, or with the first of them when the firmware has halted. */
  predicate Matches(s: Service, expected: seq<u16>) {
    var n := Numbers(s.replies);
    && |n| == |s.replies|
    && if s.halted then |n| < |expected| && n == expected[..|n|] else n == expected
  }

  /** Whatever checked frames arrive, the replies carry the numbers of the admitted ones, one each
      and in order, as far as the firmware runs. */
  lemma {:induction false} RepliesMatchFrames(max: nat, image: seq<byte>, frames: seq<RawFrame>)
    requires FrameSize(max) && |image| == IMAGE_SIZE
    requires forall f | f in frames :: WellFormed(f)
    ensures forall r | r in AllAccepted(frames) :: Proper(r)
    ensures Matches(Serve(max, image, AllAccepted(frames)), AdmittedNumbers(frames))
    decreases |frames|
  {
    hide React, Admitted, Serve, Encode, Matches, WellFormed;
    ProperRequests(frames);
    if frames == [] {
      NothingToServe(max, image);
      MatchNothing(image);
    } else {
      var f, rest := frames[0], frames[1..];
      assert f in frames && forall g | g in rest :: g in frames;
      RepliesMatchFrames(max, image, rest);
      AnsweredIffAdmitted(max, image, f);
      ServeStep(max, image, Accepted(f), AllAccepted(rest));
      assert AllAccepted(frames) == Events(Accepted(f)) + AllAccepted(rest);
      var (reaction, after) := React(max, image, Accepted(f));
      var expected := AdmittedNumbers(rest);
      match reaction
      case Silent =>
        assert [] + expected == expected;
      case Answer(reply) =>
        RepliesMatchFrames(max, after, rest);
        AnswerHasNumber(max, image, f);
        MatchAnswer(reply, Serve(max, after, AllAccepted(rest)), expected);
      case Halt =>
        MatchHalt(after, f.header.frameNumber, expected);
    }
  }

  lemma NothingToServe(max: nat, image: seq<byte>)
    requires FrameSize(max) && |image| == IMAGE_SIZE
    ensures Serve(max, image, []) == Service([], image, false)
  {
  }

  lemma MatchNothing(image: seq<byte>)
    ensures Matches(Service([], image, false), [])
  {
  }

  lemma MatchHalt(image: seq<byte>, number: u16, expected: seq<u16>)
    ensures Matches(Service([], image, true), [number] + expected)
  {
  }

  lemma MatchAnswer(reply: RawFrame, later: Service, expected: seq<u16>)
    requires Matches(later, expected)
    ensures Matches(Service([reply] + later.replies, later.image, later.halted),
                    [reply.header.frameNumber] + expected)
  {
    assert ([reply] + later.replies)[1..] == later.replies;
    var n := Numbers(later.replies);
    if later.halted {
      assert ([reply.header.frameNumber] + expected)[..1 + |n|] == [reply.header.frameNumber] + expected[..|n|];
    }
  }

  lemma AnswerHasNumber(max: nat, image: seq<byte>, f: RawFrame)
    requires FrameSize(max) && |image| == IMAGE_SIZE && WellFormed(f)
    requires React(max, image, Accepted(f)).0.Answer?
    ensures React(max, image, Accepted(f)).0.frame.header.frameNumber == f.header.frameNumber
  {
    hide TakesDown, Dispatch;
    TypedIffAdmitted(f);
    var t := FrameFromRaw(f).value;
    FrameKeepsRaw(f);
    HaltsExactlyOn(max, image, t);
    EveryTypedFrameIsAnswered(max, image, t);
  }

  /** A checked frame whose length is not admitted is never answered: at no moment of any run on its
      encoding has the server put out or prepared anything, changed its image or halted. */
  lemma UnadmittedIsNeverAnswered(max: nat, image: seq<byte>, f: RawFrame, calls: seq<Allowance>)
    requires FrameSize(max) && |image| == IMAGE_SIZE
    requires WellFormed(f) && f.header.payloadLength <= max - 2 && !Admitted(f.header)
    ensures ValidServer(max, Fresh(image))
    ensures var h := RunServer(max, Fresh(image), Encode(f), calls);
            h.sent == [] && h.state.pending == [] && h.state.image == image && !h.state.halted
  {
    hide Parse, RunServer, CrcOf, Encode, Pending, React, Admitted;
    var line, s := Encode(f), Fresh(image);
    var h := RunServer(max, s, line, calls);
    RunEventsAreParsed(max, s, line, calls, h.rest);
    assert Pending(s.rx) == [] by { NothingPending(); }
    assert [] + line[..|line| - |h.rest|] + h.rest == line;
    ParseOneFrame(max, f);
    OutputIsConserved(max, s, line, calls);
    AnsweredIffAdmitted(max, image, f);
    assert h.events == [] || h.events == [Accepted(f)];
    assert [Accepted(f)][1..] == [];
  }

  lemma ParseOneFrame(max: nat, f: RawFrame)
    requires BufferSize(max) && WellFormed(f) && f.header.payloadLength <= max - 2
    ensures Parse(max, Encode(f)) == [Accepted(f)]
  {
    hide Parse, Encode;
    var gaps: seq<seq<byte>> := [[], []];
    ParseSent(max, gaps, [f]);
    assert gaps[1..] == [[]] && [f][1..] == [];
    assert Sent([[]], []) == [];
    assert [] + Encode(f) + [] == Encode(f);
    assert AllAccepted([]) == [];
    assert [Accepted(f)] + [] == [Accepted(f)];
  }

  // ---------------------------------------------------------------- calls as fast as they may be

  /** With everything there is room and input for, a request is answered in three calls: its header
      is read, its body is read and the reply prepared, and the reply is written whole by the call
      that goes on to the next header. */
  lemma ThreeCallsAnswer(max: nat, image: seq<byte>, f: RawFrame, next: seq<byte>, a: Allowance)
    requires FrameSize(max) && |image| == IMAGE_SIZE
    requires WellFormed(f) && f.header.payloadLength <= max - 2
    requires React(max, image, Accepted(f)).0.Answer?
    requires !a.readFault && a.ready >= max && a.room.Some? && a.room.value >= max
    ensures ValidServer(max, Fresh(image))
    ensures var h := RunServer(max, Fresh(image), Encode(f) + next, [a, a, a]);
            && h.sent == Encode(React(max, image, Accepted(f)).0.frame)
            && h.state.pending == [] && !h.state.halted
            && h.rest == next[Min(HEADER_SIZE, |next|)..]
  {
    hide React, Encode, RunServer, ValidServer, Intact;
    FirstOfThreeCalls(max, image, f, next, a);
    TwoMoreCalls(max, image, f, next, a);
  }

  lemma FirstOfThreeCalls(max: nat, image: seq<byte>, f: RawFrame, next: seq<byte>, a: Allowance)
    requires FrameSize(max) && |image| == IMAGE_SIZE
    requires WellFormed(f) && f.header.payloadLength <= max - 2
    requires !a.readFault && a.ready >= max
    ensures ValidServer(max, Fresh(image))
    ensures var s := ServerState(Payload([], f.header), [], image, false);
            && ValidServer(max, s)
            && var h, later := RunServer(max, Fresh(image), Encode(f) + next, [a, a, a]),
                               RunServer(max, s, Intact([], f).body + next, [a, a]);
               h.state == later.state && h.rest == later.rest && h.sent == later.sent
  {
    hide React, Encode, RunServer, Process, ValidServer, Intact, HeaderToBytes;
    var line := Encode(f) + next;
    FreshServerIsValid(max, image);
    FrameBehindHeader(f, next);
    HeaderCall(max, image, f, line, a);
    RunOne(max, Fresh(image), line, a, [a, a]);
    assert [a, a, a] == [a] + [a, a];
    var s := ServerState(Payload([], f.header), [], image, false);
    var sent := RunServer(max, s, Intact([], f).body + next, [a, a]).sent;
    assert [] + sent == sent;
  }

  lemma FrameBehindHeader(f: RawFrame, next: seq<byte>)
    requires WellFormed(f)
    ensures var line := Encode(f) + next;
            && |line| >= HEADER_SIZE && |Encode(f)| >= HEADER_SIZE
            && line[..HEADER_SIZE] == Encode(f)[..HEADER_SIZE]
            && line[HEADER_SIZE..] == Intact([], f).body + next
  {
    hide Encode, HeaderToBytes, Intact;
    EncodedParts(f);
  }

  lemma TwoMoreCalls(max: nat, image: seq<byte>, f: RawFrame, next: seq<byte>, a: Allowance)
    requires FrameSize(max) && |image| == IMAGE_SIZE
    requires WellFormed(f) && f.header.payloadLength <= max - 2
    requires React(max, image, Accepted(f)).0.Answer?
    requires !a.readFault && a.ready >= max && a.room.Some? && a.room.value >= max
    ensures var s := ServerState(Payload([], f.header), [], image, false);
            && ValidServer(max, s)
            && var h := RunServer(max, s, Intact([], f).body + next, [a, a]);
               && h.sent == Encode(React(max, image, Accepted(f)).0.frame)
               && h.state.pending == [] && !h.state.halted
               && h.rest == next[Min(HEADER_SIZE, |next|)..]
  {
    hide React, Encode, RunServer, Process, ValidServer, Intact;
    var s, body := ServerState(Payload([], f.header), [], image, false), Intact([], f).body;
    var (reaction, after) := React(max, image, Accepted(f));
    BodyCall(max, image, f, next, a);
    assert (body + next)[|body|..] == next;
    RunOne(max, s, body + next, a, [a]);
    assert [a, a] == [a] + [a];
    EncodedReplyFits(max, image, f);
    OneMoreCall(max, after, Encode(reaction.frame), next, a);
  }

  lemma OneMoreCall(max: nat, image: seq<byte>, reply: seq<byte>, next: seq<byte>, a: Allowance)
    requires FrameSize(max) && |image| == IMAGE_SIZE && 0 < |reply| <= max
    requires !a.readFault && a.ready >= max && a.room.Some? && a.room.value >= max
    ensures var s := ServerState(Header([]), reply, image, false);
            && ValidServer(max, s)
            && var h := RunServer(max, s, next, [a]);
               && h.sent == reply
               && h.state.pending == [] && !h.state.halted
               && h.rest == next[Min(HEADER_SIZE, |next|)..]
  {
    hide RunServer, Process, ValidServer;
    var s := ServerState(Header([]), reply, image, false);
    ReplyCall(max, image, reply, next, a);
    var m := Process(max, s, next, a);
    RunOne(max, s, next, a, []);
    assert [a] == [a] + [];
    RunNone(max, m.state, next[m.taken..]);
  }

  lemma FreshServerIsValid(max: nat, image: seq<byte>)
    requires FrameSize(max) && |image| == IMAGE_SIZE
    ensures ValidServer(max, Fresh(image))
  {
  }

  lemma RunOne(max: nat, s: ServerState, stream: seq<byte>, a: Allowance, more: seq<Allowance>)
    requires ValidServer(max, s)
    ensures var m := Process(max, s, stream, a);
            && ValidServer(max, m.state)
            && var h, later := RunServer(max, s, stream, [a] + more), RunServer(max, m.state, stream[m.taken..], more);
               h.state == later.state && h.rest == later.rest && h.sent == m.sent + later.sent
  {
    hide Process;
    ProcessInvariant(max, s, stream, a);
    assert ([a] + more)[1..] == more;
  }

  lemma RunNone(max: nat, s: ServerState, stream: seq<byte>)
    requires ValidServer(max, s)
    ensures RunServer(max, s, stream, []) == History(s, [], [], stream)
  {
  }

  lemma EncodedReplyFits(max: nat, image: seq<byte>, f: RawFrame)
    requires FrameSize(max) && |image| == IMAGE_SIZE && WellFormed(f)
    requires React(max, image, Accepted(f)).0.Answer?
    ensures 0 < |Encode(React(max, image, Accepted(f)).0.frame)| <= max
  {
    hide React, CrcOf;
  }

  lemma ProcessIsPoll(max: nat, s: ServerState, stream: seq<byte>, a: Allowance)
    requires ValidServer(max, s) && !s.halted && s.pending == [] && !a.readFault
    ensures Process(max, s, stream, a) == Poll(max, s, stream, a.ready)
  {
    hide Process, Poll, ValidServer;
    ProcessCases(max, s, stream, a);
    assert s.(pending := s.pending[CountWritten(s, a)..]) == s;
    var m := Poll(max, s, stream, a.ready);
    assert m.(sent := []) == m;
  }

  /** A poll with enough arrived takes all it asks for. */
  lemma FullPoll(max: nat, s: ServerState, stream: seq<byte>, ready: nat, n: nat)
    requires ValidServer(max, s) && n == Demand(max, s.rx) <= |stream| && n <= ready
    ensures var (rx, received) := Advance(max, s.rx, stream[..n]);
            var (reaction, image) := React(max, s.image, received);
            Poll(max, s, stream, ready)
            == Moved(ServerState(rx, ReplyBytes(reaction), image, reaction.Halt?), n, [], received)
  {
    hide Advance, React, Encode, ValidRx, Demand;
  }

  lemma HeaderCall(max: nat, image: seq<byte>, f: RawFrame, line: seq<byte>, a: Allowance)
    requires FrameSize(max) && |image| == IMAGE_SIZE && ValidServer(max, Fresh(image))
    requires WellFormed(f) && f.header.payloadLength <= max - 2
    requires |line| >= HEADER_SIZE && line[..HEADER_SIZE] == Encode(f)[..HEADER_SIZE]
    requires !a.readFault && a.ready >= max
    ensures Process(max, Fresh(image), line, a)
         == Moved(ServerState(Payload([], f.header), [], image, false), HEADER_SIZE, [], Nothing)
  {
    hide React, CrcOf, HeaderToBytes, AfterWindow, Process, Poll, Encode;
    ProcessIsPoll(max, Fresh(image), line, a);
    EncodedParts(f);
    WholeHeaderStartsBody(max, line[..HEADER_SIZE], Intact([], f).body, f);
    assert [] + line[..HEADER_SIZE] == line[..HEADER_SIZE];
    FullPoll(max, Fresh(image), line, a.ready, HEADER_SIZE);
    NothingIsSilent(max, image);
  }

  lemma NothingIsSilent(max: nat, image: seq<byte>)
    requires FrameSize(max) && |image| == IMAGE_SIZE
    ensures React(max, image, Nothing) == (Silent, image)
  {
  }

  lemma BodyCall(max: nat, image: seq<byte>, f: RawFrame, next: seq<byte>, a: Allowance)
    requires FrameSize(max) && |image| == IMAGE_SIZE
    requires WellFormed(f) && f.header.payloadLength <= max - 2
    requires React(max, image, Accepted(f)).0.Answer?
    requires !a.readFault && a.ready >= max
    ensures var s := ServerState(Payload([], f.header), [], image, false);
            var (reaction, after) := React(max, image, Accepted(f));
            var body := Intact([], f).body;
            && ValidServer(max, s)
            && Process(max, s, body + next, a)
               == Moved(ServerState(Header([]), Encode(reaction.frame), after, false), |body|, [], Accepted(f))
  {
    hide React, CrcOf, HeaderToBytes, AfterWindow, Process, Poll, Encode, Judge;
    var s, body := ServerState(Payload([], f.header), [], image, false), Intact([], f).body;
    EncodedParts(f);
    ProcessIsPoll(max, s, body + next, a);
    IntactIsAccepted([], f);
    assert (body + next)[..|body|] == body && [] + body == body;
    FullPoll(max, s, body + next, a.ready, |body|);
  }

  lemma ReplyCall(max: nat, image: seq<byte>, reply: seq<byte>, next: seq<byte>, a: Allowance)
    requires FrameSize(max) && |image| == IMAGE_SIZE && 0 < |reply| <= max
    requires !a.readFault && a.ready >= max && a.room.Some? && a.room.value >= max
    ensures var s := ServerState(Header([]), reply, image, false);
            && ValidServer(max, s)
            && var m := Process(max, s, next, a);
               && m.sent == reply && m.taken == Min(HEADER_SIZE, |next|)
               && m.state.pending == [] && !m.state.halted
  {
    hide React, AfterWindow, Process, Encode;
    var s := ServerState(Header([]), reply, image, false);
    ProcessCases(max, s, next, a);
    NothingIsSilent(max, image);
  }
}
