/** The request server: what it answers, on values, and how one `process` call moves bytes. */
module Serving {
  import opened Bytes
  import opened Frames
  import opened Receiving
  import opened Memory

  /** Room for the longest fixed reply, a version reply of six payload bytes. */
  predicate FrameSize(max: nat) {
    HEADER_SIZE + 6 + 2 <= max <= 0x1_0001
  }

  // ---------------------------------------------------------------- replies

  function Reply(kind: FrameType, number: u16, payload: seq<byte>): (f: RawFrame)
    requires !kind.ErrorResponse? && |payload| < 0x1_0000
    ensures WellFormed(f)
  {
    RawFrame(FrameHeader(Response(kind), number, |payload|), payload)
  }

  /** An error reply travels as a run response with four payload bytes. */
  function ErrorReplyFrame(number: u16, e: ServerError): RawFrame {
    Reply(Run, number, U32ToBytes(ErrorCode(e)))
  }

  datatype Reaction = Silent | Answer(frame: RawFrame) | Halt

  predicate Typed(f: Frame) {
    FrameFromRaw(f.ToRaw()) == Ok(f) && WellFormed(f.ToRaw())
  }

  /** A read of more bytes than the reply buffer holds slices, or places the check value, outside
      the buffer: the firmware halts. */
  function ReadReaction(max: nat, image: seq<byte>, number: u16, address: u32, length: u16): (r: Reaction)
    requires FrameSize(max) && |image| == IMAGE_SIZE
    ensures r.Answer? ==> WellFormed(r.frame) && r.frame.header.payloadLength <= max - HEADER_SIZE - 2
  {
    if length > max - 2 then Answer(ErrorReplyFrame(number, LengthTooLong))
    else if length > max - HEADER_SIZE then Halt
    else
      match ReadImage(image, address, length)
      case Success(data) =>
        if length > max - HEADER_SIZE - 2 then Halt else Answer(Reply(ReadMemory, number, data))
      case Failure(e) => Answer(ErrorReplyFrame(number, e))
      case Panic => Halt
  }

  /** The server's reaction to a typed frame, and the image afterwards. */
  function Dispatch(max: nat, image: seq<byte>, f: Frame): (result: (Reaction, seq<byte>))
    requires FrameSize(max) && |image| == IMAGE_SIZE && Typed(f)
    ensures |result.1| == |image|
    ensures result.0.Answer? ==>
              WellFormed(result.0.frame) && result.0.frame.header.payloadLength <= max - HEADER_SIZE - 2
  {
    var number := f.Header().frameNumber;
    match f
    case QueryVersionRequest(_) =>
      (Answer(Reply(QueryVersion, number, U32ToBytes(VERSION) + U16ToBytes(max - HEADER_SIZE - 2))), image)
    case ReadMemoryRequest(raw) =>
      (ReadReaction(max, image, number, AddressOf(raw), LengthOf(raw)), image)
    case WriteMemoryRequest(raw) =>
      (match WriteImage(image, AddressOf(raw), DataOf(raw))
       case Success(after) => (Answer(Reply(WriteMemory, number, [])), after)
       case Failure(e) => (Answer(ErrorReplyFrame(number, e)), image)
       case Panic => (Halt, image))
    case RunRequest(_) => (Answer(Reply(Run, number, [])), image)
    case _ => (Answer(ErrorReplyFrame(number, InvalidRequest)), image)
  }

  /** Reaction to one outcome of the receiver: only frames that carry a type of their own are
      answered. */
  function React(max: nat, image: seq<byte>, r: Received): (result: (Reaction, seq<byte>))
    requires FrameSize(max) && |image| == IMAGE_SIZE && Proper(r)
    ensures |result.1| == |image|
    ensures result.0.Answer? ==>
              WellFormed(result.0.frame) && result.0.frame.header.payloadLength <= max - HEADER_SIZE - 2
  {
    if !r.Accepted? then (Silent, image)
    else
      match FrameFromRaw(r.frame)
      case Err(_) => (Silent, image)
      case Ok(f) => Dispatch(max, image, f)
  }

  /** The answers to a list of events, the image after them, and whether the firmware has
      halted.  A halted firmware reacts to nothing. */
  datatype Service = Service(replies: seq<RawFrame>, image: seq<byte>, halted: bool)

  function Serve(max: nat, image: seq<byte>, events: seq<Received>): (s: Service)
    requires FrameSize(max) && |image| == IMAGE_SIZE
    requires forall r | r in events :: Proper(r)
    ensures |s.image| == |image|
    ensures forall f | f in s.replies :: WellFormed(f) && f.header.payloadLength <= max - HEADER_SIZE - 2
    decreases |events|
  {
    if events == [] then Service([], image, false)
    else
      assert events[0] in events && Proper(events[0]);
      var (reaction, after) := React(max, image, events[0]);
      match reaction
      case Silent => Serve(max, after, events[1..])
      case Answer(f) =>
        var later := Serve(max, after, events[1..]);
        later.(replies := [f] + later.replies)
      case Halt => Service([], after, true)
  }

  function EncodeAll(frames: seq<RawFrame>): seq<byte>
    requires forall f | f in frames :: WellFormed(f)
  {
    if frames == [] then []
    else
      assert frames[0] in frames && WellFormed(frames[0]);
      Encode(frames[0]) + EncodeAll(frames[1..])
  }

  function ReplyBytes(reaction: Reaction): seq<byte>
    requires reaction.Answer? ==> WellFormed(reaction.frame)
  {
    if reaction.Answer? then Encode(reaction.frame) else []
  }

  // ---------------------------------------------------------------- one call, on values

  datatype ServerState = ServerState(rx: RxState, pending: seq<byte>, image: seq<byte>, halted: bool)

  predicate ValidServer(max: nat, s: ServerState) {
    && FrameSize(max) && ValidRx(max, s.rx) && |s.image| == IMAGE_SIZE && |s.pending| <= max
    && (s.halted ==> s.pending == [])
  }

  function Fresh(image: seq<byte>): ServerState {
    ServerState(Header([]), [], image, false)
  }

  /** What the environment allows during one call: whether a read works, how many bytes have
      arrived, and how many bytes the writer takes, if it works. */
  datatype Allowance = Allowance(readFault: bool, ready: nat, room: Option<nat>)

  predicate MayRead(a: Allowance) {
    !a.readFault && a.ready > 0
  }

  predicate MayWrite(a: Allowance) {
    a.room.Some? && a.room.value > 0
  }

  datatype Moved = Moved(state: ServerState, taken: nat, sent: seq<byte>, received: Received)

  /** One read, and the reaction to what it completes. */
  function Poll(max: nat, s: ServerState, stream: seq<byte>, ready: nat): (m: Moved)
    requires ValidServer(max, s)
    ensures m.taken <= |stream| && Proper(m.received) && m.sent == []
  {
    var n := Min(Demand(max, s.rx), Min(ready, |stream|));
    var (rx, received) := Advance(max, s.rx, stream[..n]);
    var (reaction, image) := React(max, s.image, received);
    Moved(ServerState(rx, ReplyBytes(reaction), image, reaction.Halt?), n, [], received)
  }

  /** First the pending reply, as far as the writer takes it; only when none is left, one read. */
  function Process(max: nat, s: ServerState, stream: seq<byte>, a: Allowance): (m: Moved)
    requires ValidServer(max, s)
    ensures m.taken <= |stream| && Proper(m.received)
  {
    if s.halted then Moved(s, 0, [], Nothing)
    else
      var sent := match a.room case Some(n) => s.pending[..Min(n, |s.pending|)] case None => [];
      var left := s.pending[|sent|..];
      if left != [] || a.readFault then Moved(s.(pending := left), 0, sent, Nothing)
      else Poll(max, s.(pending := []), stream, a.ready).(sent := sent)
  }

  /** What the writer takes of the pending reply. */
  function CountWritten(s: ServerState, a: Allowance): (n: nat)
    ensures n <= |s.pending|
  {
    match a.room case Some(n) => Min(n, |s.pending|) case None => 0
  }

  lemma ProcessCases(max: nat, s: ServerState, stream: seq<byte>, a: Allowance)
    requires ValidServer(max, s) && !s.halted
    ensures var left := s.pending[CountWritten(s, a)..];
            Process(max, s, stream, a) ==
            if left != [] || a.readFault then
              Moved(s.(pending := left), 0, s.pending[..CountWritten(s, a)], Nothing)
            else
              Poll(max, s.(pending := left), stream, a.ready).(sent := s.pending[..CountWritten(s, a)])
  {
    hide Poll, ValidRx;
  }

  lemma HaltedIsStill(max: nat, s: ServerState, stream: seq<byte>, a: Allowance)
    requires ValidServer(max, s) && s.halted
    ensures Process(max, s, stream, a) == Moved(s, 0, [], Nothing)
  {
  }

  lemma ProcessInvariant(max: nat, s: ServerState, stream: seq<byte>, a: Allowance)
    requires ValidServer(max, s)
    ensures ValidServer(max, Process(max, s, stream, a).state)
  {
    hide Advance, React, Encode;
    var n := Min(Demand(max, s.rx), Min(a.ready, |stream|));
    AdvanceInvariant(max, s.rx, stream[..n]);
  }

  // ---------------------------------------------------------------- whole runs

  datatype History = History(state: ServerState, sent: seq<byte>, events: seq<Received>, rest: seq<byte>)

  function RunServer(max: nat, s: ServerState, stream: seq<byte>, calls: seq<Allowance>): (h: History)
    requires ValidServer(max, s)
    decreases |calls|
  {
    if calls == [] then History(s, [], [], stream)
    else
      var m := Process(max, s, stream, calls[0]);
      ProcessInvariant(max, s, stream, calls[0]);
      var r := RunServer(max, m.state, stream[m.taken..], calls[1..]);
      History(r.state, m.sent + r.sent, Events(m.received) + r.events, r.rest)
  }

  lemma {:induction false} RunEventsAreParsed(
      max: nat, s: ServerState, stream: seq<byte>, calls: seq<Allowance>, future: seq<byte>)
    requires ValidServer(max, s)
    ensures var h := RunServer(max, s, stream, calls);
            && ValidServer(max, h.state)
            && |h.rest| <= |stream| && stream[|stream| - |h.rest|..] == h.rest
            && Parse(max, Pending(s.rx) + stream[..|stream| - |h.rest|] + future)
               == h.events + Parse(max, Pending(h.state.rx) + future)
    decreases |calls|
  {
    hide Process, Parse, Pending, Events, ValidRx;
    if calls == [] {
      assert Pending(s.rx) + stream[..0] == Pending(s.rx);
    } else {
      var m := Process(max, s, stream, calls[0]);
      ProcessInvariant(max, s, stream, calls[0]);
      var later := stream[m.taken..];
      RunEventsAreParsed(max, m.state, later, calls[1..], future);
      var h := RunServer(max, m.state, later, calls[1..]);
      var used := later[..|later| - |h.rest|];
      ProcessRefines(max, s, stream, calls[0], used + future);
      assert stream[..|stream| - |h.rest|] == stream[..m.taken] + used;
      assert Pending(s.rx) + (stream[..m.taken] + used) + future == Pending(s.rx) + stream[..m.taken] + (used + future);
      Associate(Pending(m.state.rx), used, future);
      Associate(Events(m.received), h.events, Parse(max, Pending(h.state.rx) + future));
    }
  }

  lemma ProcessRefines(max: nat, s: ServerState, stream: seq<byte>, a: Allowance, future: seq<byte>)
    requires ValidServer(max, s)
    ensures var m := Process(max, s, stream, a);
            Parse(max, Pending(s.rx) + stream[..m.taken] + future)
            == Events(m.received) + Parse(max, Pending(m.state.rx) + future)
  {
    hide Advance, Parse, Pending, React, Encode, ValidRx;
    var m := Process(max, s, stream, a);
    if m.taken == 0 && m.state.rx == s.rx && m.received == Nothing {
      assert Pending(s.rx) + stream[..0] == Pending(s.rx);
    } else {
      AdvanceRefines(max, s.rx, stream[..m.taken], future);
    }
  }

  /** Serving the events of a call and then the rest is serving all of them. */
  lemma ServeStep(max: nat, image: seq<byte>, r: Received, more: seq<Received>)
    requires FrameSize(max) && |image| == IMAGE_SIZE
    requires Proper(r) && forall e | e in more :: Proper(e)
    ensures forall e | e in Events(r) + more :: Proper(e)
    ensures var (reaction, after) := React(max, image, r);
            var all := Serve(max, image, Events(r) + more);
            match reaction
            case Silent => all == Serve(max, after, more)
            case Answer(f) =>
              var later := Serve(max, after, more);
              all == Service([f] + later.replies, later.image, later.halted)
            case Halt => all == Service([], after, true)
  {
    hide Dispatch, FrameFromRaw;
    if r.Nothing? {
      assert Events(r) + more == more;
    } else {
      assert (Events(r) + more)[1..] == more;
    }
  }

  lemma ServeBytes(max: nat, image: seq<byte>, r: Received, more: seq<Received>)
    requires FrameSize(max) && |image| == IMAGE_SIZE
    requires Proper(r) && forall e | e in more :: Proper(e)
    requires React(max, image, r).0.Halt? ==> more == []
    ensures forall e | e in Events(r) + more :: Proper(e)
    ensures var (reaction, after) := React(max, image, r);
            var all, later := Serve(max, image, Events(r) + more), Serve(max, after, more);
            && EncodeAll(all.replies) == ReplyBytes(reaction) + EncodeAll(later.replies)
            && all.image == later.image
            && all.halted == (reaction.Halt? || later.halted)
  {
    hide React, Encode;
    ServeStep(max, image, r, more);
    var (reaction, after) := React(max, image, r);
    var later := Serve(max, after, more);
    if reaction.Answer? {
      assert ([reaction.frame] + later.replies)[1..] == later.replies;
    }
  }

  /** One call conserves output: pending bytes and answers still to be given before the call are
      the bytes sent by it, the bytes pending after it and the answers then still to be given. */
  lemma ProcessConserves(max: nat, s: ServerState, stream: seq<byte>, a: Allowance, more: seq<Received>)
    requires ValidServer(max, s) && ValidServer(max, Process(max, s, stream, a).state)
    requires forall r | r in more :: Proper(r)
    requires Process(max, s, stream, a).state.halted ==> more == []
    ensures var m := Process(max, s, stream, a);
            && (forall r | r in Events(m.received) + more :: Proper(r))
            && var before, after := Serve(max, s.image, Events(m.received) + more), Serve(max, m.state.image, more);
               && s.pending + EncodeAll(before.replies) == m.sent + (m.state.pending + EncodeAll(after.replies))
               && before.image == after.image
               && (s.halted || before.halted) == (m.state.halted || after.halted)
  {
    hide Advance, Serve, Encode, EncodeAll, Demand, ValidRx, Dispatch, FrameFromRaw;
    var m := Process(max, s, stream, a);
    ServeBytes(max, s.image, m.received, more);
    var after := EncodeAll(Serve(max, m.state.image, more).replies);
    assert [] + after == after;
    assert s.pending == m.sent + s.pending[|m.sent|..];
    Associate(m.sent, s.pending[|m.sent|..], after);
    Associate(m.sent, [], after);
  }

  /** Output is conserved: whatever the schedule, the short writes and the write errors, the bytes
      the writer has taken followed by the bytes still pending are what was pending at first
      followed by the encodings of all answers to the events received. */
  lemma {:induction false} OutputIsConserved(max: nat, s: ServerState, stream: seq<byte>, calls: seq<Allowance>)
    requires ValidServer(max, s)
    ensures var h := RunServer(max, s, stream, calls);
            && (forall r | r in h.events :: Proper(r))
            && (s.halted ==> h.events == [])
            && var service := Serve(max, s.image, h.events);
               && s.pending + EncodeAll(service.replies) == h.sent + h.state.pending
               && h.state.image == service.image
               && h.state.halted == (s.halted || service.halted)
    decreases |calls|
  {
    hide Encode, EncodeAll, ValidRx, Advance, React, Demand;
    if calls == [] {
      assert EncodeAll([]) == [] by { EncodeNone(); }
      assert s.pending + [] == s.pending;
    } else {
      var m := Process(max, s, stream, calls[0]);
      ProcessInvariant(max, s, stream, calls[0]);
      var later := stream[m.taken..];
      OutputIsConserved(max, m.state, later, calls[1..]);
      var h := RunServer(max, m.state, later, calls[1..]);
      ProcessConserves(max, s, stream, calls[0], h.events);
      Associate(m.sent, h.sent, h.state.pending);
    }
  }

  lemma EncodeNone()
    ensures EncodeAll([]) == []
  {
  }

  /** The whole input-output behaviour of the server: at every moment of every run the output,
      including what is still pending, and the image are a function of nothing but the bytes
      read so far. */
  lemma OutputIsDeterminedByInput(max: nat, image: seq<byte>, stream: seq<byte>, calls: seq<Allowance>)
    requires FrameSize(max) && |image| == IMAGE_SIZE
    ensures ValidServer(max, Fresh(image))
    ensures var h := RunServer(max, Fresh(image), stream, calls);
            && |h.rest| <= |stream|
            && var service := Serve(max, image, Parse(max, stream[..|stream| - |h.rest|]));
               && EncodeAll(service.replies) == h.sent + h.state.pending
               && h.state.image == service.image
               && h.state.halted == service.halted
  {
    hide RunServer, Parse, Serve, EncodeAll;
    var s := Fresh(image);
    RunEventsAreParsed(max, s, stream, calls, []);
    OutputIsConserved(max, s, stream, calls);
    var h := RunServer(max, s, stream, calls);
    PendingIsIncomplete(max, h.state.rx);
    var used := stream[..|stream| - |h.rest|];
    assert [] + used + [] == used;
    assert Pending(h.state.rx) + [] == Pending(h.state.rx);
    assert h.events + [] == h.events;
    var out := EncodeAll(Serve(max, image, h.events).replies);
    assert [] + out == out;
  }
}
