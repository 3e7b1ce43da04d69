/** Whole sessions: the server is a plain byte array, at every moment of every run. */
module Sessions {
  import opened Bytes
  import opened Crc
  import opened Frames
  import opened Receiving
  import opened Memory
  import opened Serving
  import opened ServerTheorems

  // ---------------------------------------------------------------- whole sessions

  function Requests(numbers: seq<u16>, commands: seq<Command>): (frames: seq<RawFrame>)
    requires |numbers| == |commands|
    requires forall c | c in commands :: c.Write? ==> |c.data| + 4 < 0x1_0000
    ensures |frames| == |commands|
    ensures forall f | f in frames :: WellFormed(f)
    decreases |commands|
  {
    if commands == [] then []
    else
      assert commands[0] in commands;
      [RequestFrame(numbers[0], commands[0])] + Requests(numbers[1..], commands[1..])
  }

  predicate AllSendable(max: nat, commands: seq<Command>)
    requires FrameSize(max)
  {
    forall c | c in commands :: Sendable(max, c)
  }

  predicate NoneTakesDown(max: nat, commands: seq<Command>)
    requires FrameSize(max)
  {
    forall c | c in commands :: !CommandTakesDown(max, c)
  }

  lemma {:induction false} PlainFront(memory: seq<byte>, c: Command, rest: seq<Command>)
    ensures PlainMemory(memory, [c] + rest) == PlainMemory(PlainNext(memory, c), rest)
    decreases |rest|
  {
    var all := [c] + rest;
    if rest == [] {
      assert all[..0] == [];
      assert all == [c];
    } else {
      var n := |rest| - 1;
      assert all[..|all| - 1] == [c] + rest[..n];
      PlainFront(memory, c, rest[..n]);
    }
  }

  lemma ProperRequests(frames: seq<RawFrame>)
    requires forall f | f in frames :: WellFormed(f)
    ensures forall r | r in AllAccepted(frames) :: Proper(r)
  {
    if frames != [] {
      assert frames[0] in frames && forall f | f in frames[1..] :: f in frames;
      ProperRequests(frames[1..]);
    }
  }

  /** The reply to command `i` of a session. */
  predicate Answers(max: nat, memory: seq<byte>, numbers: seq<u16>, commands: seq<Command>, i: nat, reply: RawFrame)
    requires FrameSize(max) && |numbers| == |commands| && i < |commands|
  {
    && reply.header.frameNumber == numbers[i]
    && Meaning(reply) == PlainResult(max, PlainMemory(memory, commands[..i]), commands[i])
  }

  lemma AnswersLater(max: nat, memory: seq<byte>, numbers: seq<u16>, commands: seq<Command>, i: nat, reply: RawFrame)
    requires FrameSize(max) && |numbers| == |commands| && 0 < i < |commands|
    requires Answers(max, PlainNext(memory, commands[0]), numbers[1..], commands[1..], i - 1, reply)
    ensures Answers(max, memory, numbers, commands, i, reply)
  {
    hide Meaning, PlainResult, PlainNext;
    var c, rest := commands[0], commands[1..];
    assert commands[..i] == [c] + rest[..i - 1];
    PlainFront(memory, c, rest[..i - 1]);
  }

  /** How far a list of commands is served: all of it, or up to a first command that halts the
      firmware. */
  predicate ServedUpTo(max: nat, commands: seq<Command>, k: nat, halted: bool)
    requires FrameSize(max)
  {
    && k <= |commands| && NoneTakesDown(max, commands[..k])
    && (halted <==> k < |commands|)
    && (halted ==> CommandTakesDown(max, commands[k]))
  }

  lemma ServedLater(max: nat, commands: seq<Command>, k: nat, halted: bool)
    requires FrameSize(max) && commands != [] && !CommandTakesDown(max, commands[0])
    requires ServedUpTo(max, commands[1..], k, halted)
    ensures ServedUpTo(max, commands, k + 1, halted)
  {
    hide CommandTakesDown;
    assert commands[..k + 1] == [commands[0]] + commands[1..][..k];
  }

  /** Any list of commands that can be sent gets one reply each, in order, up to the first that
      halts the firmware, and every reply says what a plain array says after the commands before
      it. */
  lemma {:induction false} SessionRefinesPlainArray(
      max: nat, memory: seq<byte>, numbers: seq<u16>, commands: seq<Command>)
    requires FrameSize(max) && |memory| == IMAGE_SIZE
    requires |numbers| == |commands| && AllSendable(max, commands)
    ensures var events := AllAccepted(Requests(numbers, commands));
            && (forall r | r in events :: Proper(r))
            && var s := Serve(max, memory, events);
               var k := |s.replies|;
               && ServedUpTo(max, commands, k, s.halted)
               && s.image == PlainMemory(memory, commands[..k])
               && forall i | 0 <= i < k :: Answers(max, memory, numbers, commands, i, s.replies[i])
    decreases |commands|
  {
    hide React, RequestFrame, Meaning, PlainResult, PlainNext, Answers, PlainMemory, Encode, ServedUpTo,
         CommandTakesDown;
    ProperRequests(Requests(numbers, commands));
    PlainNone(memory);
    assert commands[..0] == [];
    if commands == [] {
      assert ServedUpTo(max, commands, 0, false) by { NothingServed(max, commands, false); }
    } else {
      var c, rest := commands[0], commands[1..];
      assert c in commands && forall d | d in rest :: d in commands;
      CommandHalts(max, memory, numbers[0], c);
      if CommandTakesDown(max, c) {
        NothingServed(max, commands, true);
      } else {
        CommandIsAnswered(max, memory, numbers[0], c);
        SessionContinues(max, memory, numbers, commands);
      }
    }
  }

  lemma NothingServed(max: nat, commands: seq<Command>, halted: bool)
    requires FrameSize(max)
    requires if halted then commands != [] && CommandTakesDown(max, commands[0]) else commands == []
    ensures ServedUpTo(max, commands, 0, halted)
  {
  }

  lemma {:induction false} SessionContinues(max: nat, memory: seq<byte>, numbers: seq<u16>, commands: seq<Command>)
    requires FrameSize(max) && |memory| == IMAGE_SIZE
    requires |numbers| == |commands| > 0 && AllSendable(max, commands)
    requires !CommandTakesDown(max, commands[0])
    requires forall r | r in AllAccepted(Requests(numbers, commands)) :: Proper(r)
    ensures var s := Serve(max, memory, AllAccepted(Requests(numbers, commands)));
            var k := |s.replies|;
            && ServedUpTo(max, commands, k, s.halted)
            && s.image == PlainMemory(memory, commands[..k])
            && forall i | 0 <= i < k :: Answers(max, memory, numbers, commands, i, s.replies[i])
    decreases |commands|, 0
  {
    hide React, RequestFrame, Meaning, PlainResult, PlainNext, Answers, PlainMemory, Encode, ServedUpTo,
         CommandTakesDown;
    var c, rest := commands[0], commands[1..];
    assert c in commands && forall d | d in rest :: d in commands;
    var next := PlainNext(memory, c);
    CommandIsAnswered(max, memory, numbers[0], c);
    SessionRefinesPlainArray(max, next, numbers[1..], rest);
    var s := Serve(max, memory, AllAccepted(Requests(numbers, commands)));
    var later := Serve(max, next, AllAccepted(Requests(numbers[1..], rest)));
    var k := |later.replies|;
    assert s.replies[1..] == later.replies && s.halted == later.halted && s.image == later.image;
    ServedLater(max, commands, k, s.halted);
    assert ServedUpTo(max, rest, k, later.halted) ==> k <= |rest| by { ServedWithin(max, rest, k, later.halted); }
    assert commands[..k + 1] == [c] + rest[..k];
    PlainFront(memory, c, rest[..k]);
    FirstAnswer(max, memory, numbers, commands, s.replies[0]);
    forall i | 0 < i < k + 1
      ensures Answers(max, memory, numbers, commands, i, s.replies[i])
    {
      assert s.replies[i] == later.replies[i - 1];
      AnswersLater(max, memory, numbers, commands, i, s.replies[i]);
    }
  }

  lemma ServedWithin(max: nat, commands: seq<Command>, k: nat, halted: bool)
    requires FrameSize(max)
    ensures ServedUpTo(max, commands, k, halted) ==> k <= |commands|
  {
  }

  lemma PlainNone(memory: seq<byte>)
    ensures PlainMemory(memory, []) == memory
  {
  }

  lemma FirstAnswer(max: nat, memory: seq<byte>, numbers: seq<u16>, commands: seq<Command>, reply: RawFrame)
    requires FrameSize(max) && |numbers| == |commands| > 0
    requires reply.header.frameNumber == numbers[0] && Meaning(reply) == PlainResult(max, memory, commands[0])
    ensures Answers(max, memory, numbers, commands, 0, reply)
  {
    hide Meaning, PlainResult;
    assert commands[..0] == [];
  }

  lemma {:induction false} EncodeAllIsSent(frames: seq<RawFrame>, gaps: seq<seq<byte>>)
    requires forall f | f in frames :: WellFormed(f)
    requires |gaps| == |frames| + 1 && forall g | g in gaps :: g == []
    ensures EncodeAll(frames) == Sent(gaps, frames)
    decreases |frames|
  {
    hide Encode;
    assert gaps[0] in gaps && gaps[0] == [];
    if frames != [] {
      assert forall g | g in gaps[1..] :: g in gaps;
      EncodeAllIsSent(frames[1..], gaps[1..]);
      assert frames[0] in frames && WellFormed(frames[0]);
      assert [] + Encode(frames[0]) == Encode(frames[0]);
    }
  }

  /** The server's output is itself a stream of frames. */
  lemma OutputParses(max: nat, frames: seq<RawFrame>)
    requires BufferSize(max)
    requires forall f | f in frames :: WellFormed(f) && f.header.payloadLength <= max - 2
    ensures Parse(max, EncodeAll(frames)) == AllAccepted(frames)
  {
    hide Parse, EncodeAll, Sent;
    var gaps := seq(|frames| + 1, _ => []);
    EncodeAllIsSent(frames, gaps);
    ParseSent(max, gaps, frames);
  }

  lemma {:induction false} RequestsFit(max: nat, numbers: seq<u16>, commands: seq<Command>)
    requires FrameSize(max) && |numbers| == |commands| && AllSendable(max, commands)
    ensures forall f | f in Requests(numbers, commands) :: f.header.payloadLength <= max - 2
    decreases |commands|
  {
    if commands != [] {
      assert commands[0] in commands && Sendable(max, commands[0]);
      assert forall c | c in commands[1..] :: c in commands;
      RequestsFit(max, numbers[1..], commands[1..]);
    }
  }

  // ---------------------------------------------------------------- progress

  function Work(max: nat, s: ServerState, stream: seq<byte>): nat {
    |stream| * (max + 1) + |s.pending|
  }

  /** Whether a call may move a byte: out while a reply is pending, and in otherwise. */
  predicate Useful(s: ServerState, a: Allowance) {
    if s.pending != [] then MayWrite(a) else MayRead(a)
  }

  lemma PollMoves(max: nat, s: ServerState, stream: seq<byte>, ready: nat)
    requires ValidServer(max, s) && ValidServer(max, Poll(max, s, stream, ready).state)
    ensures var m := Poll(max, s, stream, ready);
            && |m.state.pending| <= max
            && (m.taken == 0 ==> m.state.pending == [])
            && (ready > 0 && stream != [] ==> m.taken > 0)
  {
    hide AfterWindow, Judge, Dispatch, FrameFromRaw, ValidRx, Encode;
  }

  lemma UsefulCallWorks(max: nat, s: ServerState, stream: seq<byte>, a: Allowance)
    requires ValidServer(max, s) && ValidServer(max, Process(max, s, stream, a).state)
    requires Useful(s, a) && !s.halted
    ensures var m := Process(max, s, stream, a);
            || Work(max, m.state, stream[m.taken..]) < Work(max, s, stream)
            || Work(max, m.state, stream[m.taken..]) == 0
  {
    hide Process, Poll, ValidServer;
    ProcessCases(max, s, stream, a);
    var m, left := Process(max, s, stream, a), s.pending[CountWritten(s, a)..];
    if left == [] && !a.readFault {
      var empty := s.(pending := left);
      assert ValidServer(max, empty) && m == Poll(max, empty, stream, a.ready).(sent := m.sent) by {
        EmptiedIsValid(max, s);
      }
      PollMoves(max, empty, stream, a.ready);
      if m.taken > 0 {
        WorkDrops(max, |stream|, m.taken);
      } else if stream == [] {
        assert 0 * (max + 1) == 0;
      }
    }
  }

  lemma EmptiedIsValid(max: nat, s: ServerState)
    requires ValidServer(max, s)
    ensures ValidServer(max, s.(pending := []))
  {
  }

  /** Any other call changes nothing. */
  lemma UselessCallStays(max: nat, s: ServerState, stream: seq<byte>, a: Allowance)
    requires ValidServer(max, s) && !Useful(s, a)
    ensures Process(max, s, stream, a) == Moved(s, 0, [], Nothing)
  {
    hide Process, Poll, ValidRx, Encode;
    if !s.halted {
      ProcessCases(max, s, stream, a);
      NothingPolled(max, s, stream, a.ready);
    } else {
      HaltedIsStill(max, s, stream, a);
    }
  }

  lemma NothingPolled(max: nat, s: ServerState, stream: seq<byte>, ready: nat)
    requires ValidServer(max, s) && !s.halted
    ensures s.pending == [] && ready == 0 ==> Poll(max, s, stream, ready) == Moved(s, 0, [], Nothing)
  {
    hide ValidRx, Encode, Dispatch, FrameFromRaw;
  }

  lemma WorkDrops(max: nat, n: nat, k: nat)
    requires 0 < k <= n
    ensures (n - k) * (max + 1) + max < n * (max + 1)
  {
    assert n * (max + 1) - (n - k) * (max + 1) == k * (max + 1);
    assert k * (max + 1) >= max + 1;
  }

  /** No call adds work, whatever it may read or write. */
  lemma NoCallAddsWork(max: nat, s: ServerState, stream: seq<byte>, a: Allowance)
    requires ValidServer(max, s) && ValidServer(max, Process(max, s, stream, a).state)
    ensures var m := Process(max, s, stream, a);
            Work(max, m.state, stream[m.taken..]) <= Work(max, s, stream)
  {
    hide Process, Poll, ValidServer;
    var m, left := Process(max, s, stream, a), s.pending[CountWritten(s, a)..];
    if s.halted {
      HaltedIsStill(max, s, stream, a);
    } else {
      ProcessCases(max, s, stream, a);
      if left == [] && !a.readFault {
        var empty := s.(pending := left);
        assert ValidServer(max, empty) && m == Poll(max, empty, stream, a.ready).(sent := m.sent) by {
          EmptiedIsValid(max, s);
        }
        PollMoves(max, empty, stream, a.ready);
        if m.taken > 0 {
          WorkDrops(max, |stream|, m.taken);
        }
      }
    }
  }

  /** How often, one after the other, the calls of a run give the server a turn to read and a turn
      to write, in either order, in one call or in two, and with any calls in between: `r` and `w`
      say which of the two the current round has had. */
  function Rounds(calls: seq<Allowance>, r: bool, w: bool): nat
    decreases |calls|
  {
    if calls == [] then 0
    else
      var r', w' := r || MayRead(calls[0]), w || MayWrite(calls[0]);
      if r' && w' then 1 + Rounds(calls[1..], false, false) else Rounds(calls[1..], r', w')
  }

  /** The rounds that finish the work: one more when the current round has already had the turn
      that the server now waits for. */
  function Owed(max: nat, s: ServerState, stream: seq<byte>, r: bool, w: bool): nat {
    var work := Work(max, s, stream);
    if work == 0 then 0 else work + if (if s.pending != [] then w else r) then 1 else 0
  }

  lemma NoWorkLeft(max: nat, s: ServerState, stream: seq<byte>)
    ensures Work(max, s, stream) == 0 ==> stream == [] && s.pending == []
  {
    if stream != [] {
      WorkDrops(max, |stream|, |stream|);
    }
  }

  lemma OneCallOwed(max: nat, s: ServerState, stream: seq<byte>, calls: seq<Allowance>, r: bool, w: bool)
    requires ValidServer(max, s) && !s.halted && calls != [] && !(r && w)
    requires ValidServer(max, Process(max, s, stream, calls[0]).state)
    requires Rounds(calls, r, w) >= Owed(max, s, stream, r, w)
    ensures var m := Process(max, s, stream, calls[0]);
            var r', w' := r || MayRead(calls[0]), w || MayWrite(calls[0]);
            if r' && w' then
              Rounds(calls[1..], false, false) >= Owed(max, m.state, stream[m.taken..], false, false)
            else
              Rounds(calls[1..], r', w') >= Owed(max, m.state, stream[m.taken..], r', w')
  {
    hide Process, MayRead, MayWrite, Work, ValidServer;
    NoCallAddsWork(max, s, stream, calls[0]);
    if Useful(s, calls[0]) {
      UsefulCallWorks(max, s, stream, calls[0]);
    } else {
      UselessCallStays(max, s, stream, calls[0]);
      assert stream[0..] == stream;
    }
  }

  /** Enough rounds, whatever else the calls of the run allow and however the rounds are spread,
      read the whole stream and write out every answer, unless a request halts the firmware. */
  lemma {:induction false} RoundsFinish(
      max: nat, s: ServerState, stream: seq<byte>, calls: seq<Allowance>, r: bool, w: bool)
    requires ValidServer(max, s) && !(r && w)
    requires Rounds(calls, r, w) >= Owed(max, s, stream, r, w)
    ensures var h := RunServer(max, s, stream, calls);
            h.state.halted || (h.rest == [] && h.state.pending == [])
    decreases |calls|
  {
    hide Process, MayRead, MayWrite, Work, ValidServer, Owed;
    if calls == [] {
      NothingOwed(max, s, stream, r, w);
      NoWorkLeft(max, s, stream);
    } else {
      ProcessInvariant(max, s, stream, calls[0]);
      var m := Process(max, s, stream, calls[0]);
      if s.halted {
        HaltedStays(max, s, stream, calls);
      } else {
        OneCallOwed(max, s, stream, calls, r, w);
        var r', w' := r || MayRead(calls[0]), w || MayWrite(calls[0]);
        if r' && w' {
          RoundsFinish(max, m.state, stream[m.taken..], calls[1..], false, false);
        } else {
          RoundsFinish(max, m.state, stream[m.taken..], calls[1..], r', w');
        }
      }
    }
  }

  lemma NothingOwed(max: nat, s: ServerState, stream: seq<byte>, r: bool, w: bool)
    ensures Owed(max, s, stream, r, w) == 0 ==> Work(max, s, stream) == 0
  {
  }

  /** From the start of a round: as many rounds as there is work. */
  lemma RunsFinish(max: nat, s: ServerState, stream: seq<byte>, calls: seq<Allowance>)
    requires ValidServer(max, s)
    requires Rounds(calls, false, false) >= Work(max, s, stream)
    ensures var h := RunServer(max, s, stream, calls);
            h.state.halted || (h.rest == [] && h.state.pending == [])
  {
    hide RunServer, Rounds, Work;
    RoundsFinish(max, s, stream, calls, false, false);
  }

  lemma {:induction false} HaltedStays(max: nat, s: ServerState, stream: seq<byte>, calls: seq<Allowance>)
    requires ValidServer(max, s) && s.halted
    ensures RunServer(max, s, stream, calls).state == s
    decreases |calls|
  {
    if calls != [] {
      assert stream[0..] == stream;
      HaltedStays(max, s, stream, calls[1..]);
    }
  }

  // ---------------------------------------------------------------- sessions at every moment

  lemma {:induction false} AcceptedPrefix(frames: seq<RawFrame>, k: nat)
    requires k <= |frames|
    ensures |AllAccepted(frames)| == |frames|
    ensures AllAccepted(frames)[..k] == AllAccepted(frames[..k])
    decreases |frames|
  {
    if frames != [] {
      AcceptedPrefix(frames[1..], if k == 0 then 0 else k - 1);
      if k > 0 {
        assert frames[..k][1..] == frames[1..][..k - 1];
      }
    }
  }

  lemma {:induction false} RequestsPrefix(numbers: seq<u16>, commands: seq<Command>, k: nat)
    requires |numbers| == |commands| && k <= |commands|
    requires forall c | c in commands :: c.Write? ==> |c.data| + 4 < 0x1_0000
    ensures Requests(numbers, commands)[..k] == Requests(numbers[..k], commands[..k])
    decreases k
  {
    hide RequestFrame;
    assert forall c | c in commands[..k] :: c in commands;
    if k > 0 {
      assert forall c | c in commands[1..] :: c in commands;
      RequestsPrefix(numbers[1..], commands[1..], k - 1);
      assert numbers[..k][1..] == numbers[1..][..k - 1] && commands[..k][1..] == commands[1..][..k - 1];
    }
  }

  /** A list of commands that can be sent, with frame numbers and with noise around the requests, to
      a server with some image. */
  predicate IsSession(max: nat, memory: seq<byte>, gaps: seq<seq<byte>>, numbers: seq<u16>, commands: seq<Command>) {
    && FrameSize(max) && |memory| == IMAGE_SIZE
    && |numbers| == |commands| && AllSendable(max, commands)
    && |gaps| == |commands| + 1 && forall g | g in gaps :: Noise(g)
  }

  function SessionLine(
      max: nat, memory: seq<byte>, gaps: seq<seq<byte>>, numbers: seq<u16>, commands: seq<Command>): seq<byte>
    requires IsSession(max, memory, gaps, numbers, commands)
  {
    Sent(gaps, Requests(numbers, commands))
  }

  function SessionRun(
      max: nat, memory: seq<byte>, gaps: seq<seq<byte>>, numbers: seq<u16>, commands: seq<Command>,
      calls: seq<Allowance>): History
    requires IsSession(max, memory, gaps, numbers, commands)
  {
    RunServer(max, Fresh(memory), SessionLine(max, memory, gaps, numbers, commands), calls)
  }

  /** At every moment of any session the server has served some first commands of it, none of
      which halts the firmware: its image is the plain array's after these commands, and what has
      come out or is pending are their replies.  When it has halted, the next command is the
      reason, and when it has read the whole line without halting, it has served all. */
  lemma SessionSoFar(
      max: nat, memory: seq<byte>, gaps: seq<seq<byte>>, numbers: seq<u16>, commands: seq<Command>,
      calls: seq<Allowance>)
    returns (k: nat, replies: seq<RawFrame>)
    requires IsSession(max, memory, gaps, numbers, commands)
    ensures k == |replies| <= |commands| && NoneTakesDown(max, commands[..k])
    ensures forall f | f in replies :: WellFormed(f) && f.header.payloadLength <= max - HEADER_SIZE - 2
    ensures var h := SessionRun(max, memory, gaps, numbers, commands, calls);
            && (h.state.halted ==> k < |commands| && CommandTakesDown(max, commands[k]))
            && (h.rest == [] && !h.state.halted ==> k == |commands|)
            && h.state.image == PlainMemory(memory, commands[..k])
            && h.sent + h.state.pending == EncodeAll(replies)
            && forall i | 0 <= i < k :: Answers(max, memory, numbers, commands, i, replies[i])
  {
    hide Parse, Serve, EncodeAll, Sent, Requests, RunServer, Answers, AllAccepted, PlainMemory, Pending, ServedUpTo;
    var frames, s := Requests(numbers, commands), Fresh(memory);
    var line := Sent(gaps, frames);
    var h := RunServer(max, s, line, calls);
    RunEventsAreParsed(max, s, line, calls, h.rest);
    RequestsFit(max, numbers, commands);
    ParseSent(max, gaps, frames);
    assert Pending(s.rx) == [] by { NothingPending(); }
    assert [] + line[..|line| - |h.rest|] + h.rest == line;
    var n := |h.events|;
    AcceptedPrefix(frames, 0);
    assert AllAccepted(frames)[..n] == h.events;
    AcceptedPrefix(frames, n);
    RequestsPrefix(numbers, commands, n);
    assert forall c | c in commands[..n] :: c in commands;
    SessionRefinesPlainArray(max, memory, numbers[..n], commands[..n]);
    OutputIsConserved(max, s, line, calls);
    replies := Serve(max, memory, h.events).replies;
    k := |replies|;
    ServedPrefix(max, commands, n, k, h.state.halted);
    assert [] + EncodeAll(replies) == EncodeAll(replies);
    if h.rest == [] {
      ReadToTheEnd(max, h.state.rx);
      assert h.events + [] == h.events;
    }
    forall i | 0 <= i < k
      ensures Answers(max, memory, numbers, commands, i, replies[i])
    {
      AnswersInPrefix(max, memory, numbers, commands, n, i, replies[i]);
    }
  }

  lemma ServedPrefix(max: nat, commands: seq<Command>, n: nat, k: nat, halted: bool)
    requires FrameSize(max) && n <= |commands|
    requires ServedUpTo(max, commands[..n], k, halted)
    ensures k <= n && commands[..n][..k] == commands[..k] && NoneTakesDown(max, commands[..k])
    ensures halted ==> k < n && CommandTakesDown(max, commands[k])
    ensures !halted ==> k == n
  {
  }

  lemma ReadToTheEnd(max: nat, rx: RxState)
    requires BufferSize(max) && ValidRx(max, rx)
    ensures Parse(max, Pending(rx) + []) == []
  {
    hide Parse, Pending;
    PendingIsIncomplete(max, rx);
    assert Pending(rx) + [] == Pending(rx);
  }

  lemma NothingPending()
    ensures Pending(Header([])) == []
  {
  }

  lemma AnswersInPrefix(
      max: nat, memory: seq<byte>, numbers: seq<u16>, commands: seq<Command>, k: nat, i: nat, reply: RawFrame)
    requires FrameSize(max) && |numbers| == |commands| && i < k <= |commands|
    requires Answers(max, memory, numbers[..k], commands[..k], i, reply)
    ensures Answers(max, memory, numbers, commands, i, reply)
  {
    hide Meaning, PlainResult, PlainMemory;
    assert commands[..k][..i] == commands[..i];
  }

  /** The memory over the wire: requests go in as bytes with any noise between them, under any
      schedule of short reads, short writes and failures; once the line is drained, the bytes
      that came out are the replies of a plain 8192-byte array, each with its request's number,
      and they parse as such. */
  lemma SessionOverTheWire(
      max: nat, memory: seq<byte>, gaps: seq<seq<byte>>, numbers: seq<u16>, commands: seq<Command>,
      calls: seq<Allowance>)
    requires IsSession(max, memory, gaps, numbers, commands) && NoneTakesDown(max, commands)
    requires SessionRun(max, memory, gaps, numbers, commands, calls).rest == []
    requires SessionRun(max, memory, gaps, numbers, commands, calls).state.pending == []
    ensures var h := SessionRun(max, memory, gaps, numbers, commands, calls);
            && !h.state.halted
            && h.state.image == PlainMemory(memory, commands)
            && exists replies: seq<RawFrame> {:trigger AllAccepted(replies)} ::
                 && Parse(max, h.sent) == AllAccepted(replies)
                 && |replies| == |commands|
                 && forall i | 0 <= i < |commands| :: Answers(max, memory, numbers, commands, i, replies[i])
  {
    hide Parse, EncodeAll, SessionRun, Answers, AllAccepted, PlainMemory;
    var h := SessionRun(max, memory, gaps, numbers, commands, calls);
    var k, replies := SessionSoFar(max, memory, gaps, numbers, commands, calls);
    NotAmongThem(max, commands, k);
    assert commands[..|commands|] == commands;
    assert h.sent + [] == h.sent;
    OutputParses(max, replies);
  }

  /** Any session in which the server gets enough rounds to read and to write is served to its end:
      the firmware halts exactly when some command takes it down; nothing is left to write; what has
      come out are the replies to all commands before the first of these, or to all commands, in
      order, each saying what a plain array says. */
  lemma SessionIsServed(
      max: nat, memory: seq<byte>, gaps: seq<seq<byte>>, numbers: seq<u16>, commands: seq<Command>,
      calls: seq<Allowance>)
    requires IsSession(max, memory, gaps, numbers, commands)
    requires Rounds(calls, false, false) >= |SessionLine(max, memory, gaps, numbers, commands)| * (max + 1)
    ensures var h := SessionRun(max, memory, gaps, numbers, commands, calls);
            && (h.state.halted <==> exists c | c in commands :: CommandTakesDown(max, c))
            && h.state.pending == []
            && (!h.state.halted ==> h.rest == [])
            && exists replies: seq<RawFrame> {:trigger AllAccepted(replies)} ::
                 && Parse(max, h.sent) == AllAccepted(replies)
                 && ServedUpTo(max, commands, |replies|, h.state.halted)
                 && h.state.image == PlainMemory(memory, commands[..|replies|])
                 && forall i | 0 <= i < |replies| :: Answers(max, memory, numbers, commands, i, replies[i])
  {
    hide Parse, Serve, EncodeAll, SessionLine, RunServer, Answers, AllAccepted, PlainMemory, Rounds,
         CommandTakesDown;
    var line := SessionLine(max, memory, gaps, numbers, commands);
    var k, replies := SessionSoFar(max, memory, gaps, numbers, commands, calls);
    RunsFinish(max, Fresh(memory), line, calls);
    var h := RunServer(max, Fresh(memory), line, calls);
    HaltedHasNothingPending(max, Fresh(memory), line, calls);
    OutputParses(max, replies);
    assert h.sent + [] == h.sent;
    assert commands[..|commands|] == commands;
    if h.state.halted {
      assert commands[k] in commands;
    }
  }

  lemma NotAmongThem(max: nat, commands: seq<Command>, k: nat)
    requires FrameSize(max) && NoneTakesDown(max, commands)
    ensures k < |commands| ==> !CommandTakesDown(max, commands[k])
  {
    hide CommandTakesDown;
    if k < |commands| {
      assert commands[k] in commands;
    }
  }

  lemma HaltedHasNothingPending(max: nat, s: ServerState, stream: seq<byte>, calls: seq<Allowance>)
    requires ValidServer(max, s)
    ensures var t := RunServer(max, s, stream, calls).state;
            t.halted ==> t.pending == []
  {
    hide RunServer, Parse, Pending;
    RunEventsAreParsed(max, s, stream, calls, []);
  }
}
