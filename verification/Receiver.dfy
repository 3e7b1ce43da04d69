/** The resynchronising receiver. */
module Receiving {
  import opened Bytes
  import opened Crc
  import opened Frames

  /** The smallest buffer holds a header; a larger one than this would not be told apart from a
      16-bit payload length. */
  predicate BufferSize(max: nat) {
    HEADER_SIZE <= max <= 0x1_0001
  }

  /** The outcome of one call: nothing yet, a frame, or a frame whose check value is wrong. */
  datatype Received = Nothing | Accepted(frame: RawFrame) | Rejected(error: FrameError)

  predicate Proper(r: Received) {
    r.Accepted? ==> WellFormed(r.frame)
  }

  // ---------------------------------------------------------------- reference parser

  /** What the bytes of a whole frame body amount to. */
  function Judge(h: FrameHeader, body: seq<byte>): (r: Received)
    ensures Parseable(h.frameType) ==> Proper(r)
  {
    match ReadFramePayload(h, body)
    case Ok((frame, _)) => Accepted(frame)
    case Err(e) => Rejected(e)
  }

  /** The left-to-right reading of a byte stream, without any buffer, window or chunk: skip to a
      marker; six bytes from there are a header; a header with an unknown type is dropped
      whole; a frame that cannot fit makes the rest of the stream unreadable; otherwise payload
      and check value follow. */
  function Parse(max: nat, s: seq<byte>): (events: seq<Received>)
    requires BufferSize(max)
    ensures forall r | r in events :: Proper(r)
    decreases |s|
  {
    if s == [] then []
    else if s[0] != FRAME_MARKER then Parse(max, s[1..])
    else if |s| < HEADER_SIZE then []
    else
      match HeaderFromBytes(s[1..HEADER_SIZE])
      case Err(_) => Parse(max, s[HEADER_SIZE..])
      case Ok(h) =>
        var end := HEADER_SIZE + h.payloadLength + 2;
        if h.payloadLength > max - 2 || |s| < end then []
        else [Judge(h, s[HEADER_SIZE..end])] + Parse(max, s[end..])
  }

  // ---------------------------------------------------------------- one call, on values

  /** The state between calls: the header bytes, or the body bytes of a frame, received so far;
      or how many body bytes the last read of a frame that is too long delivered. */
  datatype RxState =
    | Header(got: seq<byte>)
    | Payload(got: seq<byte>, header: FrameHeader)
    | Discard(count: nat, header: FrameHeader)

  predicate ValidRx(max: nat, st: RxState)
    requires BufferSize(max)
  {
    match st
    case Header(got) => |got| < HEADER_SIZE
    case Payload(got, h) =>
      |got| < h.payloadLength + 2 <= max && Parseable(h.frameType)
    case Discard(count, h) =>
      count <= max < h.payloadLength + 2 && Parseable(h.frameType)
  }

  /** How many bytes a call asks its reader for. */
  function Demand(max: nat, st: RxState): (n: nat)
    requires BufferSize(max) && ValidRx(max, st)
    ensures n > 0
  {
    match st
    case Header(got) => HEADER_SIZE - |got|
    case Payload(got, h) => h.payloadLength + 2 - |got|
    case Discard(count, h) =>
      var left := h.payloadLength + 2 - count;
      if left < max then left else max
  }

  /** A full header window: a whole header, a partial one to be kept, or nothing of use. */
  function AfterWindow(max: nat, window: seq<byte>): RxState
    requires BufferSize(max) && |window| == HEADER_SIZE
  {
    match ReadHeader(window)
    case Found(h, _) => if h.payloadLength > max - 2 then Discard(0, h) else Payload([], h)
    case Missed(NoFrameMarker, _) => Header([])
    case Missed(InsufficientLength, at) => Header(window[at..])
    case Missed(_, _) => Header([])
  }

  function Advance(max: nat, st: RxState, chunk: seq<byte>): (result: (RxState, Received))
    requires BufferSize(max) && ValidRx(max, st)
    requires |chunk| <= Demand(max, st)
    ensures Proper(result.1)
  {
    if chunk == [] then (st, Nothing)
    else
      match st
      case Header(got) =>
        var window := got + chunk;
        (if |window| == HEADER_SIZE then AfterWindow(max, window) else Header(window), Nothing)
      case Payload(got, h) =>
        var body := got + chunk;
        if |body| == h.payloadLength + 2 then (Header([]), Judge(h, body)) else (Payload(body, h), Nothing)
      case Discard(_, h) =>
        (if |chunk| == h.payloadLength + 2 then Header([]) else Discard(|chunk|, h), Nothing)
  }

  // ---------------------------------------------------------------- the parser's own laws

  /** The stream bytes a state stands for. */
  function Pending(st: RxState): seq<byte> {
    match st
    case Header(got) => got
    case Payload(got, h) => [FRAME_MARKER] + HeaderToBytes(h) + got
    case Discard(_, h) => [FRAME_MARKER] + HeaderToBytes(h)
  }

  function Events(r: Received): seq<Received> {
    if r.Nothing? then [] else [r]
  }

  lemma {:induction false} ParseSkipsJunk(max: nat, junk: seq<byte>, s: seq<byte>)
    requires BufferSize(max)
    requires FRAME_MARKER !in junk
    ensures Parse(max, junk + s) == Parse(max, s)
  {
    if junk == [] {
      assert junk + s == s;
    } else {
      assert (junk + s)[0] == junk[0];
      assert (junk + s)[1..] == junk[1..] + s;
      ParseSkipsJunk(max, junk[1..], s);
    }
  }

  /** What the receiver passes over between frames: bytes that are no marker, and whole six-byte
      windows that a marker opens but whose type byte is unknown, whatever their other four bytes
      are. */
  predicate Noise(gap: seq<byte>) {
    if gap == [] then true
    else if gap[0] != FRAME_MARKER then Noise(gap[1..])
    else |gap| >= HEADER_SIZE && !KnownType(gap[1]) && Noise(gap[HEADER_SIZE..])
  }

  lemma {:induction false} MarkerFreeIsNoise(gap: seq<byte>)
    requires FRAME_MARKER !in gap
    ensures Noise(gap)
  {
    if gap != [] {
      assert gap[0] in gap;
      MarkerFreeIsNoise(gap[1..]);
    }
  }

  /** No frame is read out of noise, and none behind it is lost to it. */
  lemma {:induction false} ParseSkipsNoise(max: nat, gap: seq<byte>, s: seq<byte>)
    requires BufferSize(max) && Noise(gap)
    ensures Parse(max, gap + s) == Parse(max, s)
    decreases |gap|
  {
    hide HeaderFromBytes, Judge, KnownType;
    if gap == [] {
      assert gap + s == s;
    } else if gap[0] != FRAME_MARKER {
      assert (gap + s)[1..] == gap[1..] + s;
      ParseSkipsNoise(max, gap[1..], s);
    } else {
      assert (gap + s)[HEADER_SIZE..] == gap[HEADER_SIZE..] + s;
      HeaderOutcome((gap + s)[1..HEADER_SIZE]);
      ParseSkipsNoise(max, gap[HEADER_SIZE..], s);
    }
  }

  lemma {:induction false} ParseWithinNoise(max: nat, gap: seq<byte>, k: nat)
    requires BufferSize(max) && Noise(gap) && k <= |gap|
    ensures Parse(max, gap[..k]) == []
    decreases |gap|
  {
    hide HeaderFromBytes, Judge, KnownType;
    if k < HEADER_SIZE {
      ParseTooShort(max, gap[..k]);
    } else if gap[0] != FRAME_MARKER {
      assert gap[..k][1..] == gap[1..][..k - 1];
      ParseWithinNoise(max, gap[1..], k - 1);
    } else {
      assert gap[..k][HEADER_SIZE..] == gap[HEADER_SIZE..][..k - HEADER_SIZE];
      HeaderOutcome(gap[..k][1..HEADER_SIZE]);
      ParseWithinNoise(max, gap[HEADER_SIZE..], k - HEADER_SIZE);
    }
  }

  lemma ParseHeader(max: nat, h: FrameHeader, s: seq<byte>)
    requires BufferSize(max) && Parseable(h.frameType)
    ensures var end := h.payloadLength + 2;
            Parse(max, [FRAME_MARKER] + HeaderToBytes(h) + s) ==
            if h.payloadLength > max - 2 || |s| < end then []
            else [Judge(h, s[..end])] + Parse(max, s[end..])
  {
    hide HeaderToBytes, HeaderFromBytes, Judge, Parse;
    var t := [FRAME_MARKER] + HeaderToBytes(h) + s;
    HeaderRoundTrip(h, []);
    assert t[1..HEADER_SIZE] == HeaderToBytes(h) + [];
    ParseAtHeader(max, t, h);
    assert t[HEADER_SIZE..] == s;
  }

  lemma ParseAtHeader(max: nat, t: seq<byte>, h: FrameHeader)
    requires BufferSize(max)
    requires |t| >= HEADER_SIZE && t[0] == FRAME_MARKER
    requires HeaderFromBytes(t[1..HEADER_SIZE]) == Ok(h)
    ensures var s, end := t[HEADER_SIZE..], h.payloadLength + 2;
            Parse(max, t) ==
            if h.payloadLength > max - 2 || |s| < end then []
            else [Judge(h, s[..end])] + Parse(max, s[end..])
  {
    hide HeaderFromBytes, Judge;
    var s, end := t[HEADER_SIZE..], h.payloadLength + 2;
    if h.payloadLength <= max - 2 && |s| >= end {
      assert t[HEADER_SIZE..HEADER_SIZE + end] == s[..end];
      assert t[HEADER_SIZE + end..] == s[end..];
    }
  }

  lemma {:induction false} ParseTooShort(max: nat, s: seq<byte>)
    requires BufferSize(max) && |s| < HEADER_SIZE
    ensures Parse(max, s) == []
  {
    if s != [] && s[0] != FRAME_MARKER {
      ParseTooShort(max, s[1..]);
    }
  }

  /** A state never holds back a complete frame. */
  lemma PendingIsIncomplete(max: nat, st: RxState)
    requires BufferSize(max) && ValidRx(max, st)
    ensures Parse(max, Pending(st)) == []
  {
    match st
    case Header(got) => ParseTooShort(max, got);
    case Payload(got, h) => ParseHeader(max, h, got);
    case Discard(_, h) =>
      ParseHeader(max, h, []);
      assert Pending(st) == [FRAME_MARKER] + HeaderToBytes(h) + [];
  }

  // ---------------------------------------------------------------- one call refines the parser

  lemma WindowInvariant(max: nat, window: seq<byte>)
    requires BufferSize(max) && |window| == HEADER_SIZE
    ensures ValidRx(max, AfterWindow(max, window))
  {
    hide HeaderFromBytes, MarkerIndex;
    var at := MarkerIndex(window);
    if at < HEADER_SIZE {
      var after := window[at + 1..];
      HeaderErrors(after);
      if HeaderFromBytes(after).Ok? {
        HeaderParsed(after);
      }
    }
  }

  lemma WindowRefines(max: nat, window: seq<byte>, future: seq<byte>)
    requires BufferSize(max) && |window| == HEADER_SIZE
    ensures Parse(max, window + future) == Parse(max, Pending(AfterWindow(max, window)) + future)
  {
    hide HeaderFromBytes, HeaderToBytes, Judge, MarkerIndex;
    var at := MarkerIndex(window);
    var junk, rest := window[..at], window[at..];
    assert window + future == junk + (rest + future);
    ParseSkipsJunk(max, junk, rest + future);
    if at == HEADER_SIZE {
      assert rest + future == future;
    } else if at > 0 {
      HeaderErrors(window[at + 1..]);
    } else {
      assert rest == window;
      HeaderErrors(window[1..]);
      AlignedWindowRefines(max, window, future);
    }
  }

  lemma AlignedWindowRefines(max: nat, window: seq<byte>, future: seq<byte>)
    requires BufferSize(max) && |window| == HEADER_SIZE
    requires window[0] == FRAME_MARKER
    ensures Parse(max, window + future) == Parse(max, Pending(AfterWindow(max, window)) + future)
  {
    hide HeaderFromBytes, HeaderToBytes, Judge;
    var s := window + future;
    HeaderErrors(window[1..]);
    assert s[1..HEADER_SIZE] == window[1..];
    if HeaderFromBytes(window[1..]).Ok? {
      var h := HeaderFromBytes(window[1..]).value;
      HeaderParsed(window[1..]);
      assert window[1..][..5] == window[1..];
      assert window == [FRAME_MARKER] + HeaderToBytes(h);
      assert window + [] == window;
    } else {
      assert s[HEADER_SIZE..] == future;
      assert [] + future == future;
    }
  }

  lemma AdvanceInvariant(max: nat, st: RxState, chunk: seq<byte>)
    requires BufferSize(max) && ValidRx(max, st) && |chunk| <= Demand(max, st)
    ensures ValidRx(max, Advance(max, st, chunk).0)
  {
    hide AfterWindow;
    match st
    case Header(got) =>
      if |got + chunk| == HEADER_SIZE {
        WindowInvariant(max, got + chunk);
      }
    case _ =>
  }

  lemma HeaderRefines(max: nat, got: seq<byte>, chunk: seq<byte>, future: seq<byte>)
    requires BufferSize(max) && 0 < |chunk| <= HEADER_SIZE - |got|
    ensures var (st', r) := Advance(max, Header(got), chunk);
            r == Nothing && Parse(max, got + chunk + future) == Parse(max, Pending(st') + future)
  {
    hide AfterWindow, Parse;
    if |got + chunk| == HEADER_SIZE {
      WindowRefines(max, got + chunk, future);
    }
  }

  lemma PayloadRefines(max: nat, got: seq<byte>, h: FrameHeader, chunk: seq<byte>, future: seq<byte>)
    requires BufferSize(max) && ValidRx(max, Payload(got, h))
    requires 0 < |chunk| <= h.payloadLength + 2 - |got|
    ensures var (st', r) := Advance(max, Payload(got, h), chunk);
            Parse(max, [FRAME_MARKER] + HeaderToBytes(h) + (got + chunk + future))
            == Events(r) + Parse(max, Pending(st') + future)
  {
    hide HeaderToBytes, ReadFramePayload, Parse;
    var body := got + chunk;
    if |body| == h.payloadLength + 2 {
      ParseHeader(max, h, body + future);
      assert (body + future)[..|body|] == body && (body + future)[|body|..] == future;
      assert [] + future == future;
    } else {
      Associate([FRAME_MARKER] + HeaderToBytes(h), body, future);
    }
  }

  lemma DiscardRefines(max: nat, h: FrameHeader, chunk: seq<byte>, future: seq<byte>)
    requires BufferSize(max) && Parseable(h.frameType)
    requires h.payloadLength > max - 2
    ensures Parse(max, [FRAME_MARKER] + HeaderToBytes(h) + (chunk + future)) == []
  {
    ParseHeader(max, h, chunk + future);
  }

  /** One call, on any chunk it may be given and whatever arrives later, reports exactly what the
      reference parser reads from the bytes it completes. */
  lemma AdvanceRefines(max: nat, st: RxState, chunk: seq<byte>, future: seq<byte>)
    requires BufferSize(max) && ValidRx(max, st) && |chunk| <= Demand(max, st)
    ensures var (st', r) := Advance(max, st, chunk);
            Parse(max, Pending(st) + chunk + future) == Events(r) + Parse(max, Pending(st') + future)
  {
    hide AfterWindow, HeaderToBytes, Judge, Parse;
    if chunk == [] {
      assert Pending(st) + chunk == Pending(st);
    } else {
      match st
      case Header(got) =>
        HeaderRefines(max, got, chunk, future);
      case Payload(got, h) =>
        PayloadRefines(max, got, h, chunk, future);
        assert Pending(st) + chunk + future == [FRAME_MARKER] + HeaderToBytes(h) + (got + chunk + future);
      case Discard(_, h) =>
        DiscardRefines(max, h, chunk, future);
        DiscardRefines(max, h, [], future);
        assert [] + future == future;
        Associate(Pending(st), chunk, future);
    }
  }

  // ---------------------------------------------------------------- whole runs

  /** A run of calls on one stream: call `i` is given `grants[i]` bytes, or as many as it asked
      for, or as many as are left.  Results: the state, everything reported, the unread rest. */
  function Deliver(max: nat, st: RxState, stream: seq<byte>, grants: seq<nat>): (RxState, seq<Received>, seq<byte>)
    requires BufferSize(max) && ValidRx(max, st)
    decreases |grants|
  {
    if grants == [] then (st, [], stream)
    else
      var n := Min(grants[0], Min(Demand(max, st), |stream|));
      var (st1, r) := Advance(max, st, stream[..n]);
      AdvanceInvariant(max, st, stream[..n]);
      var (st2, more, rest) := Deliver(max, st1, stream[n..], grants[1..]);
      (st2, Events(r) + more, rest)
  }

  lemma {:induction false} DeliverRefines(max: nat, st: RxState, stream: seq<byte>, grants: seq<nat>, future: seq<byte>)
    requires BufferSize(max) && ValidRx(max, st)
    ensures var (st', out, rest) := Deliver(max, st, stream, grants);
            && ValidRx(max, st')
            && |rest| <= |stream| && stream[|stream| - |rest|..] == rest
            && Parse(max, Pending(st) + stream[..|stream| - |rest|] + future) == out + Parse(max, Pending(st') + future)
    decreases |grants|
  {
    hide Advance, Parse, Pending, Events, ValidRx;
    if grants == [] {
      assert Pending(st) + stream[..0] == Pending(st);
    } else {
      var n := Min(grants[0], Min(Demand(max, st), |stream|));
      var chunk, later := stream[..n], stream[n..];
      var (st1, r) := Advance(max, st, chunk);
      AdvanceInvariant(max, st, chunk);
      DeliverRefines(max, st1, later, grants[1..], future);
      var (st2, more, rest) := Deliver(max, st1, later, grants[1..]);
      var used := later[..|later| - |rest|];
      AdvanceRefines(max, st, chunk, used + future);
      assert stream[..|stream| - |rest|] == chunk + used;
      assert Pending(st) + (chunk + used) + future == Pending(st) + chunk + (used + future);
      Associate(Pending(st1), used, future);
      Associate(Events(r), more, Parse(max, Pending(st2) + future));
    }
  }

  /** A new receiver, on every stream and under every way of handing the stream out, has reported
      at every moment exactly the events of the bytes read so far. */
  lemma ChunkingIsInvisible(max: nat, stream: seq<byte>, grants: seq<nat>)
    requires BufferSize(max)
    ensures var (_, out, rest) := Deliver(max, Header([]), stream, grants);
            |rest| <= |stream| && out == Parse(max, stream[..|stream| - |rest|])
  {
    hide Deliver, Parse, ValidRx;
    assert ValidRx(max, Header([])) by { FreshIsValid(max); }
    var (st, out, rest) := Deliver(max, Header([]), stream, grants);
    DeliverRefines(max, Header([]), stream, grants, []);
    PendingIsIncomplete(max, st);
    var used := stream[..|stream| - |rest|];
    assert [] + used + [] == used;
    assert Pending(st) + [] == Pending(st);
    assert out + [] == out;
  }

  lemma FreshIsValid(max: nat)
    requires BufferSize(max)
    ensures ValidRx(max, Header([]))
  {
  }

  /** The number of calls that are given a byte when there is one. */
  function PositiveGrants(grants: seq<nat>): nat {
    if grants == [] then 0 else (if grants[0] > 0 then 1 else 0) + PositiveGrants(grants[1..])
  }

  /** As many calls that may read a byte as there are bytes read the stream to its end, whatever
      number of empty reads lies between them. */
  lemma {:induction false} EnoughCallsReadAll(max: nat, st: RxState, stream: seq<byte>, grants: seq<nat>)
    requires BufferSize(max) && ValidRx(max, st)
    requires PositiveGrants(grants) >= |stream|
    ensures Deliver(max, st, stream, grants).2 == []
    decreases |grants|
  {
    hide Advance, ValidRx;
    if grants != [] {
      var n := Min(grants[0], Min(Demand(max, st), |stream|));
      AdvanceInvariant(max, st, stream[..n]);
      EnoughCallsReadAll(max, Advance(max, st, stream[..n]).0, stream[n..], grants[1..]);
    }
  }

  // ---------------------------------------------------------------- streams of frames

  /** Noise, then a header, then the bytes that arrive as the frame's body. */
  datatype Arrival = Arrival(gap: seq<byte>, header: FrameHeader, body: seq<byte>)

  predicate Fits(max: nat, a: Arrival) {
    && Noise(a.gap)
    && Parseable(a.header.frameType)
    && |a.body| == a.header.payloadLength + 2 <= max
  }

  function Wire(arrivals: seq<Arrival>, noise: seq<byte>): seq<byte> {
    if arrivals == [] then noise
    else
      var a := arrivals[0];
      a.gap + ([FRAME_MARKER] + HeaderToBytes(a.header) + (a.body + Wire(arrivals[1..], noise)))
  }

  function Judgements(arrivals: seq<Arrival>): seq<Received> {
    if arrivals == [] then [] else [Judge(arrivals[0].header, arrivals[0].body)] + Judgements(arrivals[1..])
  }

  /** Resynchronisation loses nothing and invents nothing: whatever the bodies hold, frames that
      fit, separated by noise, are judged one by one, in order. */
  lemma {:induction false} ParseWire(max: nat, arrivals: seq<Arrival>, noise: seq<byte>)
    requires BufferSize(max)
    requires forall a | a in arrivals :: Fits(max, a)
    requires Noise(noise)
    ensures Parse(max, Wire(arrivals, noise)) == Judgements(arrivals)
  {
    hide Parse, HeaderToBytes, Judge;
    if arrivals == [] {
      ParseSkipsNoise(max, noise, []);
      assert noise + [] == noise;
      assert Parse(max, []) == [] by { ParseTooShort(max, []); }
    } else {
      var a := arrivals[0];
      assert a in arrivals;
      var later := Wire(arrivals[1..], noise);
      ParseSkipsNoise(max, a.gap, [FRAME_MARKER] + HeaderToBytes(a.header) + (a.body + later));
      ParseHeader(max, a.header, a.body + later);
      assert (a.body + later)[..|a.body|] == a.body && (a.body + later)[|a.body|..] == later;
      ParseWire(max, arrivals[1..], noise);
    }
  }

  function Intact(gap: seq<byte>, f: RawFrame): Arrival
    requires WellFormed(f)
  {
    Arrival(gap, f.header, f.payload + U16ToBytes(CalculateCrc(f)))
  }

  /** An intact body is judged to be the frame that was sent. */
  lemma IntactIsAccepted(gap: seq<byte>, f: RawFrame)
    requires WellFormed(f)
    ensures Judge(f.header, Intact(gap, f).body) == Accepted(f)
  {
    hide CrcOf;
    ReadFramePayloadRoundTrip(f, []);
    assert Intact(gap, f).body + [] == Intact(gap, f).body;
  }

  /** Frames sent with gaps between them, as they appear on the line. */
  function Sent(gaps: seq<seq<byte>>, frames: seq<RawFrame>): seq<byte>
    requires |gaps| == |frames| + 1
    requires forall f | f in frames :: WellFormed(f)
    decreases |frames|
  {
    if frames == [] then gaps[0]
    else
      assert frames[0] in frames && WellFormed(frames[0]);
      gaps[0] + Encode(frames[0]) + Sent(gaps[1..], frames[1..])
  }

  function AllAccepted(frames: seq<RawFrame>): seq<Received> {
    if frames == [] then [] else [Accepted(frames[0])] + AllAccepted(frames[1..])
  }

  lemma {:induction false} ParseSent(max: nat, gaps: seq<seq<byte>>, frames: seq<RawFrame>)
    requires BufferSize(max)
    requires |gaps| == |frames| + 1
    requires forall g | g in gaps :: Noise(g)
    requires forall f | f in frames :: WellFormed(f) && f.header.payloadLength <= max - 2
    ensures Parse(max, Sent(gaps, frames)) == AllAccepted(frames)
    decreases |frames|
  {
    hide Parse, HeaderToBytes, Judge, CrcOf, U16ToBytes;
    if frames == [] {
      ParseSkipsNoise(max, gaps[0], []);
      assert gaps[0] + [] == gaps[0];
      assert Parse(max, []) == [] by { ParseTooShort(max, []); }
    } else {
      var f, later := frames[0], Sent(gaps[1..], frames[1..]);
      var a := Intact(gaps[0], f);
      assert f.payload[..|f.payload|] == f.payload;
      Associate([FRAME_MARKER] + HeaderToBytes(f.header), f.payload, U16ToBytes(CalculateCrc(f)));
      Associate([FRAME_MARKER] + HeaderToBytes(f.header), a.body, later);
      Associate(gaps[0], Encode(f), later);
      ParseSkipsNoise(max, gaps[0], Encode(f) + later);
      ParseHeader(max, f.header, a.body + later);
      assert (a.body + later)[..|a.body|] == a.body && (a.body + later)[|a.body|..] == later;
      IntactIsAccepted(gaps[0], f);
      ParseSent(max, gaps[1..], frames[1..]);
    }
  }

  /** Every list of well-formed frames that fit, with noise between them, is received as exactly that
      list once the line has been read, whatever the chunks and empty reads on the way. */
  lemma EveryFrameIsReceived(max: nat, gaps: seq<seq<byte>>, frames: seq<RawFrame>, grants: seq<nat>)
    requires BufferSize(max)
    requires |gaps| == |frames| + 1
    requires forall g | g in gaps :: Noise(g)
    requires forall f | f in frames :: WellFormed(f) && f.header.payloadLength <= max - 2
    requires Deliver(max, Header([]), Sent(gaps, frames), grants).2 == []
    ensures Deliver(max, Header([]), Sent(gaps, frames), grants).1 == AllAccepted(frames)
  {
    hide Parse, Deliver, Sent, AllAccepted;
    var line := Sent(gaps, frames);
    ParseSent(max, gaps, frames);
    ChunkingIsInvisible(max, line, grants);
    assert line[..|line| - 0] == line;
  }

  /** A header that announces more than the buffer holds silences the receiver for good: nothing
      that follows it is ever reported. */
  lemma OversizeHeaderSilences(max: nat, gap: seq<byte>, h: FrameHeader, s: seq<byte>, grants: seq<nat>)
    requires BufferSize(max)
    requires Noise(gap)
    requires Parseable(h.frameType) && h.payloadLength > max - 2
    ensures Deliver(max, Header([]), gap + ([FRAME_MARKER] + HeaderToBytes(h) + s), grants).1 == []
  {
    hide Parse, Deliver, HeaderToBytes;
    var line := gap + ([FRAME_MARKER] + HeaderToBytes(h) + s);
    ChunkingIsInvisible(max, line, grants);
    var (_, out, rest) := Deliver(max, Header([]), line, grants);
    var k := |line| - |rest|;
    if k <= |gap| {
      assert line[..k] == gap[..k];
      ParseWithinNoise(max, gap, k);
    } else {
      var body := [FRAME_MARKER] + HeaderToBytes(h) + s;
      assert line[..k] == gap + body[..k - |gap|];
      ParseSkipsNoise(max, gap, body[..k - |gap|]);
      if k - |gap| < HEADER_SIZE {
        ParseTooShort(max, body[..k - |gap|]);
      } else {
        assert body[..k - |gap|] == [FRAME_MARKER] + HeaderToBytes(h) + s[..k - |gap| - HEADER_SIZE];
        ParseHeader(max, h, s[..k - |gap| - HEADER_SIZE]);
      }
    }
  }

  /** The discarding state is never left, and nothing is reported from it. */
  lemma {:induction false} DiscardIsForever(max: nat, st: RxState, stream: seq<byte>, grants: seq<nat>)
    requires BufferSize(max) && ValidRx(max, st) && st.Discard?
    ensures Deliver(max, st, stream, grants).0.Discard?
    ensures Deliver(max, st, stream, grants).1 == []
    decreases |grants|
  {
    if grants != [] {
      var n := Min(grants[0], Min(Demand(max, st), |stream|));
      AdvanceInvariant(max, st, stream[..n]);
      var (next, r) := Advance(max, st, stream[..n]);
      assert next.Discard? && r == Nothing;
      DiscardIsForever(max, next, stream[n..], grants[1..]);
    }
  }

  // ---------------------------------------------------------------- reads as long as they may be

  lemma WholeHeaderStartsBody(max: nat, window: seq<byte>, later: seq<byte>, f: RawFrame)
    requires BufferSize(max) && WellFormed(f) && f.header.payloadLength <= max - 2
    requires |window| == HEADER_SIZE && window + later == Encode(f)
    ensures AfterWindow(max, window) == Payload([], f.header)
    ensures Pending(Payload([], f.header)) == window
  {
    hide HeaderToBytes, ReadHeader, CrcOf, U16ToBytes;
    assert (window + later)[..HEADER_SIZE] == window;
    assert Encode(f)[..HEADER_SIZE] == [FRAME_MARKER] + HeaderToBytes(f.header);
    ReadHeaderRoundTrip([], f.header, []);
    assert [] + ([FRAME_MARKER] + HeaderToBytes(f.header)) + [] == window;
  }

  /** When everything has arrived, a frame is taken in two reads, its header and the rest. */
  lemma TwoReadsTakeFrame(max: nat, f: RawFrame, rest: seq<byte>, a: nat, b: nat)
    requires BufferSize(max) && WellFormed(f) && f.header.payloadLength <= max - 2
    requires a >= HEADER_SIZE && b >= f.header.payloadLength + 2
    ensures Deliver(max, Header([]), Encode(f) + rest, [a, b]) == (Header([]), [Accepted(f)], rest)
  {
    hide HeaderToBytes, AfterWindow, Judge, CrcOf, U16ToBytes, Encode;
    var line, h, body := Encode(f) + rest, f.header, Intact([], f).body;
    assert f.payload[..h.payloadLength] == f.payload;
    EncodedParts(f);
    WholeHeaderStartsBody(max, line[..HEADER_SIZE], body, f);
    assert [] + line[..HEADER_SIZE] == line[..HEADER_SIZE];
    assert line[HEADER_SIZE..] == body + rest;
    assert (body + rest)[..|body|] == body && (body + rest)[|body|..] == rest && [] + body == body;
    IntactIsAccepted([], f);
    SecondRead(max, h, body, rest, b);
    FirstRead(max, line, h, a, b);
  }

  lemma EncodedParts(f: RawFrame)
    requires WellFormed(f)
    ensures Encode(f) == [FRAME_MARKER] + HeaderToBytes(f.header) + Intact([], f).body
    ensures |Intact([], f).body| == f.header.payloadLength + 2
  {
    hide HeaderToBytes, CrcOf, U16ToBytes;
    assert f.payload[..f.header.payloadLength] == f.payload;
    Associate([FRAME_MARKER] + HeaderToBytes(f.header), f.payload, U16ToBytes(CalculateCrc(f)));
  }

  lemma FirstRead(max: nat, line: seq<byte>, h: FrameHeader, a: nat, b: nat)
    requires BufferSize(max) && ValidRx(max, Payload([], h))
    requires |line| >= HEADER_SIZE && a >= HEADER_SIZE
    requires AfterWindow(max, line[..HEADER_SIZE]) == Payload([], h)
    ensures Deliver(max, Header([]), line, [a, b]) == Deliver(max, Payload([], h), line[HEADER_SIZE..], [b])
  {
    hide AfterWindow;
    assert [] + line[..HEADER_SIZE] == line[..HEADER_SIZE];
    assert [a, b][1..] == [b];
    var later := Deliver(max, Payload([], h), line[HEADER_SIZE..], [b]).1;
    assert [] + later == later;
  }

  lemma SecondRead(max: nat, h: FrameHeader, body: seq<byte>, rest: seq<byte>, b: nat)
    requires BufferSize(max) && ValidRx(max, Payload([], h))
    requires |body| == h.payloadLength + 2 <= b
    ensures Deliver(max, Payload([], h), body + rest, [b]) == (Header([]), Events(Judge(h, body)), rest)
  {
    hide Judge;
    assert (body + rest)[..|body|] == body && (body + rest)[|body|..] == rest && [] + body == body;
    assert [b][1..] == [];
    assert Events(Judge(h, body)) + [] == Events(Judge(h, body));
  }

  lemma DiscardRead(max: nat, h: FrameHeader, count: nat, stream: seq<byte>, a: nat, more: seq<nat>)
    requires BufferSize(max) && ValidRx(max, Discard(count, h))
    requires a >= max && |stream| >= max
    ensures var n := Min(h.payloadLength + 2 - count, max);
            && ValidRx(max, Discard(n, h))
            && Deliver(max, Discard(count, h), stream, [a] + more).2 == Deliver(max, Discard(n, h), stream[n..], more).2
  {
    hide Deliver;
    DeliverOne(max, Discard(count, h), stream, a, more);
  }

  lemma DeliverOne(max: nat, st: RxState, stream: seq<byte>, a: nat, more: seq<nat>)
    requires BufferSize(max) && ValidRx(max, st)
    ensures var n := Min(a, Min(Demand(max, st), |stream|));
            var (next, r) := Advance(max, st, stream[..n]);
            && ValidRx(max, next)
            && var (last, out, rest) := Deliver(max, next, stream[n..], more);
               Deliver(max, st, stream, [a] + more) == (last, Events(r) + out, rest)
  {
    hide Advance, Demand, ValidRx;
    var n := Min(a, Min(Demand(max, st), |stream|));
    AdvanceInvariant(max, st, stream[..n]);
    assert ([a] + more)[1..] == more;
  }

  /** Two reads of a frame that is too long swallow all of it, or twice the buffer. */
  lemma TwoReadsDiscard(max: nat, h: FrameHeader, stream: seq<byte>, a: nat, b: nat)
    requires BufferSize(max) && Parseable(h.frameType) && h.payloadLength > max - 2
    requires a >= max && b >= max && |stream| >= 2 * max
    ensures Deliver(max, Discard(0, h), stream, [a, b]).2 == stream[Min(h.payloadLength + 2, 2 * max)..]
  {
    hide Deliver;
    DiscardRead(max, h, 0, stream, a, [b]);
    DiscardRead(max, h, max, stream[max..], b, []);
    assert [a, b] == [a] + [b] && [b] == [b] + [];
    var n := Min(h.payloadLength + 2 - max, max);
    NoMoreReads(max, Discard(n, h), stream[max..][n..]);
    assert stream[max..][n..] == stream[max + n..];
  }

  lemma NoMoreReads(max: nat, st: RxState, stream: seq<byte>)
    requires BufferSize(max) && ValidRx(max, st)
    ensures Deliver(max, st, stream, []) == (st, [], stream)
  {
  }

  // ---------------------------------------------------------------- the receiver object

  lemma Spliced(now: seq<byte>, was: seq<byte>, queue: seq<byte>, offset: nat, n: nat)
    requires offset + n <= |now| == |was| && n <= |queue|
    requires forall i | 0 <= i < n :: now[offset + i] == queue[i]
    requires forall i | 0 <= i < offset || offset + n <= i < |now| :: now[i] == was[i]
    ensures now == was[..offset] + queue[..n] + was[offset + n..]
  {
    assert now[offset..offset + n] == queue[..n];
    assert now == now[..offset] + now[offset..offset + n] + now[offset + n..];
  }

  /** A byte source: it hands out what has arrived, up to the length of the destination, or
      fails. */
  class Reader {
    var arrived: seq<byte>
    var fault: bool

    constructor (arrived: seq<byte>)
      ensures this.arrived == arrived && !fault
    {
      this.arrived := arrived;
      fault := false;
    }

    method Read(buffer: array<byte>, offset: nat, length: nat) returns (count: Option<nat>)
      requires offset + length <= buffer.Length
      modifies this`arrived, buffer
      ensures fault ==> count == None && arrived == old(arrived) && buffer[..] == old(buffer[..])
      ensures !fault ==>
                && count == Some(Min(length, |old(arrived)|))
                && arrived == old(arrived)[count.value..]
                && buffer[..] == old(buffer[..offset]) + old(arrived)[..count.value]
                                 + old(buffer[offset + count.value..])
    {
      if fault {
        return None;
      }
      ghost var queue, was := arrived, buffer[..];
      var n := 0;
      while n < length && n < |arrived|
        invariant n <= length && n <= |arrived| && arrived == queue
        invariant forall i | 0 <= i < n :: buffer[offset + i] == queue[i]
        invariant forall i | 0 <= i < offset || offset + n <= i < buffer.Length :: buffer[i] == was[i]
      {
        buffer[offset + n] := arrived[n];
        n := n + 1;
      }
      arrived := arrived[n..];
      Spliced(buffer[..], was, queue, offset, n);
      return Some(n);
    }
  }

  datatype State =
    | HeaderState(bytesRead: nat)
    | PayloadState(bytesRead: nat, header: FrameHeader)
    | DiscardState(bytesRead: nat, header: FrameHeader)

  datatype ReceiveResult = Done(received: Received) | IoError

  class Receiver {
    const max: nat
    var state: State
    const receiveBuffer: array<byte>

    /** What the state and the filled part of the buffer amount to. */
    ghost function Value(): RxState
      reads this, receiveBuffer
      requires Bounded()
    {
      match state
      case HeaderState(n) => Header(receiveBuffer[..n])
      case PayloadState(n, h) => Payload(receiveBuffer[..n], h)
      case DiscardState(n, h) => Discard(n, h)
    }

    ghost predicate Bounded()
      reads this
    {
      BufferSize(max) && receiveBuffer.Length == max && state.bytesRead <= max
    }

    ghost predicate Valid()
      reads this, receiveBuffer
    {
      Bounded() && ValidRx(max, Value())
    }

    constructor (max: nat)
      requires BufferSize(max)
      ensures Valid() && fresh(receiveBuffer)
      ensures this.max == max && Value() == Header([])
    {
      this.max := max;
      state := HeaderState(0);
      receiveBuffer := new byte[max](_ => 0);
    }

    /** One call is one step of the value-level receiver on the bytes the reader hands over. */
    method Receive(reader: Reader) returns (result: ReceiveResult)
      requires Valid()
      modifies this`state, receiveBuffer, reader`arrived
      ensures Valid()
      ensures reader.fault ==> result == IoError && Value() == old(Value()) && reader.arrived == old(reader.arrived)
      ensures !reader.fault ==>
                var before, queue := old(Value()), old(reader.arrived);
                var n := Min(Demand(max, before), |queue|);
                && result.Done?
                && (Value(), result.received) == Advance(max, before, queue[..n])
                && reader.arrived == queue[n..]
    {
      hide AfterWindow, ReadFramePayload;
      var offset, bytesToRead := 0, 0;
      match state {
        case HeaderState(bytesRead) =>
          offset, bytesToRead := bytesRead, HEADER_SIZE - bytesRead;
        case PayloadState(bytesRead, header) =>
          offset, bytesToRead := bytesRead, header.payloadLength + 2 - bytesRead;
        case DiscardState(bytesRead, header) =>
          offset, bytesToRead := 0, Min(header.payloadLength + 2 - bytesRead, max);
      }
      ghost var before, chunk := Value(), reader.arrived[..Min(bytesToRead, |reader.arrived|)];
      assert bytesToRead == Demand(max, before);
      AdvanceInvariant(max, before, chunk);
      var count := reader.Read(receiveBuffer, offset, bytesToRead);
      match count
      case None =>
        return IoError;
      case Some(bytesRead) =>
        if bytesToRead > 0 && bytesRead == 0 {
          assert receiveBuffer[..] == old(receiveBuffer[..]);
          assert receiveBuffer[..state.bytesRead] == old(receiveBuffer[..])[..state.bytesRead];
          return Done(Nothing);
        }
        var total := offset + bytesRead;
        assert receiveBuffer[..total] == old(receiveBuffer[..offset]) + chunk;
        match state {
          case HeaderState(_) =>
            result := Done(Nothing);
            if total == HEADER_SIZE {
              FinishHeader(total);
            } else {
              state := HeaderState(total);
            }
          case PayloadState(_, header) =>
            if total == header.payloadLength + 2 {
              match ReadFramePayload(header, receiveBuffer[..total]) {
                case Ok((frame, _)) => result := Done(Accepted(frame));
                case Err(error) => result := Done(Rejected(error));
              }
              state := HeaderState(0);
            } else {
              state := PayloadState(total, header);
              result := Done(Nothing);
            }
          case DiscardState(_, header) =>
            result := Done(Nothing);
            if total == header.payloadLength + 2 {
              // A single read cannot deliver a body that is longer than the buffer, and every
              // read of this state starts counting afresh.
              assert false;
            } else {
              state := DiscardState(total, header);
            }
        }
    }

    /** The full header window: start a body, keep a partial header, or start over. */
    method FinishHeader(total: nat)
      requires Bounded() && total == HEADER_SIZE
      modifies this`state, receiveBuffer
      ensures Bounded()
      ensures Value() == old(AfterWindow(max, receiveBuffer[..total]))
    {
      match ReadHeader(receiveBuffer[..total])
      case Found(header, _) =>
        state := if header.payloadLength > max - 2 then DiscardState(0, header) else PayloadState(0, header);
      case Missed(NoFrameMarker, _) =>
        state := HeaderState(0);
      case Missed(InsufficientLength, markerOffset) =>
        var remaining := total - markerOffset;
        ghost var window := receiveBuffer[..total];
        forall i | 0 <= i < remaining {
          receiveBuffer[i] := receiveBuffer[markerOffset + i];
        }
        assert receiveBuffer[..remaining] == window[markerOffset..];
        state := HeaderState(remaining);
      case Missed(_, _) =>
        state := HeaderState(0);
    }
  }
}
