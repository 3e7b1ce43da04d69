/** What the check value of a frame detects. */
module Corruption {
  import opened Bytes
  import opened Crc
  import opened Frames
  import opened Receiving

  predicate Refused(h: FrameHeader, body: seq<byte>) {
    ReadFramePayload(h, body).Err? && ReadFramePayload(h, body).error.CrcMismatch?
  }

  /** Payload and check field of a frame together add a fixed parity to the header's. */
  lemma BodyParity(h: FrameHeader, payload: seq<byte>)
    ensures Parity(Bits(payload + U16ToBytes(CrcOf(Covered(h, payload)))))
         == Parity(Bits([FRAME_MARKER] + HeaderToBytes(h)))
  {
    hide CrcOf, HeaderToBytes, U16ToBytes, Bits, Parity;
    var head := [FRAME_MARKER] + HeaderToBytes(h);
    var field := U16ToBytes(CrcOf(Covered(h, payload)));
    CrcParity(Covered(h, payload));
    Associate(head, payload, field);
    BitsConcat(head, payload + field);
    ParityConcat(Bits(head), Bits(payload + field));
  }

  /** With the header intact, any odd number of flipped bits over the payload and the check
      field, of any length, is refused with a check error. */
  lemma OddFlipsAreRefused(f: RawFrame, body: seq<byte>)
    requires |f.payload| == f.header.payloadLength
    requires |body| == |f.payload| + 2
    requires Flips(Bits(f.payload + U16ToBytes(CalculateCrc(f))), Bits(body)) % 2 == 1
    ensures Refused(f.header, body)
  {
    hide CrcOf, HeaderToBytes, U16ToBytes, Bits, Parity, Flips, Covered;
    var n := |f.payload|;
    assert f.payload[..n] == f.payload;
    FlipsParity(Bits(f.payload + U16ToBytes(CalculateCrc(f))), Bits(body));
    BodyParity(f.header, f.payload);
    match ReadFramePayload(f.header, body)
    case Err(_) =>
    case Ok((g, m)) =>
      ReadFramePayloadSound(f.header, body, g, m);
      assert g.payload[..n] == g.payload && body[..m] == body;
      BodyParity(f.header, g.payload);
      assert false;
  }

  /** With the header and the check field intact, any change confined to a window of at most
      sixteen consecutive payload bits is refused with a check error. */
  lemma BurstIsRefused(f: RawFrame, payload: seq<byte>, x: seq<bool>, u: seq<bool>, v: seq<bool>, y: seq<bool>)
    requires |f.payload| == f.header.payloadLength == |payload|
    requires |u| == |v| <= 16 && u != v
    requires Bits(f.payload) == x + u + y && Bits(payload) == x + v + y
    ensures Refused(f.header, payload + U16ToBytes(CalculateCrc(f)))
  {
    hide CrcOf, HeaderToBytes, U16ToBytes, Bits;
    var head := [FRAME_MARKER] + HeaderToBytes(f.header);
    var n, field := |payload|, U16ToBytes(CalculateCrc(f));
    assert f.payload[..n] == f.payload;
    BitsConcat(head, f.payload);
    BitsConcat(head, payload);
    assert Bits(Covered(f.header, f.payload)) == (Bits(head) + x) + u + y;
    assert Bits(Covered(f.header, payload)) == (Bits(head) + x) + v + y;
    CrcSeesBurst(Covered(f.header, f.payload), Covered(f.header, payload), Bits(head) + x, u, v, y);
    assert (payload + field)[..n] == payload && (payload + field)[n..n + 2] == field;
    U16RoundTrip(CalculateCrc(f), field);
  }

  // ---------------------------------------------------------------- damage on the line

  /** A change from `was` to `now` inside a window between two stretches of unchanged bits. */
  datatype Burst = Burst(before: seq<bool>, was: seq<bool>, now: seq<bool>, after: seq<bool>)

  /** The payload has a burst of at most sixteen bits, the check field is intact. */
  predicate BurstIn(f: RawFrame, body: seq<byte>, b: Burst)
    requires WellFormed(f) && |body| == |f.payload| + 2
  {
    && |b.was| == |b.now| <= 16 && b.was != b.now
    && Bits(f.payload) == b.before + b.was + b.after
    && Bits(body[..|f.payload|]) == b.before + b.now + b.after
    && body[|f.payload|..] == U16ToBytes(CalculateCrc(f))
  }

  /** What arrives in place of a frame: the frame, or its header and a body with an odd number of
      flipped bits or with a burst in its payload. */
  ghost predicate ArrivesAs(f: RawFrame, a: Arrival) {
    && WellFormed(f)
    && a.header == f.header
    && |a.body| == |f.payload| + 2
    && (|| a.body == Intact(a.gap, f).body
        || Flips(Bits(Intact(a.gap, f).body), Bits(a.body)) % 2 == 1
        || exists b :: BurstIn(f, a.body, b))
  }

  predicate JudgedRightly(f: RawFrame, a: Arrival, r: Received) {
    && WellFormed(f)
    && if a.body == Intact(a.gap, f).body then r == Accepted(f)
       else r.Rejected? && r.error.CrcMismatch? && r.error.header == f.header
  }

  lemma ArrivalIsJudgedRightly(f: RawFrame, a: Arrival)
    requires ArrivesAs(f, a)
    ensures JudgedRightly(f, a, Judge(a.header, a.body))
  {
    hide CrcOf, HeaderToBytes, U16ToBytes, Bits, Flips;
    if a.body == Intact(a.gap, f).body {
      IntactIsAccepted([], f);
    } else if Flips(Bits(Intact(a.gap, f).body), Bits(a.body)) % 2 == 1 {
      OddFlipsAreRefused(f, a.body);
    } else {
      var b: Burst :| BurstIn(f, a.body, b);
      var payload := a.body[..|f.payload|];
      BurstIsRefused(f, payload, b.before, b.was, b.now, b.after);
      assert a.body == payload + a.body[|f.payload|..];
    }
  }

  lemma {:induction false} JudgementsPointwise(arrivals: seq<Arrival>, i: nat)
    requires i < |arrivals|
    ensures |Judgements(arrivals)| == |arrivals|
    ensures Judgements(arrivals)[i] == Judge(arrivals[i].header, arrivals[i].body)
    decreases |arrivals|
  {
    hide Judge;
    if |arrivals| > 1 {
      JudgementsPointwise(arrivals[1..], if i == 0 then 0 else i - 1);
    }
  }

  lemma NothingJudged()
    ensures Judgements([]) == []
  {
  }

  /** Damage to bodies stays where it happens: on a line of frames separated by noise, each
      intact, or with an odd number of flipped body bits, or with a burst of at most 16
      bits in its payload, once the line has been read, in whatever chunks, every intact frame has
      been reported as sent and every damaged one as a check error, in order. */
  lemma DamageIsContained(max: nat, frames: seq<RawFrame>, arrivals: seq<Arrival>, noise: seq<byte>, grants: seq<nat>)
    requires BufferSize(max)
    requires Noise(noise)
    requires |frames| == |arrivals|
    requires forall i | 0 <= i < |frames| :: Fits(max, arrivals[i]) && ArrivesAs(frames[i], arrivals[i])
    requires Deliver(max, Header([]), Wire(arrivals, noise), grants).2 == []
    ensures var out := Deliver(max, Header([]), Wire(arrivals, noise), grants).1;
            && |out| == |frames|
            && forall i | 0 <= i < |frames| :: JudgedRightly(frames[i], arrivals[i], out[i])
  {
    hide Parse, Deliver, Judge, Judgements, Wire, Fits, ArrivesAs, JudgedRightly;
    var line := Wire(arrivals, noise);
    assert forall a | a in arrivals :: Fits(max, a);
    ParseWire(max, arrivals, noise);
    ChunkingIsInvisible(max, line, grants);
    assert line[..|line| - 0] == line;
    var out := Judgements(arrivals);
    if arrivals != [] {
      JudgementsPointwise(arrivals, 0);
    } else {
      NothingJudged();
    }
    forall i | 0 <= i < |frames|
      ensures JudgedRightly(frames[i], arrivals[i], out[i])
    {
      JudgementsPointwise(arrivals, i);
      ArrivalIsJudgedRightly(frames[i], arrivals[i]);
    }
  }
}
