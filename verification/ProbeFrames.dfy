/** The probe's stream framing: a body between a start and an end marker. */
module ProbeFrames {
  import opened Bytes

  const START_OF_FRAME: byte := 0x80
  const END_OF_FRAME: byte := 0x81

  /** The position of the first `b` from `start` on, or the length when there is none. */
  function Position(b: byte, s: seq<byte>, start: nat): (i: nat)
    requires start <= |s|
    ensures start <= i <= |s|
    ensures i < |s| ==> s[i] == b
    ensures forall k | start <= k < i :: s[k] != b
    decreases |s| - start
  {
    if start == |s| || s[start] == b then start else Position(b, s, start + 1)
  }

  lemma {:induction false} PositionIs(b: byte, s: seq<byte>, start: nat, i: nat)
    requires start <= i <= |s|
    requires i < |s| ==> s[i] == b
    requires forall k | start <= k < i :: s[k] != b
    ensures Position(b, s, start) == i
    decreases |s| - start
  {
    if start < i {
      PositionIs(b, s, start + 1, i);
    }
  }

  /** One decoding attempt: a body and the bytes behind its frame, or nothing and all bytes. */
  function DecodeOne(src: seq<byte>): (r: (Option<seq<byte>>, seq<byte>))
    ensures r.0.Some? ==> |r.1| < |src|
    ensures r.0.None? ==> r.1 == src
  {
    var sof := Position(START_OF_FRAME, src, 0);
    if sof == |src| then (None, src)
    else
      var eof := Position(END_OF_FRAME, src, sof);
      if eof == |src| then (None, src) else (Some(src[sof + 1..eof]), src[eof + 1..])
  }

  /** The receive buffer of the framed reader. */
  class BytesMut {
    var data: seq<byte>

    constructor (data: seq<byte>)
      ensures this.data == data
    {
      this.data := data;
    }

    /** Removes and returns the first `n` bytes. */
    method SplitTo(n: nat) returns (head: seq<byte>)
      requires n <= |data|
      modifies this
      ensures head == old(data)[..n] && data == old(data)[n..]
    {
      head := data[..n];
      data := data[n..];
    }

    method Decode() returns (body: Option<seq<byte>>)
      modifies this
      ensures (body, data) == DecodeOne(old(data))
    {
      var sof := Position(START_OF_FRAME, data, 0);
      if sof < |data| {
        var eof := Position(END_OF_FRAME, data, sof);
        if eof < |data| {
          var frame := SplitTo(eof + 1);
          frame := frame[sof..];
          assert frame == old(data)[sof..eof + 1];
          assert frame[0] == START_OF_FRAME;
          assert frame[|frame| - 1] == END_OF_FRAME;
          assert frame[1..|frame| - 1] == old(data)[sof + 1..eof];
          return Some(frame[1..|frame| - 1]);
        }
      }
      return None;
    }
  }

  /** Decoding until nothing more comes. */
  function Drain(src: seq<byte>): (seq<seq<byte>>, seq<byte>)
    decreases |src|
  {
    match DecodeOne(src)
    case (None, rest) => ([], rest)
    case (Some(body), rest) =>
      var (bodies, left) := Drain(rest);
      ([body] + bodies, left)
  }

  /** A frame once complete is not affected by what follows it. */
  lemma DecodeIsStable(s: seq<byte>, t: seq<byte>)
    requires DecodeOne(s).0.Some?
    ensures DecodeOne(s + t) == (DecodeOne(s).0, DecodeOne(s).1 + t)
  {
    hide Position;
    var sof := Position(START_OF_FRAME, s, 0);
    var eof := Position(END_OF_FRAME, s, sof);
    PositionIs(START_OF_FRAME, s + t, 0, sof);
    PositionIs(END_OF_FRAME, s + t, sof, eof);
    assert (s + t)[sof + 1..eof] == s[sof + 1..eof];
    assert (s + t)[eof + 1..] == s[eof + 1..] + t;
  }

  /** Draining a prefix first, and then what it left together with the rest, is draining the
      whole. */
  lemma {:induction false} DrainIsIncremental(s: seq<byte>, t: seq<byte>)
    ensures var (bodies, left) := Drain(s);
            var (more, rest) := Drain(left + t);
            Drain(s + t) == (bodies + more, rest)
    decreases |s|
  {
    hide DecodeOne;
    var (body, next) := DecodeOne(s);
    if body.Some? {
      DecodeIsStable(s, t);
      DrainIsIncremental(next, t);
      var (bodies, left) := Drain(next);
      Associate([body.value], bodies, Drain(left + t).0);
    } else {
      assert [] + Drain(s + t).0 == Drain(s + t).0;
    }
  }

  /** Pieces arrive one after another; the buffer is drained after each. */
  function Feed(buffer: seq<byte>, pieces: seq<seq<byte>>): (seq<seq<byte>>, seq<byte>)
    decreases |pieces|
  {
    if pieces == [] then ([], buffer)
    else
      var (bodies, left) := Drain(buffer + pieces[0]);
      var (more, rest) := Feed(left, pieces[1..]);
      (bodies + more, rest)
  }

  function Concat(pieces: seq<seq<byte>>): seq<byte> {
    if pieces == [] then [] else pieces[0] + Concat(pieces[1..])
  }

  lemma {:induction false} DrainAgain(s: seq<byte>)
    ensures Drain(Drain(s).1) == ([], Drain(s).1)
    decreases |s|
  {
    hide DecodeOne;
    if DecodeOne(s).0.Some? {
      DrainAgain(DecodeOne(s).1);
    }
  }

  /** The pieces in which a stream arrives do not matter. */
  lemma {:induction false} PiecesDoNotMatter(buffer: seq<byte>, pieces: seq<seq<byte>>)
    requires Drain(buffer) == ([], buffer)
    ensures Feed(buffer, pieces) == Drain(buffer + Concat(pieces))
    decreases |pieces|
  {
    hide Drain;
    if pieces == [] {
      assert buffer + [] == buffer;
    } else {
      var s, t := buffer + pieces[0], Concat(pieces[1..]);
      DrainAgain(s);
      PiecesDoNotMatter(Drain(s).1, pieces[1..]);
      DrainIsIncremental(s, t);
      Associate(buffer, pieces[0], t);
    }
  }

  /** Noise, a start marker, a body, an end marker; and so on. */
  function Stream(noise: seq<seq<byte>>, bodies: seq<seq<byte>>): seq<byte>
    requires |noise| == |bodies| + 1
    decreases |bodies|
  {
    if bodies == [] then noise[0]
    else noise[0] + ([START_OF_FRAME] + (bodies[0] + ([END_OF_FRAME] + Stream(noise[1..], bodies[1..]))))
  }

  lemma DecodeFrame(noise: seq<byte>, body: seq<byte>, rest: seq<byte>)
    requires START_OF_FRAME !in noise && END_OF_FRAME !in body
    ensures DecodeOne(noise + ([START_OF_FRAME] + (body + ([END_OF_FRAME] + rest)))) == (Some(body), rest)
  {
    hide Position;
    var s := noise + ([START_OF_FRAME] + (body + ([END_OF_FRAME] + rest)));
    var sof, eof := |noise|, |noise| + 1 + |body|;
    assert forall k | 0 <= k < sof :: s[k] == noise[k];
    PositionIs(START_OF_FRAME, s, 0, sof);
    assert forall k | sof < k < eof :: s[k] == body[k - sof - 1];
    PositionIs(END_OF_FRAME, s, sof, eof);
    assert s[sof + 1..eof] == body;
    assert s[eof + 1..] == rest;
  }

  /** Bodies free of the end marker, between noise free of the start marker, come out exactly,
      and only the trailing noise stays behind. */
  lemma {:induction false} StreamIsDecoded(noise: seq<seq<byte>>, bodies: seq<seq<byte>>)
    requires |noise| == |bodies| + 1
    requires forall n | n in noise :: START_OF_FRAME !in n
    requires forall b | b in bodies :: END_OF_FRAME !in b
    ensures Drain(Stream(noise, bodies)) == (bodies, noise[|bodies|])
    decreases |bodies|
  {
    hide DecodeOne;
    if bodies == [] {
      assert noise[0] in noise;
      NothingToDecode(noise[0]);
    } else {
      assert noise[0] in noise && bodies[0] in bodies;
      DecodeFrame(noise[0], bodies[0], Stream(noise[1..], bodies[1..]));
      StreamIsDecoded(noise[1..], bodies[1..]);
      assert [bodies[0]] + bodies[1..] == bodies;
    }
  }

  lemma NothingToDecode(s: seq<byte>)
    requires START_OF_FRAME !in s
    ensures DecodeOne(s) == (None, s)
  {
    PositionIs(START_OF_FRAME, s, 0, |s|);
  }

  /** The frame that the format's description works out. */
  lemma DescribedFrame()
    ensures DecodeOne([0x80, 0x7F, 0x03, 0x81]) == (Some([0x7F, 0x03]), [])
  {
    hide DecodeOne;
    var frame: seq<byte> := [] + ([0x80] + ([0x7F, 0x03] + ([0x81] + [])));
    assert frame == [0x80, 0x7F, 0x03, 0x81];
    DecodeFrame([], [0x7F, 0x03], []);
  }

  /** However such a stream is cut up on its way, the framed reader yields exactly its bodies. */
  lemma FramedReaderYieldsBodies(noise: seq<seq<byte>>, bodies: seq<seq<byte>>, pieces: seq<seq<byte>>)
    requires |noise| == |bodies| + 1
    requires forall n | n in noise :: START_OF_FRAME !in n
    requires forall b | b in bodies :: END_OF_FRAME !in b
    requires Concat(pieces) == Stream(noise, bodies)
    ensures Feed([], pieces) == (bodies, noise[|bodies|])
  {
    hide Drain, Feed;
    StreamIsDecoded(noise, bodies);
    assert Drain([]) == ([], []) by { DrainNothing(); }
    PiecesDoNotMatter([], pieces);
    assert [] + Concat(pieces) == Concat(pieces);
  }

  lemma DrainNothing()
    ensures Drain([]) == ([], [])
  {
    assert DecodeOne([]) == (None, []);
  }
}
