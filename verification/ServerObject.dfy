/** The server object: one frame buffer in which a reply is assembled in place and from which
    it is sent piecemeal. */
module ServerObject {
  import opened Bytes
  import opened Crc
  import opened Frames
  import opened Receiving
  import opened Memory
  import opened Serving

  /** A byte sink: it takes as many bytes as it has room for, or fails. */
  class Writer {
    var accepted: seq<byte>
    var room: Option<nat>

    constructor (room: Option<nat>)
      ensures accepted == [] && this.room == room
    {
      accepted := [];
      this.room := room;
    }

    method Write(buffer: array<byte>, offset: nat, length: nat) returns (count: Option<nat>)
      requires offset + length <= buffer.Length
      modifies this`accepted
      ensures room.None? ==> count == None && accepted == old(accepted)
      ensures room.Some? ==>
                && count == Some(Min(room.value, length))
                && accepted == old(accepted) + buffer[offset..offset + count.value]
    {
      match room
      case None =>
        return None;
      case Some(n) =>
        var k := 0;
        while k < length && k < n
          invariant k <= Min(n, length)
          invariant accepted == old(accepted) + buffer[offset..offset + k]
        {
          accepted := accepted + [buffer[offset + k]];
          k := k + 1;
        }
        return Some(k);
    }
  }

  datatype PendingTransfer = PendingTransfer(offset: nat, remainingBytes: nat)

  class Server {
    const max: nat
    const handler: Handler
    var pendingTransfer: Option<PendingTransfer>
    const frameBuffer: array<byte>
    const receiver: Receiver
    var halted: bool

    ghost predicate Valid()
      reads this, receiver, receiver.receiveBuffer
    {
      && FrameSize(max) && frameBuffer.Length == max
      && receiver.max == max && receiver.Valid()
      && handler.image.Length == IMAGE_SIZE
      && frameBuffer != receiver.receiveBuffer && frameBuffer != handler.image
      && receiver.receiveBuffer != handler.image
      && (pendingTransfer.Some? ==>
            && !halted
            && pendingTransfer.value.remainingBytes > 0
            && pendingTransfer.value.offset + pendingTransfer.value.remainingBytes <= max)
    }

    ghost function PendingBytes(): seq<byte>
      reads this, frameBuffer, receiver, receiver.receiveBuffer
      requires Valid()
    {
      match pendingTransfer
      case None => []
      case Some(p) => frameBuffer[p.offset..p.offset + p.remainingBytes]
    }

    ghost function Value(): ServerState
      reads this, frameBuffer, receiver, receiver.receiveBuffer, handler.image
      requires Valid()
    {
      ServerState(receiver.Value(), PendingBytes(), handler.image[..], halted)
    }

    constructor (max: nat)
      requires FrameSize(max)
      ensures Valid() && this.max == max && Value() == Fresh(seq(IMAGE_SIZE, _ => 0))
      ensures fresh(frameBuffer) && fresh(receiver) && fresh(receiver.receiveBuffer) && fresh(handler.image)
    {
      this.max := max;
      handler := new Handler();
      pendingTransfer := None;
      frameBuffer := new byte[max](_ => 0);
      receiver := new Receiver(max);
      halted := false;
    }

    /** Sends what it can of the pending reply. */
    method Flush(writer: Writer)
      requires Valid()
      modifies this`pendingTransfer, writer`accepted
      ensures Valid()
      ensures var pending := old(PendingBytes());
              var n := match writer.room case Some(n) => Min(n, |pending|) case None => 0;
              && writer.accepted == old(writer.accepted) + pending[..n]
              && PendingBytes() == pending[n..]
    {
      match pendingTransfer
      case None =>
      case Some(p) =>
        var written := writer.Write(frameBuffer, p.offset, p.remainingBytes);
        match written
        case None =>
        case Some(n) =>
          var remaining := p.remainingBytes - n;
          SliceOfSlice(frameBuffer[..], p.offset, n, p.offset + p.remainingBytes);
          pendingTransfer := if remaining == 0 then None else Some(PendingTransfer(p.offset + n, remaining));
    }

    /** Writes bytes into the frame buffer. */
    method Put(at: nat, data: seq<byte>)
      requires at + |data| <= frameBuffer.Length
      modifies frameBuffer
      ensures frameBuffer[..at] == old(frameBuffer[..at])
      ensures frameBuffer[at..at + |data|] == data
      ensures frameBuffer[at + |data|..] == old(frameBuffer[at + |data|..])
    {
      forall i | 0 <= i < |data| {
        frameBuffer[at + i] := data[i];
      }
    }

    /** Completes the reply whose payload already lies in the frame buffer: header, check value
        and transfer. */
    method Finish(kind: FrameType, number: u16, length: nat)
      requires Valid() && !halted && !kind.ErrorResponse? && length <= max - HEADER_SIZE - 2
      modifies this`pendingTransfer, frameBuffer
      ensures Valid()
      ensures PendingBytes() == Encode(Reply(kind, number, old(frameBuffer[HEADER_SIZE..HEADER_SIZE + length])))
    {
      hide HeaderToBytes, CrcOf, U16ToBytes;
      ghost var payload := frameBuffer[HEADER_SIZE..HEADER_SIZE + length];
      var header := FrameHeader(Response(kind), number, length);
      var crc := CalculateCrc(RawFrame(header, frameBuffer[HEADER_SIZE..HEADER_SIZE + length]));
      var head := [FRAME_MARKER] + HeaderToBytes(header);
      Put(0, head);
      assert frameBuffer[HEADER_SIZE..HEADER_SIZE + length] == frameBuffer[HEADER_SIZE..][..length] == payload;
      ghost var covered := frameBuffer[..HEADER_SIZE + length];
      assert covered == head + payload;
      Put(HEADER_SIZE + length, U16ToBytes(crc));
      pendingTransfer := Some(PendingTransfer(0, HEADER_SIZE + length + 2));
      assert frameBuffer[..HEADER_SIZE + length + 2] == covered + U16ToBytes(crc);
      assert payload[..length] == payload;
    }

    method FinishError(number: u16, e: ServerError)
      requires Valid() && !halted
      modifies this`pendingTransfer, frameBuffer
      ensures Valid()
      ensures PendingBytes() == Encode(ErrorReplyFrame(number, e))
    {
      Put(HEADER_SIZE, U32ToBytes(ErrorCode(e)));
      assert frameBuffer[HEADER_SIZE..HEADER_SIZE + 4] == U32ToBytes(ErrorCode(e));
      Finish(Run, number, 4);
    }

    /** Handles one typed frame and leaves the answer, if any, as the pending transfer. */
    method Respond(frame: Frame)
      requires Valid() && Typed(frame) && pendingTransfer.None? && !halted
      modifies this`pendingTransfer, this`halted, frameBuffer, handler.image
      ensures Valid()
      ensures var (reaction, image) := Dispatch(max, old(handler.image[..]), frame);
              && handler.image[..] == image
              && halted == reaction.Halt?
              && PendingBytes() == (if reaction.Answer? then Encode(reaction.frame) else [])
    {
      hide Encode, ReadImage, WriteImage, ReadReaction;
      var number := frame.Header().frameNumber;
      match frame
      case QueryVersionRequest(_) =>
        var payload := U32ToBytes(VERSION) + U16ToBytes(max - HEADER_SIZE - 2);
        Put(HEADER_SIZE, payload);
        assert frameBuffer[HEADER_SIZE..HEADER_SIZE + 6] == payload;
        Finish(QueryVersion, number, 6);
      case ReadMemoryRequest(raw) =>
        RespondToRead(number, AddressOf(raw), LengthOf(raw));
      case WriteMemoryRequest(raw) =>
        var outcome := handler.OnWriteMemory(AddressOf(raw), DataOf(raw));
        match outcome {
          case Success(_) =>
            Finish(WriteMemory, number, 0);
          case Failure(e) =>
            FinishError(number, e);
          case Panic =>
            halted := true;
        }
      case RunRequest(_) =>
        Finish(Run, number, 0);
      case _ =>
        FinishError(number, InvalidRequest);
    }

    method RespondToRead(number: u16, address: u32, length: u16)
      requires Valid() && pendingTransfer.None? && !halted
      modifies this`pendingTransfer, this`halted, frameBuffer
      ensures Valid()
      ensures var reaction := ReadReaction(max, handler.image[..], number, address, length);
              && halted == reaction.Halt?
              && PendingBytes() == (if reaction.Answer? then Encode(reaction.frame) else [])
    {
      hide Encode, ReadImage;
      if length > max - 2 {
        FinishError(number, LengthTooLong);
      } else if length > max - HEADER_SIZE {
        halted := true;
      } else {
        var outcome := handler.OnReadMemory(address, frameBuffer, HEADER_SIZE, length);
        match outcome {
          case Success(_) =>
            if length > max - HEADER_SIZE - 2 {
              halted := true;
            } else {
              Finish(ReadMemory, number, length);
            }
          case Failure(e) =>
            FinishError(number, e);
          case Panic =>
            halted := true;
        }
      }
    }

    /** Reads once and answers what the read completes. */
    method Poll(reader: Reader)
      requires Valid() && pendingTransfer.None? && !halted && !reader.fault
      modifies this`pendingTransfer, this`halted, frameBuffer, handler.image
      modifies receiver`state, receiver.receiveBuffer, reader`arrived
      ensures Valid()
      ensures ValidServer(max, old(Value()))
      ensures var m := Serving.Poll(max, old(Value()), old(reader.arrived), |old(reader.arrived)|);
              && Value() == m.state
              && reader.arrived == old(reader.arrived)[m.taken..]
    {
      hide Advance, Dispatch, Encode, FrameFromRaw;
      var result := receiver.Receive(reader);
      match result.received {
        case Accepted(raw) =>
          match FrameFromRaw(raw) {
            case Ok(frame) =>
              FrameKeepsRaw(raw);
              Respond(frame);
            case Err(_) =>
          }
        case _ =>
      }
    }

    /** One call is one step of the value-level server on the bytes that have arrived. */
    method Process(reader: Reader, writer: Writer)
      requires Valid()
      modifies this`pendingTransfer, this`halted, frameBuffer, handler.image
      modifies receiver`state, receiver.receiveBuffer, reader`arrived, writer`accepted
      ensures Valid()
      ensures ValidServer(max, old(Value()))
      ensures var allowance := Allowance(reader.fault, |old(reader.arrived)|, writer.room);
              var m := Serving.Process(max, old(Value()), old(reader.arrived), allowance);
              && Value() == m.state
              && reader.arrived == old(reader.arrived)[m.taken..]
              && writer.accepted == old(writer.accepted) + m.sent
    {
      hide Serving.Poll, Serving.Process, ValidRx, Demand, Advance;
      ghost var before, allowance := Value(), Allowance(reader.fault, |reader.arrived|, writer.room);
      if halted {
        assert Serving.Process(max, before, reader.arrived, allowance) == Moved(before, 0, [], Nothing) by {
          HaltedIsStill(max, before, reader.arrived, allowance);
        }
        return;
      }
      Serving.ProcessCases(max, before, reader.arrived, allowance);
      Flush(writer);
      assert Value() == before.(pending := before.pending[CountWritten(before, allowance)..]);
      if pendingTransfer.Some? {
        return;
      }
      if reader.fault {
        var _ := receiver.Receive(reader);
      } else {
        Poll(reader);
      }
    }
  }
}
