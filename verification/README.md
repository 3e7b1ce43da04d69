# Firmware tool protocol, probe decoder, UART and bouncing box: models and proofs

This project models four parts of the repository and proves what they are for. `dafny verify dfyconfig.toml` checks all of it.

**The firmware tool protocol** (`tool/fwtool/fwtool/src`, `eda/ethernet/src/sw-rs/src`). A host and a board exchange frames (marker 0x5a, type byte, frame number, payload length, payload, 16-bit check value) over serial lines on which every read may return fewer bytes than asked for and every write may take fewer.

- `Bytes.dfy`, `Crc.dfy`: big-endian integers, bits, and CRC-16/USB as the concrete shift register of section 8.3.5.2 of the USB 2.0 specification, followed by the second complement the frame code applies.
- `Frame.dfy`: header, type byte, checked and typed frames, `write_frame` through a cursor.
- `Receiver.dfy`: the resynchronising receiver, as a class over its buffer, as a step function on values, and against an independent left-to-right parser of whole byte streams (`Receiving.Parse`).
- `Corruption.dfy`: what the check value detects, for one frame and for a whole line.
- `Memory.dfy`, `Server.dfy`, `ServerObject.dfy`: the handler with its 8 KiB image, the server on values and over whole runs, the server object with its in-place frame buffer.
- `ServerTheorems.dfy`, `Sessions.dfy`, `Answering.dfy`: what requests and replies mean and look like, the theorem that the server is a plain byte array, and which frames are answered.
- `Client.dfy`, `System.dfy`: what the client's calls put on the wire and accept, and client and server as one state machine over two byte queues.

**The UART** (`slide/slide_1.md`, `cpu_design/src/main/scala/uart`): `Uart.dfy` (receiver), `UartLine.dfy` (frames whose bit boundaries are off), `UartLink.dfy` (transmitter, and a transmitter wired to a receiver). Every register changes only at a clock edge; a class has the registers as fields, and a step function says what one edge does.

**The logic probe decoder** (`tool/probedec/src/main.rs`): `ProbeFrames.dfy` (stream framing), `ProbeSignals.dfy` (bit fields packed seven bits to a byte, printed in hexadecimal), `ProbeCsv.dfy` (the row loop, against a reference packing).

**The bouncing box** (`eda/cpu_riscv_chisel_book_hdmi/src/sw/bootrom.c`): `BouncingBox.dfy`, the save-under loop over VRAM.

Classes stand for what the source updates in place; each of their methods is tied by its postcondition to a function on values, and the laws of those functions are the lemmas below. Readers, writers, line levels, offered values and the consumer of received bytes are parameters of the environment and arbitrary.

## What the code does where one might expect something else

- `Discard` counts each read from zero, and its buffer is too small for one read to deliver the whole frame: with a buffer of 6 to 65537 bytes it is never left (`Receiving.DiscardIsForever`). The comment at `receiver.rs:69` announces a retry.
- A marker and an unknown type byte make the receiver drop six bytes, a frame that begins inside them included (`ServerTheorems.UnknownHeaderSwallowsQuery`).
- `read_frame` returns a consumed length that is six too large (`Frames.ReadFrameRoundTrip`). No caller uses it.
- `write_frame` writes the whole payload slice but covers only `payload_length` bytes with the check value. The client's read, write and run requests pass a longer slice into an exactly sized cursor, so two zero bytes travel where the check value belongs (`Clients.OnlyQueryIsSentWhole`); such a request arrives if and only if its check value is zero (`Clients.RequestArrivesIff`) and is otherwise never answered (`Clients.RefusedRequestIsNeverAnswered`), and a new client's first one-byte read is lost (`Clients.FirstSmallReadIsLost`).
- The client never looks at the first byte of a reply, and `read_frame` then searches for a marker: a reply may be accepted with other bytes in front of it (`Clients.ReplyBehindJunkIsAccepted`), exactly when its first byte is no marker (`Clients.WholeReplyIffMarkerFirst`).
- The server refuses reads longer than MAX-2, but its buffer holds replies of MAX-8 only; the exact set of requests on which the firmware panics is `ServerTheorems.HaltsExactlyOn` (`ServerTheorems.BoundaryRead` is one). A panic never returns (`main.rs:68-71`) and is the `halted` flag of the model.
- An error reply travels as a run response with four payload bytes, which no typed frame accepts (`ServerTheorems.RepliesDecode`).
- The bit counter of the transmitter is as wide as it takes to count below `numberOfBits + 2`: when that is a power of two, values are taken and never sent (`UartLink.DeliversExactlyWhenCounterFits`). The instances of `cpu_design` that a CPU or a probe writes to use eight bits, for which it fits (`UartLink.EightBitsFit`).

The firmware computes addresses in 32 bits, so the sum of address and length is taken modulo 2^32. Server results hold for a frame size of 14 (a version reply) to 65537 bytes, receiver results for 6 (a header) to 65537: below, the code slices outside its buffer; above, its own limit no longer fits 16 bits (`receiver.rs:68`).

## Model

| member | source | states |
|---|---|---|
| Crc.ShiftDivides | tool/fwtool/fwtool/src/frame.rs:129 | the flip-flop network, bit for bit, is one step of division by the reflected generator 0xA001 |
| Crc.CrcIsRemainder | tool/fwtool/fwtool/src/frame.rs:165-170 | the complement in the code cancels the one of the digest: the check value is the bare remainder |
| Crc.CrcComplementsFront | tool/fwtool/fwtool/src/frame.rs:129 | the check value of a message of at least two bytes is the remainder, from an all-zero register, of the message with its first 16 bits complemented |
| Crc.CrcIsLoop | tool/fwtool/fwtool/src/frame.rs:165-170 | it is also what integer arithmetic gives that starts with 0xFFFF and, clock by clock, halves and adds 0xA001 modulo two |
| Crc.PublishedCheckValue | tool/fwtool/fwtool/src/frame.rs:129 | for the digits 1 to 9 it is the complement of 0xB4C8, the value published for CRC-16/USB |
| Crc.QueryCheckValue | tool/fwtool/fwtool/src/frame.rs:226-233 | for a client's first version query it is 0x215D |
| Crc.BurstChangesRemainder | tool/fwtool/fwtool/src/frame.rs:129 | two messages of any length that differ only in a window of at most 16 bits leave different remainders, wherever the window lies and whatever the register held |
| Crc.FeedParity | tool/fwtool/fwtool/src/frame.rs:129 | the register's parity follows the parity of everything fed into it |
| Crc.CrcParity | tool/fwtool/fwtool/src/frame.rs:226-233 | every message followed by its check value has an even number of ones |
| Crc.CrcSeesBurst | tool/fwtool/fwtool/src/frame.rs:226-233 | messages that differ in such a window have different check values |
| Frames.TypeRoundTrip | tool/fwtool/fwtool/src/frame.rs:28-67 | a type byte is decoded to the type it encodes if and only if the type is no error response |
| Frames.KnownTypesParse | tool/fwtool/fwtool/src/frame.rs:28-59 | a type byte is accepted if and only if its low seven bits are at most 3 |
| Frames.ErrorTypeCollides | tool/fwtool/fwtool/src/frame.rs:49-67 | both error types have the byte 0x80, which is parsed as a version response |
| Frames.HeaderLayout | tool/fwtool/fwtool/src/frame.rs:113-121 | the place of type, number and length in a header, the most significant byte first |
| Frames.EncodedLayout | tool/fwtool/fwtool/src/frame.rs:212-225 | the place of everything in an encoded frame, and a check value over all that stands in front of it |
| Frames.HeaderOutcome | tool/fwtool/fwtool/src/frame.rs:96-110 | for any bytes: which error, or type, number and length, read off the bytes |
| Frames.HeaderRoundTrip | tool/fwtool/fwtool/src/frame.rs:93-121 | an encoded header followed by anything is decoded to itself |
| Frames.HeaderParsed | tool/fwtool/fwtool/src/frame.rs:93-121 | any five bytes that decode are the encoding of what they decode to |
| Frames.MarkerIndex | tool/fwtool/fwtool/src/frame.rs:82 | the first marker, or the length when there is none |
| Frames.ReadHeaderRoundTrip | tool/fwtool/fwtool/src/frame.rs:80-90 | a header behind marker-free junk is found, with the offset just behind it |
| Frames.ReadHeaderSound | tool/fwtool/fwtool/src/frame.rs:80-90 | a header that is found stands, encoded, at the first marker |
| Frames.ReadFrameRoundTrip | tool/fwtool/fwtool/src/frame.rs:154-183 | behind marker-free junk and before anything, an encoded frame is read back; the consumed length comes out six too large |
| Frames.ReadFrameSound | tool/fwtool/fwtool/src/frame.rs:154-183 | an accepted frame is well formed and its encoding stands in the input at the first marker |
| Frames.ReadFrameOutcome | tool/fwtool/fwtool/src/frame.rs:154-183 | for any bytes: which of the four errors, with the values a check error carries, or which frame, read off the bytes |
| Frames.ReadFramePayloadRoundTrip | tool/fwtool/fwtool/src/frame.rs:185-210 | payload and check value of any well-formed frame are accepted as that frame |
| Frames.ReadFramePayloadSound | tool/fwtool/fwtool/src/frame.rs:185-210 | what is accepted is nothing but the returned payload followed by its check value |
| Frames.FrameKeepsRaw | tool/fwtool/fwtool/src/frame.rs:249-317 | a typed frame gives back exactly the raw frame it was made from |
| Frames.Cursor.Write | tool/fwtool/fwtool/src/frame.rs:144-150 | bytes are laid over the buffer from the position on, cut off at its end without an error, and nothing else changes |
| Frames.WriteFrame | tool/fwtool/fwtool/src/frame.rs:212-225 | three writes through a cursor lay the encoding over the buffer, wherever the buffer ends; a payload shorter than its length field goes out and then panics |
| Corruption.OddFlipsAreRefused | tool/fwtool/fwtool/src/frame.rs:185-204 | with the header intact, any odd number of flipped bits over payload and check field, of any length, gives a check error |
| Corruption.BurstIsRefused | tool/fwtool/fwtool/src/frame.rs:185-204 | any change confined to 16 consecutive payload bits gives a check error |
| Corruption.DamageIsContained | tool/fwtool/fwtool/src/receiver.rs:96-105 | on a line of frames and noise, some with an odd number of flipped body bits or a burst of at most 16 bits in the payload, once it has been read in any chunks with any empty reads between them: each intact frame is reported as sent and each damaged one as a check error, one for one and in order |
| Receiving.Parse | tool/fwtool/fwtool/src/receiver.rs:49-116 | the reference: a left-to-right reading of a stream with no window, buffer or chunk; everything it accepts is well formed |
| Receiving.ParseSkipsNoise | tool/fwtool/fwtool/src/receiver.rs:75-88 | no frame is read out of noise and none behind it is lost: bytes that are no marker, and six-byte windows that a marker and an unknown type byte open, dropped whole whatever else they hold |
| Receiving.AdvanceInvariant | tool/fwtool/fwtool/src/receiver.rs:53-114 | every call keeps the header count below 6, the body count below the length plus two, that sum within the buffer, and every discarded frame too long for it |
| Receiving.AdvanceRefines | tool/fwtool/fwtool/src/receiver.rs:49-116 | one call, on any chunk and whatever arrives later, reports exactly what the reference reads in the bytes it completes |
| Receiving.WindowRefines | tool/fwtool/fwtool/src/receiver.rs:65-89 | the full header window loses and swallows nothing: restarting from what is kept reads the same frames |
| Receiving.PendingIsIncomplete | tool/fwtool/fwtool/src/receiver.rs:9-14 | no state holds back a complete frame |
| Receiving.DeliverRefines | tool/fwtool/fwtool/src/receiver.rs:49-116 | over any run from any valid state, reports plus what the state still stands for are the reference reading of the bytes taken |
| Receiving.ChunkingIsInvisible | tool/fwtool/fwtool/src/receiver.rs:49-116 | for every stream and every way of handing it out, empty and short reads included, the reports at any moment are the reference reading of the bytes read so far |
| Receiving.EnoughCallsReadAll | tool/fwtool/fwtool/src/receiver.rs:53-60 | as many calls that may read a byte as there are bytes read the stream to its end, with any number of empty reads between them |
| Receiving.TwoReadsTakeFrame | tool/fwtool/fwtool/src/receiver.rs:53-105 | when everything has arrived, a frame takes two reads, and nothing behind it is touched |
| Receiving.TwoReadsDiscard | tool/fwtool/fwtool/src/receiver.rs:56 | two reads of a frame that is too long swallow all of it, or twice the buffer |
| Receiving.ParseWire | tool/fwtool/fwtool/src/receiver.rs:63-114 | arrivals that fit, whatever their bodies hold, between such noise are judged one by one, in order, and nothing else is reported |
| Receiving.ParseSent | tool/fwtool/fwtool/src/receiver.rs:63-114 | encoded frames between such noise read as exactly those frames |
| Receiving.EveryFrameIsReceived | tool/fwtool/fwtool/src/receiver.rs:49-116 | any list of well-formed frames with payloads up to MAX-2 and any such noise between them: once the line has been read, in any chunks with any empty reads between them, exactly those frames have been received, in order |
| Receiving.OversizeHeaderSilences | tool/fwtool/fwtool/src/receiver.rs:68-70 | after a header that announces more than the buffer holds nothing is ever reported, under any chunking |
| Receiving.DiscardIsForever | tool/fwtool/fwtool/src/receiver.rs:106-111 | the discarding state is never left and reports nothing |
| Receiving.Receiver.constructor | tool/fwtool/fwtool/src/receiver.rs:42-47 | a new receiver is valid and waits for a header |
| Receiving.Receiver.Receive | tool/fwtool/fwtool/src/receiver.rs:49-116 | the call on the object, buffer and reader is one step on values; a reader's error leaves state and stream alone |
| Receiving.Receiver.FinishHeader | tool/fwtool/fwtool/src/receiver.rs:65-89 | the six-byte window, moved within the buffer where it is partial, becomes the value-level next state |
| Receiving.Reader.Read | eda/ethernet/src/sw-rs/src/uart.rs:106-125 | as many bytes as have arrived, up to the length asked for, go to their place and leave the queue; the rest of the buffer is untouched |
| Memory.AccessOutcome | eda/ethernet/src/sw-rs/src/main.rs:82-103 | reads and writes succeed if and only if the range lies in the image, and panic if and only if it wraps around into it |
| Memory.LastAddressPanics | eda/ethernet/src/sw-rs/src/main.rs:83-88 | concrete cases: one byte at 0xFFFFFFFF panics, at 8192 it is refused, at 8191 it is the last one |
| Memory.OtherAccessIsInvalid | eda/ethernet/src/sw-rs/src/main.rs:84-97 | every other access is refused as an invalid address |
| Memory.WriteIsLocal | eda/ethernet/src/sw-rs/src/main.rs:93-103 | a write inside the image sets the named cells and no other |
| Memory.Handler.constructor | eda/ethernet/src/sw-rs/src/main.rs:73 | the image starts as 8192 zero bytes |
| Memory.Handler.OnReadMemory | eda/ethernet/src/sw-rs/src/main.rs:82-92 | the addressed bytes are copied into the part of the buffer it is given and nothing else changes, also on errors |
| Memory.Handler.OnWriteMemory | eda/ethernet/src/sw-rs/src/main.rs:93-103 | the image becomes the value-level result, or stays as it was |
| Serving.Dispatch | tool/fwtool/fwtool/src/server.rs:77-114 | every answer is well formed and fits the frame buffer; the image keeps its size |
| Serving.ProcessInvariant | tool/fwtool/fwtool/src/server.rs:51-137 | every call keeps the receiver valid and the pending reply within the frame buffer |
| Serving.RunEventsAreParsed | tool/fwtool/fwtool/src/server.rs:77 | under any schedule the server's receiver reports the reference reading of the bytes taken |
| Serving.ServeStep | tool/fwtool/fwtool/src/server.rs:77-134 | serving one event and then the rest is serving all of them, up to a panic |
| Serving.ProcessConserves | tool/fwtool/fwtool/src/server.rs:56-134 | one call conserves output: pending bytes and answers still due equal bytes sent, bytes then pending and answers then due |
| Serving.OutputIsConserved | tool/fwtool/fwtool/src/server.rs:51-137 | over any run with short writes, write errors and read errors, bytes written plus bytes pending are the encodings of all answers given so far |
| Serving.OutputIsDeterminedByInput | tool/fwtool/fwtool/src/server.rs:51-137 | output including what is pending, image and panics are at every moment a function of the bytes read so far and of nothing in the schedule |
| ServerObject.Writer.Write | eda/ethernet/src/sw-rs/src/uart.rs:128-145 | the writer takes a prefix of the slice, in order, or fails and takes nothing |
| ServerObject.Server.constructor | tool/fwtool/fwtool/src/server.rs:42-49 | a new server is the fresh value-level server over a zero image |
| ServerObject.Server.Flush | tool/fwtool/fwtool/src/server.rs:56-71 | what the writer took is a prefix of the pending reply, and the rest stays pending |
| ServerObject.Server.Finish | tool/fwtool/fwtool/src/server.rs:116-133 | header and check value written around the payload in the frame buffer make the pending bytes equal to `write_frame`'s encoding of that reply |
| ServerObject.Server.FinishError | tool/fwtool/fwtool/src/server.rs:36-39 | an error reply assembled in place is the encoding of the four-byte run response |
| ServerObject.Server.RespondToRead | tool/fwtool/fwtool/src/server.rs:89-100 | the handler reads straight into the frame buffer; pending bytes and panics are those of the value-level reaction |
| ServerObject.Server.Respond | tool/fwtool/fwtool/src/server.rs:77-114 | pending bytes, image and panics after a typed frame are those of the value-level dispatch |
| ServerObject.Server.Poll | tool/fwtool/fwtool/src/server.rs:77-135 | one read and its answer are the value-level step |
| ServerObject.Server.Process | tool/fwtool/fwtool/src/server.rs:51-137 | one call on the object, with any reader and writer, is one value-level call: new state, bytes taken and bytes written |
| ServerTheorems.HaltsExactlyOn | tool/fwtool/fwtool/src/server.rs:89-131 | the requests that panic the firmware, both ways, by address and length alone |
| ServerTheorems.BoundaryRead | tool/fwtool/fwtool/src/server.rs:89-131 | a concrete case at the firmware's frame size of 128: reading 121 bytes at address 0 panics, reading 120 is answered |
| ServerTheorems.RepliesDecode | tool/fwtool/fwtool/src/frame.rs:249-284 | replies to successful requests decode to what they report; an error reply decodes to no typed frame |
| ServerTheorems.EveryTypedFrameIsAnswered | tool/fwtool/fwtool/src/server.rs:77-133 | each typed frame that does not panic gets exactly one reply with its number that fits; the reply is typed if and only if the request was granted; only a granted write changes the image |
| Answering.AnsweredIffAdmitted | tool/fwtool/fwtool/src/server.rs:78 | a checked frame is answered, or panics, if and only if its type admits its payload length; otherwise nothing changes |
| Answering.UnadmittedIsNeverAnswered | tool/fwtool/fwtool/src/server.rs:77-135 | at no moment of any run on the encoding of such a frame has the server sent or prepared anything, changed its image or panicked |
| Answering.RepliesMatchFrames | tool/fwtool/fwtool/src/server.rs:77-134 | whatever checked frames arrive, the replies carry the numbers of the admitted ones, one each and in order, up to a panic |
| Answering.ResponsesAreRefused | tool/fwtool/fwtool/src/server.rs:113 | a response that reaches the server gets one reply with its number and the error 4 |
| Answering.ThreeCallsAnswer | tool/fwtool/fwtool/src/server.rs:51-137 | with all input and room at hand a request is answered in three calls, the last of which writes the whole reply and reads on |
| ServerTheorems.RequestDecodes | tool/fwtool/fwtool/src/frame.rs:412-435 | request frames decode to the address, length and data they were built from |
| ServerTheorems.RequestLayout | tool/fwtool/fwtool/src/frame.rs:411-618 | type number, address, length and data of every request by the places of their bytes, the most significant first |
| ServerTheorems.ReplyLayout | tool/fwtool/fwtool/src/frame.rs:361-378 | the same for version and payload size of a version reply and for the number of each error |
| ServerTheorems.QueryBytes | tool/fwtool/fwtool/src/frame.rs:324-333 | the eight bytes of a client's first version query |
| ServerTheorems.UnknownHeaderSwallowsQuery | tool/fwtool/fwtool/src/receiver.rs:85-88 | a concrete case: a marker and a type byte 0x7F swallow the query that follows them |
| ServerTheorems.CellHoldsLastWrite | eda/ethernet/src/sw-rs/src/main.rs:93-103 | each cell of the plain array holds the last value an accepted write gave it |
| ServerTheorems.CommandHalts | tool/fwtool/fwtool/src/server.rs:89-131 | of the commands that can be sent, exactly those that panic the firmware, by address and length alone; they leave the image as it was |
| ServerTheorems.CommandIsAnswered | tool/fwtool/fwtool/src/server.rs:77-133 | every other command that can be sent, refused ones included, with the error number 3 for a read that is too long and 2 for a range outside the image, gets one reply with its number saying what the plain array says, and the image becomes the plain array's |
| Sessions.SessionRefinesPlainArray | tool/fwtool/fwtool/src/server.rs:77-133 | any list of commands that can be sent: one reply each, in order, up to the first that panics the firmware if there is one, each saying what a plain array says after the commands before it |
| Sessions.OutputParses | tool/fwtool/fwtool/src/server.rs:125-132 | the bytes the server puts out are themselves read back as its replies |
| Sessions.SessionOverTheWire | tool/fwtool/fwtool/src/server.rs:51-137 | commands none of which panics, as bytes with any gaps, under any schedule of short or failing reads and writes: once drained, the bytes that came out are the replies of a plain 8192-byte array and the image is that array |
| Sessions.SessionSoFar | tool/fwtool/fwtool/src/server.rs:51-137 | at every moment of any session, drained or not: the image is the plain array after some first k commands, what has come out or is pending are exactly their k replies, and if the firmware has panicked the next command is one that does |
| Sessions.SessionIsServed | tool/fwtool/fwtool/src/server.rs:51-137 | any session in which the server gets enough turns to read and to write: it panics if and only if some command does that, nothing is left to write, and what has come out are all replies, up to that command |
| Sessions.UsefulCallWorks | tool/fwtool/fwtool/src/server.rs:56-77 | a call lowers the remaining work if it may write while a reply is pending, or may read while none is |
| Sessions.UselessCallStays | tool/fwtool/fwtool/src/server.rs:56-77 | every other call changes nothing and moves nothing |
| Sessions.NoCallAddsWork | tool/fwtool/fwtool/src/server.rs:51-137 | no call, under any allowance, adds to the remaining work |
| Sessions.RunsFinish | tool/fwtool/fwtool/src/server.rs:51-137 | a run reads the whole stream and writes out every answer, unless a request panics the firmware, as soon as the server has had enough rounds, each a turn to read and a turn to write, in one call or in two, in either order and with any calls in between |
| Sessions.HaltedStays | eda/ethernet/src/sw-rs/src/main.rs:68-71 | after a panic nothing happens any more |
| Clients.OnlyQueryIsSentWhole | tool/fwtool/fwtool/src/client.rs:22-29 | the version query goes out as its whole encoding; every other request carries two zero bytes in place of its check value, or, when the length of a write wraps around, two bytes of its own contents |
| Clients.CheckFieldDecides | tool/fwtool/fwtool/src/frame.rs:185-204 | a frame with any two bytes in its check field is accepted, as itself, if and only if they are its check value; otherwise it is a check error |
| Clients.ZeroCheckValueDecides | tool/fwtool/fwtool/src/client.rs:67-72 | the same for the zero check field of the client's requests |
| Clients.RequestArrivesIff | tool/fwtool/fwtool/src/client.rs:67-72 | the bytes a call sends, once read in any chunks, are reported as exactly the frame meant if the call is a version query or the check value is zero, and otherwise as exactly one check error |
| Clients.RefusedRequestIsNeverAnswered | tool/fwtool/fwtool/src/client.rs:67-73 | at no moment of any run on the bytes of a refused request has the server sent or prepared anything, changed its image or panicked |
| Clients.OddRequestsAreRefused | tool/fwtool/fwtool/src/client.rs:67-72 | every such request with an odd number of ones in header and payload is refused |
| Clients.FirstSmallReadIsLost | tool/fwtool/fwtool/src/client.rs:67-72 | a concrete case: the first one-byte read at address 0 of a new client |
| Clients.ReplySizeOutcome | tool/fwtool/fwtool/src/client.rs:34-36 | the size of a reply read off its first bytes, or an error when the type byte is unknown |
| Clients.VersionTakenIff | tool/fwtool/fwtool/src/client.rs:53-64 | a checked reply is taken if and only if its header is that of a version reply with the query's number, and then for exactly what its payload says |
| Clients.EveryVersionIsTaken | tool/fwtool/fwtool/src/client.rs:48-65 | for all numbers, versions and payload sizes the reply that carries them gives them back |
| Clients.AcceptedReplyIsVersionReply | tool/fwtool/fwtool/src/client.rs:48-65 | a version query succeeds only when the encoding of a version reply with its own number stands at the first marker of the bytes it took, and returns what that reply means |
| Clients.WholeReplyIffMarkerFirst | tool/fwtool/fwtool/src/client.rs:31-46 | those bytes are that encoding and nothing else if and only if the first of them is a marker |
| Clients.ReplyBehindJunkIsAccepted | tool/fwtool/fwtool/src/client.rs:33-36 | a concrete case: a reply of twenty bytes accepted with six bytes in front of the encoding |
| Clients.ErrorReplyIsNeverSuccess | tool/fwtool/fwtool/src/client.rs:55-63 | no error reply, under any number, is taken for success by any call |
| Clients.Client.constructor | tool/fwtool/fwtool/src/client.rs:10-14 | the first number is 1 |
| Clients.Client.NextFrameNumber | tool/fwtool/fwtool/src/client.rs:16-20 | numbers are handed out in turn and wrap at 2^16 |
| Clients.Client.SendFrameRaw | tool/fwtool/fwtool/src/client.rs:22-29 | the buffer sent is the encoding cut off at the size the header announces |
| Clients.Client.MakeFrame | tool/fwtool/fwtool/src/client.rs:67-72 | the request frame of a call, its payload the whole zero-filled buffer, its length field modulo 2^16 |
| Clients.Client.SendRequest | tool/fwtool/fwtool/src/client.rs:48-51 | a call sends the frame of its command under the next number |
| Clients.Client.ReadExact | tool/fwtool/fwtool/src/client.rs:33 | exactly the bytes asked for, or failure |
| Clients.Client.ReceiveVersion | tool/fwtool/fwtool/src/client.rs:31-64 | of the bytes that have arrived, exactly one announced reply is taken and judged; what follows it stays; a queue that begins with the reply for any version and size gives these; a failing reader fails the call |
| QueryProtocol.AdvanceWithinFrame | tool/fwtool/fwtool/src/receiver.rs:49-116 | a receiver in the middle of a frame, header bytes or body, stays in it until the last byte and then reports it |
| QueryProtocol.ServerReadsOn | tool/fwtool/fwtool/src/server.rs:51-135 | during a query every server call, also one that fails to read, keeps the query whole between queue and receiver, or answers it with its last byte |
| QueryProtocol.ClientReadsOn | tool/fwtool/fwtool/src/client.rs:31-65 | every read keeps the reply whole between the queues and the client, or ends the call with the right result and nothing left over |
| QueryProtocol.NextKeepsInv | tool/fwtool/fwtool/src/client.rs:16-65 | every step of client, server and scheduler keeps the protocol's invariant |
| QueryProtocol.EveryQuerySucceeds | tool/fwtool/fwtool/src/client.rs:48-65 | any number of version queries under any interleaving of short and failing steps: every finished call returned the version and MAX-8, queues are empty between calls, and the frame numbers count the calls modulo 2^16 |
| QueryProtocol.EveryMoveIsProgress | tool/fwtool/fwtool/src/server.rs:51-135 | every step changes nothing, begins a call, or lowers a byte count that bounds the rest of the call |
| QueryProtocol.EnabledStepMoves | tool/fwtool/fwtool/src/client.rs:48-65 | whenever a call is under way, a step lowers that count if it is what the state waits for: a client write, a client read of what has arrived, a server call that may write while a reply is pending, or one that may read while none is |
| QueryProtocol.UsefulStepMoves | tool/fwtool/fwtool/src/client.rs:48-65 | in every reachable state of a call some step of one byte lowers that count |
| QueryProtocol.FairSchedulesEndCalls | tool/fwtool/fwtool/src/client.rs:48-65 | every schedule ends the call under way that has enough stretches in each of which the client may write, the client may read, a server call may read and a server call may write, in any order and with anything in between |
| QueryProtocol.EveryCallEnds | tool/fwtool/fwtool/src/client.rs:48-65 | any new call ends, with the right result, within 56 such stretches |
| QueryProtocol.CallsCanFinish | tool/fwtool/fwtool/src/client.rs:48-65 | no reachable state is stuck: the call can end within that many steps |
| Uart.RxStep | slide/slide_1.md:1489-1551 | every clock keeps registers and counters within what their widths hold |
| Uart.LossIsReported | slide/slide_1.md:1507-1541 | an untaken byte is overwritten only when a frame completes, and every such completion raises the overrun flag at that edge |
| Uart.DeliveredIsAccountedFor | slide/slide_1.md:1500-1541 | over any run and any consumer every completed value is taken, waits or has been overwritten, exactly once; while none has been overwritten, the values taken and the one that waits are the values completed, in order |
| Uart.NoOverrunNoLoss | slide/slide_1.md:1507-1541 | a run in which the overrun flag never rises has lost nothing |
| Uart.UartRx.constructor | slide/slide_1.md:1489-1502 | registers after reset, the data registers arbitrary |
| Uart.UartRx.Clock | slide/slide_1.md:1507-1549 | the statements of the circuit, with right-hand sides read before the edge, are the step function |
| Uart.SyncDelays | slide/slide_1.md:1511-1513 | the synchroniser is a delay line of as many clocks as it has stages |
| Uart.StaysIdle | slide/slide_1.md:1521-1527 | without a falling edge an idle receiver stays idle and delivers nothing |
| Uart.StillLineDeliversNothing | slide/slide_1.md:1492-1527 | a line that has been low, or high, since reset starts nothing |
| Uart.SamplesTheRest | slide/slide_1.md:1533-1549 | the remaining bits are sampled one bit time apart, one value is completed, and the receiver is idle |
| Uart.ReceivesFrame | slide/slide_1.md:1521-1549 | a falling edge makes the receiver deliver exactly the levels one and a half, two and a half, ... bit times after it, low bit first, once, at a known clock |
| UartLine.ToleranceInClocks | slide/slide_1.md:1523 | samples lie within their bits if and only if each boundary is late by at most floor(D/2)-1 clocks and early by at most ceil(D/2) |
| UartLine.ToleranceIsExact | slide/slide_1.md:1521-1549 | the levels at the sample times are the bits sent, for every value, if and only if the boundaries are within that tolerance |
| UartLine.MissedBits | slide/slide_1.md:1521-1549 | outside it, a value for which they are not |
| UartLine.FrameDeliversSamples | slide/slide_1.md:1511-1549 | any frame, its boundaries within tolerance or not, makes an idle receiver deliver the levels at the sample times, once |
| UartLine.DeliveryIsExact | slide/slide_1.md:1511-1549 | a receiver delivers every value as sent if and only if the boundaries are within that tolerance |
| UartLine.FrameIsReceived | slide/slide_1.md:1511-1549 | a frame within tolerance is delivered as sent, once, for any number of bits, divider of at least 2 and at least one synchroniser stage |
| UartLine.StreamIsReceived | slide/slide_1.md:1511-1549 | any number of consecutive frames, each with its own uneven bits, is delivered in order and without additions |
| UartLink.Log2Ceil | cpu_design/src/main/scala/uart/UartTx.scala:18-19 | the least width whose range reaches the bound |
| UartLink.LoadedCountIs | cpu_design/src/main/scala/uart/UartTx.scala:19-27 | what the bit counter holds after a load: the frame length, or zero when that is a power of two |
| UartLink.EightBitsFit | slide/slide_1.md:1380-1386 | frames of eight data bits are counted |
| UartLink.SixBitsDoNotFit | cpu_design/src/main/scala/uart/UartTx.scala:19-27 | a concrete case: frames of six data bits leave the counter at zero |
| UartLink.TxStep | slide/slide_1.md:1378-1397 | every clock keeps the registers within their ranges |
| UartLink.FrameBitIsDigit | slide/slide_1.md:1385 | start bit, the binary digits of the value from the lowest, stop bit |
| UartLink.UartTx.constructor | slide/slide_1.md:1379-1381 | registers after reset |
| UartLink.UartTx.Clock | slide/slide_1.md:1382-1397 | output level and registers after a clock are those of the step function |
| UartLink.HoldsEachBit | slide/slide_1.md:1384-1397 | a loaded frame holds each of its bits for exactly D clocks and nothing is loaded meanwhile |
| UartLink.ReadyAfterFrame | slide/slide_1.md:1383-1397 | after the last bit the transmitter is ready, having loaded once |
| UartLink.BusyDuringFrame | slide/slide_1.md:1382-1397 | during a frame it is never ready and the line carries start bit, data bits from the lowest, stop bit |
| UartLink.LoadedFrameIsCarried | slide/slide_1.md:1374-1398 | what it puts on the line is a frame within the receiver's tolerance, with room for the receiver to go idle |
| UartLink.LinkDelivers | slide/slide_1.md:1374-1551 | whatever is offered and whenever, at every ready clock the receiver has completed, one synchroniser delay later, exactly the values loaded so far |
| UartLink.LinkHandsOver | slide/slide_1.md:1374-1551 | up to the consumer: every value loaded is taken, waits or has been overwritten; if the overrun flag never rose, the values taken and the one that waits are the values loaded, in order |
| UartLink.NarrowCounterIsSilent | cpu_design/src/main/scala/uart/UartTx.scala:19-27 | with a frame length that is a power of two the transmitter stays ready for ever |
| UartLink.DeliversExactlyWhenCounterFits | cpu_design/src/main/scala/uart/UartTx.scala:12-41 | a link delivers all it takes if and only if the bit counter holds the frame length or nothing is ever offered |
| UartLink.RepeatsForEver | slide/slide_1.md:1383-1397 | with a value always on offer the line repeats every 10 D + 1 clocks (for eight bits): one idle clock, then each bit for D clocks |
| UartLink.DeliversOncePerPeriod | slide/slide_1.md:1374-1551 | a receiver on that line delivers the value once per period, for ever |
| ProbeFrames.Position | tool/probedec/src/main.rs:62-64 | the first occurrence from a start, or the length |
| ProbeFrames.BytesMut.Decode | tool/probedec/src/main.rs:61-75 | the body returned and the bytes left in the buffer; both assertions in the code hold |
| ProbeFrames.DecodeIsStable | tool/probedec/src/main.rs:61-75 | a complete frame is not affected by what follows it |
| ProbeFrames.DrainIsIncremental | tool/probedec/src/main.rs:61-75 | decoding a prefix until nothing comes, then the rest, is decoding the whole |
| ProbeFrames.PiecesDoNotMatter | tool/probedec/src/main.rs:61-75 | any pieces, drained one after another, give the bodies of the whole stream |
| ProbeFrames.StreamIsDecoded | tool/probedec/src/main.rs:61-75 | bodies free of the end marker between noise free of the start marker come out exactly |
| ProbeFrames.DescribedFrame | cpu_design/src/main/scala/diag/README.md:13-18 | the worked example of the format: the bytes 80 7F 03 81 are a frame with the body 7F 03 |
| ProbeFrames.FramedReaderYieldsBodies | tool/probedec/src/main.rs:61-75 | the same for such a stream cut up in any way |
| ProbeSignals.NibbleIsSignalBits | tool/probedec/src/main.rs:123-140 | the shifts, or and mask give the next four bits of the signal, or as many as are left, also across a byte boundary |
| ProbeSignals.NibbleOfAnyBytes | tool/probedec/src/main.rs:123-140 | for any bytes, bit by bit: the signal's bits, with the unused top bit of a byte falling on the lowest bit of the next where a nibble crosses |
| ProbeSignals.BitIsSignalBit | tool/probedec/src/main.rs:113-117 | the single-bit reader gives the signal's bit, for any bytes |
| ProbeSignals.NibbleAgreesWithGet | tool/probedec/src/main.rs:113-140 | both readers agree bit by bit |
| ProbeSignals.SignalValue | tool/probedec/src/main.rs:98-103 | a signal's bits are worth (sum of byte k times 128^k) div 2^offset mod 2^width |
| ProbeSignals.FormatHex | tool/probedec/src/main.rs:146-155 | the loop from the highest nibble down prints all digits of the signal |
| ProbeSignals.DigitIsNibble | tool/probedec/src/main.rs:150-153 | each digit is that of its nibble, the highest nibble first, for any bytes |
| ProbeSignals.DigitsAre | tool/probedec/src/main.rs:152 | decimal digits, then small letters |
| ProbeSignals.PrintedValue | tool/probedec/src/main.rs:146-155 | the digits printed are ceil(width/4) in number and denote exactly that value |
| ProbeCsv.WriteSignals | tool/probedec/src/main.rs:168-203 | a header record, then one record for each whole row, in order, for any body |
| ProbeCsv.WriteRow | tool/probedec/src/main.rs:187-196 | each signal is printed from where the one before it ended |
| ProbeCsv.RowCount | tool/probedec/src/main.rs:186-200 | there are as many records as whole rows in the body |
| ProbeCsv.RowIsRecord | tool/probedec/src/main.rs:186-200 | record i is that of the i-th row of any body, whatever follows the last whole row |
| ProbeCsv.RowSizeIsLeast | tool/probedec/src/main.rs:173-174 | a row is as many bytes as its signals need at seven bits each, and no more |
| ProbeCsv.HeaderNames | tool/probedec/src/main.rs:180-182 | the header names the signals, one each and in order |
| ProbeCsv.DescribedSample | cpu_design/src/main/scala/diag/README.md:16-18 | the worked example of the format: nine ones are the bytes 7F 03 |
| ProbeCsv.PackedBits | cpu_design/src/main/scala/diag/README.md:13-16 | packing seven bits to a byte, lowest first, loses nothing |
| ProbeCsv.PackedRecord | tool/probedec/src/main.rs:187-196 | the record of a packed sample prints every one of its values |
| ProbeCsv.PackedSamplesAreRead | tool/probedec/src/main.rs:172-200 | packing any samples and running the row loop prints every value of every sample, in order, and nothing else |
| BouncingBox.CopyFromVram | eda/cpu_riscv_chisel_book_hdmi/src/sw/bootrom.c:45-53 | the buffer holds the rectangle row by row, each cell cut down to a byte |
| BouncingBox.CopyToVram | eda/cpu_riscv_chisel_book_hdmi/src/sw/bootrom.c:54-62 | the rectangle shows the buffer and every other cell is unchanged |
| BouncingBox.FillVram | eda/cpu_riscv_chisel_book_hdmi/src/sw/bootrom.c:63-71 | the rectangle shows the value and every other cell is unchanged |
| BouncingBox.BounceIsTriangle | eda/cpu_riscv_chisel_book_hdmi/src/sw/bootrom.c:134-143 | adding a negative step to an unsigned position and turning at the edges follows the triangle wave, position and direction |
| BouncingBox.TrianglePeriod | eda/cpu_riscv_chisel_book_hdmi/src/sw/bootrom.c:134-143 | the wave repeats after m frames if and only if m is a multiple of twice the free width |
| BouncingBox.PictureRepeats | eda/cpu_riscv_chisel_book_hdmi/src/sw/bootrom.c:132-147 | from frame 1 on the whole picture repeats after every common multiple of the two periods |
| BouncingBox.PictureRepeatsExactly | eda/cpu_riscv_chisel_book_hdmi/src/sw/bootrom.c:80-147 | on any background without black cells the pictures repeat after m frames, from frame 1 on, if and only if m is a common multiple of the two periods |
| BouncingBox.TurnSavesUnder | eda/cpu_riscv_chisel_book_hdmi/src/sw/bootrom.c:132-147 | every turn of the frame loop keeps the save-under invariant, the box on the screen included |
| BouncingBox.LoopSavesUnder | eda/cpu_riscv_chisel_book_hdmi/src/sw/bootrom.c:110-150 | every turn of the endless loop, begun over any background of 8-bit values on any screen larger than the box, satisfies the invariant |
| BouncingBox.LoopRepeatsExactly | eda/cpu_riscv_chisel_book_hdmi/src/sw/bootrom.c:110-150 | what the endless loop shows over a background without black cells repeats after m frames, from frame 1 on, if and only if m is a common multiple of the two periods |
| BouncingBox.VideoPeriod | eda/cpu_riscv_chisel_book_hdmi/src/sw/bootrom.c:134-143 | on the 80 by 45 screen both waves are back if and only if the number of frames is a multiple of 5328 |
| BouncingBox.Screen.constructor | eda/cpu_riscv_chisel_book_hdmi/src/sw/bootrom.c:110-113 | the save-under invariant holds before the first frame, for any background of 8-bit values |
| BouncingBox.Screen.DrawFrame | eda/cpu_riscv_chisel_book_hdmi/src/sw/bootrom.c:132-147 | the statements of the loop are one turn on values; every frame keeps the invariant: the screen is the background with a black box where the triangle waves put it, and the buffer is the background under it |
| BouncingBox.Screen.Move | eda/cpu_riscv_chisel_book_hdmi/src/sw/bootrom.c:134-143 | both axes step and turn like the bounce on values |
| BouncingBox.Screen.Draw | eda/cpu_riscv_chisel_book_hdmi/src/sw/bootrom.c:144-147 | the box buffer holds what was under the box, and then the box is black and every other cell as before |
| BouncingBox.Screen.Restore | eda/cpu_riscv_chisel_book_hdmi/src/sw/bootrom.c:132-133 | copying the buffer back shows the whole original background |

## Left out

- Clients.Client.ReceiveVersion: waiting for bytes that have not arrived, which is in the state machine of `System.dfy` instead.
- Clients.Client.MakeFrame: a debug build, in which the length field of a write panics where it wraps.
- Receiving.Reader.Read: other devices than this UART, which may fail in the middle of a read after taking bytes; this one reports nothing but "not ready" (`uart.rs:37-45`).
- ServerObject.Writer.Write: likewise devices that fail in the middle of a write (`uart.rs:20-27`).
- Memory.ReadImage: a debug build, in which the sum of address and length panics instead of wrapping.
- Serving.Dispatch: handlers other than the firmware's, which answers the version and run requests always; what a started program does.
- ProbeSignals.PrintedValue: the number printed for rows with bytes of 0x80 and above, which the format excludes; their digits are given bit by bit (ProbeSignals.NibbleOfAnyBytes, ProbeSignals.DigitIsNibble).
- BouncingBox.Screen: the loop that paints the seven bands (any background of 8-bit values stands for it), waiting for VSYNC, the LEDs and the one-second counter; cell numbers that exceed 32 bits.
- UartLine.FrameIsReceived: metastability and glitches; the line has one level per clock.
- Exchanges of `read_memory`, `write_memory` and `run` between client and server: as written they do not carry a check value, which is what Clients.RequestArrivesIff states.
- `new_inplace`, which nothing calls; serial ports, tokio, command line, logging, CSV quoting, files and file names; the unused `SignalBits` formatter.
- The table-driven computation inside the crc crate, which is not part of this model; the register it implements is.
- Register access crates, build scripts, start-up code, the copies of the firmware for other boards, the stepper and display firmware, and the CPU fragments of the slides, of which only excerpts are shown.
