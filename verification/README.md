# webtransportd, modelled in Dafny

webtransportd is a WebTransport daemon: it gives each peer a child process and
carries messages between the peer's QUIC streams and datagrams and the child's
standard input and output. This project models the parts of it that decide
whether messages survive the trip, and the number arithmetic and text coding of
the TLS library it is built with, and proves what they promise.

- **Frames on the pipe** (`Varint`, `Frames`, `Streams`): the RFC 9000 integer,
  the frame format, and the greedy parse of a byte stream. Every verdict of the
  decoder is tied to the format in both directions, parsing does not depend on how
  the stream was cut into reads, and a stream of frames is parsed back to exactly
  those frames.
- **The daemon's path** (`LinkedLists`, `WorkQueue`, `Session`, `Reassembly`,
  `ChildOutput`, `Protocol`, `Peer`, `Wire`): the linked outbound queue, the session
  core, the reader thread over any sequence of short, interrupted and failing
  reads, and the hand-over between reader and network thread as a state machine
  whose runs are all interleavings. The session keeps a log, so that the reader and
  the pump are proved to take the steps of that machine in its order. The datagram
  queue and the data stream of a
  peer are a second machine, which the `Peer` class implements step by step, and
  `Wire` follows the child's frames through both to the stream and the datagrams.
- **The child** (`Echo`) and **the whole loop** (`EndToEnd`): peer messages go to
  the child, come back and reach the transport port. Each write to the child's
  input may be taken whole, in part or not at all. Safety, progress, completeness
  and the place of FIN are proved over every run, in terms of what the pipe took,
  with the exact condition for that to be the messages. `Rounds` shows that
  a round of the reader and of the child, as methods, is a run of this machine.
- **Command lines** (`Cmdline`, `CmdlineBuffers`, `CmdlineSplit`,
  `CmdlineRoundTrip`): the Windows command-line printer, a reader of the Microsoft
  rules that undoes it, the in-place tokenizer, and exactly when the tokenizer
  undoes the printer, on text and on the buffers.
- **Multi-precision arithmetic** (`Arith`, `Divisibility`, `Limbs`, `MulAdd`,
  `LimbOps`, `Montgomery`, `ExpMod`, `GcdSteps`, `GcdExit`, `GcdModInv`): limb
  arrays in place, with machine arithmetic written out, proved to compute
  products, Montgomery products, powers, greatest common divisors and inverses.
  The number of iterations of the gcd loop, which the source takes from a paper,
  is proved sufficient. The limb width is left open, so every result holds for
  32-bit and 64-bit limbs.
- **Base64** (`Base64`, `Base64Buffers`): both routines on their buffers, tied to
  the alphabet and the bit order of section 4 of RFC 4648, with exactly the texts
  the decoder accepts.

Calls into code outside the model are parameters or take any answer: reads and
writes follow a script of partial, interrupted and failing results, the transport
and child ports record what they are called with and answer arbitrarily. In the
whole loop, what the child's pipe takes of each write is a parameter of the step.
Of the QUIC library the model has what decides whether a stream takes data: the
stream's direction, a stop by the peer or a reset, and the departure of its FIN.
What the stream carries is what the library has taken and can still send.

## Where the code and its documentation disagree

The model follows the code.

- `core/session.h:79-80` says FIN is emitted by a pump that finds the queue
  empty. The pump reads the end-of-output flag after draining, so a frame pushed
  in between follows FIN: `Protocol.FrameFollowsFinIff` gives the exact condition
  and `Protocol.FinCanOvertake` such a run.
- `ports/transport_port.h:13-18` says that a refused send may be retried and that
  no output follows FIN. The pump ignores the answer, and the adapter ignores that
  of the transport. So data is gone that is sent before the stream is bound, or to
  a stream that takes none: one that runs towards the daemon only, one that the
  peer stopped or that was reset, one whose FIN has left. `Peer.StreamLossIff` says exactly when; the
  lemmas behind it show each case, and `Wire.WindowCanLose` a whole run.
- `ports/child_port.h:18-19` says that a write to the child returns the number of
  bytes accepted. The pipe is non-blocking (`adapters/child_process.c:272-277`), the
  adapter writes once (`adapters/transport_picoquic.c:167-173`) and the session only
  logs the answer (`core/session.c:49-52`). So what a full pipe does not take is
  lost, and a message taken in part is parsed together with the next one.
  `EndToEnd.Safety` and `EndToEnd.Completeness` say what then comes back,
  `EndToEnd.TakenWholeIff` that it is the messages if and only if every write was
  taken whole, and `EndToEnd.RefusedIsLost` gives runs in which one is not.
- The datagram queue keeps empty datagrams, but the HTTP/3 layer gives no buffer for
  them (`thirdparty/picoquic/picohttp/h3zero_common.c:1746`), so an empty one never
  gets through: `Peer.GivenDatagrams`.
- `core/frame.h:43` has the decoder ask for more bytes while a frame is not
  complete. It also asks when the length is cut off and already too big whatever
  follows: `Frames.CanBecomeFrameIff` says exactly when a continuation can still be a
  frame, and `Frames.AsksInVain` gives an input for which none is.
- The comment at `thirdparty/mbedtls/library/bignum_core.c:1155-1161` says the gcd
  loop ends with `r = 0` in a fixed point. That holds exactly for coprime inputs:
  `GcdExit.ExitRowZeroIff`, `GcdExit.ExitIsFixedPointIff`, `GcdExit.ExitCanMove`.
  The gcd and the inverse the routine returns are not affected.
- `README.md:112` calls the length field LEB128 of one to nine bytes. The code
  uses the integer of section 16 of RFC 9000, of one, two, four or eight bytes.
- The frame format allows a length longer than the shortest form. A payload near
  the 16 MiB limit with an eight-byte length is decodable but does not fit the
  reader's buffer, and the reader stops: `Streams.FrameAccepted`.
- `thirdparty/mbedtls/library/bignum_core.h:650` gives `RR` as the residue of
  2^(2 biL), for limbs of biL bits. The code needs, and
  `mbedtls_mpi_core_get_mont_r2_unsafe` computes, the residue of 2^(2 biL n) for n
  limbs; that is what `ExpMod` requires.

## Model

| member | source | states |
|---|---|---|
| `Varint.DecodeMeetsStandard` | core/frame.c:53-94 | the decoder asks for more bytes exactly when the form named by the two top bits is incomplete, and otherwise returns the value that section 16 of RFC 9000 gives those bytes |
| `Varint.VarintDecodes` | core/frame.c:53-94 | any RFC 9000 encoding, also one longer than needed, decodes to its value whatever follows |
| `Varint.EncodeMeetsStandard` | core/frame.c:13-104 | below 2^62 the encoder writes an RFC 9000 integer for the value, of the size the size function announces |
| `Varint.RoundTrip` | core/frame.c:13-94 | decoding undoes encoding for every value below 2^62, with any bytes behind |
| `Varint.Shortest` | core/frame.c:13-48 | no RFC 9000 encoding of the value is shorter than the one written |
| `Varint.LeastValueIsLeast` | core/frame.c:53-94 | a truncated integer has, with zeros for the missing bytes, the least value its bytes can be the front of |
| `Varint.Reencode` | core/frame.c:13-94 | encoding a decoded value again never takes more bytes and decodes to the same value |
| `Varint.WriteLong` | core/frame.c:32-46 | the eight bytes of the long form, and no other byte of the buffer, are written |
| `Varint.EncodeVarint` | core/frame.c:13-48 | the encoding is written in place, its length returned, and nothing else is touched |
| `Frames.DecodeMeetsFormat` | core/frame.c:126-155 | decoding succeeds with n bytes and frame f if and only if the first n bytes are f in the frame format |
| `Frames.VerdictMeetsFormat` | core/frame.c:126-155 | every verdict by the wire format alone: a frame if and only if one starts the input; reserved if and only if the flag byte has a bit above the lowest; too big if and only if a complete length above 16 MiB follows a legal flag; more bytes needed for all other inputs |
| `Frames.CanBecomeFrameIff` | core/frame.c:126-155 | the input starts with no frame but some continuation of it is one if and only if the decoder asks for more and the length, with zeros for what is missing of it, is at most 16 MiB |
| `Frames.AsksInVain` | core/frame.c:139-144 | an input for which the decoder asks for more though no continuation is a frame |
| `Frames.EncodingIsFrame` | core/frame.c:106-124 | the bytes written for a legal frame are in the frame format, of the announced length |
| `Frames.RoundTrip` | core/frame.c:106-155 | decoding an encoded frame with anything behind it gives the frame and its length |
| `Frames.VerdictIsFinal` | core/frame.c:126-155 | a verdict other than "incomplete" does not change when more bytes arrive |
| `Frames.ProperPrefix` | core/frame.c:126-155 | every proper prefix of an encoded frame is incomplete, never malformed |
| `Frames.DecodedFrame` | core/frame.c:126-155 | a decoded frame is legal, takes at least two bytes, and its own encoding is no longer than the bytes it came from |
| `Frames.Encode` | core/frame.c:106-124 | the four outcomes in the order of the checks; on success exactly the encoding is written, on failure nothing |
| `Streams.ParseAppend` | adapters/child_output.c:38-78 | parsing a stream in two pieces, keeping the bytes held back, equals parsing it at once |
| `Streams.ParseMonotone` | adapters/child_output.c:38-78 | frames found never depend on what arrives later |
| `Streams.ParseEncoded` | adapters/child_output.c:38-78 | encoded frames at the front of a stream are parsed exactly, before anything behind them |
| `Streams.UniquelyDecodable` | core/frame.c:106-155 | the concatenated encodings of legal frames parse to those frames with nothing left over |
| `Streams.EncodedNeverStops` | adapters/child_output.c:26-78 | any prefix of such a stream yields a prefix of the frames, holds back less than a buffer and never counts as malformed or full |
| `Streams.BufferSizeIsTight` | adapters/child_output.c:26 | one byte less of buffer would not hold the largest frame |
| `Streams.FrameAccepted` | adapters/child_output.c:26-78 | a frame in any legal form is delivered if it fits the buffer and stops the reader if not, and only eight-byte lengths of payloads within four bytes of the limit do not fit |
| `Streams.WaitingIsShort` | adapters/child_output.c:38-78 | the bytes held back are fewer than a buffer and hold no complete frame |
| `Streams.ParsedFramesLegal` | core/frame.c:126-155 | every frame parsed from any bytes is legal |
| `Streams.ReencodingShrinks` | examples/echo.c:99-113 | re-encoding the parsed frames takes no more bytes than they were parsed from |
| `Reassembly.Source.Read` | adapters/child_output.c:46-55 | a read: some prefix of what is left, at most the space given, zero only at the end, or an interruption or a failure that changes nothing |
| `Reassembly.Discard` | adapters/child_output.c:75-76 | moving the rest of the buffer down keeps exactly those bytes |
| `Reassembly.TakeFrame` | adapters/child_output.c:58-77 | taking a decoded frame off the buffer keeps the parse of the whole |
| `Reassembly.ReadChunk` | adapters/child_output.c:38-78 | a read of any size continues the parse of the stream where it stood |
| `Reassembly.ReadMore` | adapters/child_output.c:38-78 | a round that parses what is held and what it read continues the parse of the whole stream |
| `Reassembly.StopReading` | adapters/child_output.c:38-78 | when the loop ends, the frames are the parse of the whole stream, or a prefix of it if a read failed |
| `ChildOutput.QueueAndWake` | adapters/child_output.c:71-74 | the frame is queued and then, if there is a callback, the network thread is woken, in this order in the log |
| `ChildOutput.DeliverOne` | adapters/child_output.c:71-76 | one frame is queued and then the network thread is woken, in this order in the log, and the rest of the buffer is kept |
| `ChildOutput.DeliverBuffered` | adapters/child_output.c:58-77 | every complete frame in the buffer is queued in order, with a wake-up behind each, and the incomplete rest is kept, or the loop ends at a malformed frame |
| `ChildOutput.DeliverChunk` | adapters/child_output.c:56-77 | the frames queued are the parse of the bytes held and the bytes read |
| `ChildOutput.ReadOnce` | adapters/child_output.c:40-78 | one round of the loop: what it queues is the parse of the bytes held and read, logged behind the read; it goes on only after an interruption or a delivery, and ends only at the end of the stream, at a malformed frame or at a failed read |
| `ChildOutput.NextRound` | adapters/child_output.c:38-78 | a round adds to the trace exactly the bytes it read and the frames they complete |
| `ChildOutput.ReadAll` | adapters/child_output.c:28-78 | for every stream and every sequence of read results, the frames queued are the parse of the stream, and after each read those complete by then, before the next read |
| `ChildOutput.ReaderMain` | adapters/child_output.c:28-87 | the log of the reader: after each read it queues the frames complete by then, a wake-up behind each, and when its loop has ended it sets the flag, once and last, and wakes; with the flag not set before, these steps are a run of the hand-over; the frames are the parse of the stream |
| `ChildOutput.ReaderKeepsOrder` | adapters/child_output.c:71-81 | the reader's steps of the hand-over are a push for each of its frames, in order, and then one setting of the flag |
| `ChildOutput.ReaderIsPrompt` | adapters/child_output.c:38-81 | in the log of the reader: before each read and before the flag it has pushed exactly the frames complete in the bytes taken by then |
| `ChildOutput.SetEofAndWake` | adapters/child_output.c:80-84 | the flag is set and then the network thread woken |
| `WorkQueue.Queue.constructor` | core/work_queue.c:14-18 | an empty list |
| `WorkQueue.Queue.Push` | core/work_queue.c:30-43 | the linked list holds the old frames in order and the new one last; a null node is ignored |
| `WorkQueue.Queue.Drain` | core/work_queue.c:45-52 | the whole list is handed out, still linked in order, and the queue is empty |
| `WorkQueue.Queue.Destroy` | core/work_queue.c:20-28 | every node is freed once, in order |
| `Protocol.ConservedStep` | core/session.c:81-124 | each step of reader or pump keeps: frames pushed = frames handed over, then the detached batch, then the queue |
| `Protocol.Conservation` | core/session.c:81-124 | in every interleaving no frame is lost, repeated or overtaken |
| `Protocol.QueueIsSinceDrain` | core/work_queue.c:30-52 | the queue always holds what was pushed since the last drain |
| `Protocol.FinOnce` | core/session.c:118-123 | in every interleaving FIN is accepted at most once, is recorded exactly then, and never before the end-of-output flag |
| `Protocol.AfterFin` | core/session.c:102-124 | once FIN is accepted, only the frames then queued or detached can still be handed over, in order |
| `Protocol.FinOrdering` | core/session.c:102-124 | what is handed over after FIN was pushed between the drain and the flag test of the pump that sent it |
| `Protocol.FrameFollowsFinIff` | core/session.c:102-124 | a frame can follow FIN if and only if the reader pushed one in that window |
| `Protocol.WindowFollows` | core/session.c:102-124 | in every run with an accepted FIN, the frames handed over behind it, those detached and those queued are exactly those pushed in its window, in order |
| `Protocol.FinCanOvertake` | core/session.c:102-124 | a run in which FIN goes out with a frame still queued |
| `Protocol.PumpIsRun` | core/session.c:102-124 | an uninterrupted pump is a run of the machine, with this end state |
| `Protocol.ReaderIsRun` | adapters/child_output.c:71-81 | a reader that pushes its messages and then sets the flag is a run of the machine, with this end state |
| `Protocol.ReaderNeverBlocked` | adapters/child_output.c:71-81 | in every interleaving with pumps the next step of such a reader is enabled, so each interleaving is a run |
| `Protocol.KindIsFirstByte` | core/session.c:107-113 | a frame in any legal form is sent on the stream if its first byte is zero and as a datagram if it is one |
| `Session.Session.constructor` | core/session.c:21-29 | empty queue, no flags set, no calls made |
| `Session.Session.DeliverToChild` | core/session.c:34-57 | one write of one encoded frame, or nothing when input is closed or the message is too large |
| `Session.Session.DeliverStream` | core/session.c:59-62 | a stream message of one byte to 16 MiB reaches an open input as one frame whose first byte is 0; any other is not written |
| `Session.Session.DeliverDatagram` | core/session.c:64-67 | a datagram of one byte to 16 MiB reaches an open input as one frame whose first byte is 1; any other is not written |
| `Session.Session.DeliverFin` | core/session.c:69-76 | the child's input is closed, once |
| `Session.Session.DeliverRun` | core/session.c:34-76 | any sequence of peer events does to the child port what the event function says |
| `Session.DeliverAllCalls` | core/session.c:34-76 | the calls at the child port are one write per acceptable message before the first FIN, in order, then one close if there was a FIN |
| `Session.ChildInputProtocol` | core/session.c:34-76 | over every run: the bytes of the write calls are the encodings of the acceptable messages, they parse back to exactly those, and nothing is written or closed after the close |
| `Session.MessageOnTheWire` | core/session.c:34-67 | on the wire, a message is one frame in the format, with flag byte 0 if it came on a stream and 1 if it was a datagram |
| `Session.EchoesAreAccepted` | core/session.c:34-116 | a message accepted from a stream is, echoed, a message for the stream, and a datagram a datagram |
| `Session.Session.OnOutput` | core/session.c:81-96 | the frame is appended to the queue, for the stream if its flag is 0 and as a datagram otherwise, and this is logged as one push |
| `Session.Session.Enqueue` | core/session.c:81-96 | a new node with the frame is linked behind the others |
| `Session.Session.OnOutputEof` | core/session.c:98-100 | the end-of-output flag is set, nothing else changes, and this is logged as one step |
| `Session.Session.Pump` | core/session.c:102-124 | the log gets the steps of a pump in their order: drain, one send for each frame, load of the flag; the queued frames go to the port in order, by stream or datagram as flagged, then FIN if due; the end state is that of the protocol's uninterrupted pump |
| `Session.Session.SendFrame` | core/session.c:106-112 | flag 0 calls the port for the stream, any other flag for a datagram |
| `Session.Session.SendDetached` | core/session.c:105-116 | the detached list is handed over completely and in order |
| `Session.Session.DetachAll` | core/session.c:103 | the whole queue is detached, in order, and this is logged as the drain |
| `Session.Session.TryFin` | core/session.c:118-123 | FIN is tried exactly if the flag is set and no FIN was accepted, recorded exactly if accepted, and this is logged as the load of the flag |
| `Session.Session.Destroy` | core/session.c:126-128 | every queued frame is freed once |
| `Peer.QueueSafe` | adapters/transport_picoquic.c:127-150 | in every reachable state the transport is armed exactly while a datagram waits, and the datagrams sent are those that left and those that wait, in order |
| `Peer.CallbacksDrain` | adapters/transport_picoquic.c:344-363 | each callback takes one datagram and the next is announced until none waits, whatever room the transport has |
| `Peer.NeverStalls` | adapters/transport_picoquic.c:344-363 | from any reachable state, as many callbacks as datagrams wait are all called for, and then every datagram sent has left in order |
| `Peer.GivenDatagrams` | thirdparty/picoquic/picohttp/h3zero_common.c:1740-1756 | the transport gets exactly the datagrams it gave a buffer for, in the order sent, and all of them if and only if every callback that found one had room for it and it was not empty; an empty one never gets through |
| `Peer.StreamKnown` | adapters/transport_picoquic.c:314-323 | the stream is bound once, to the first stream with data that is not the control stream; a FIN leaves only if it was asked for since |
| `Peer.EndIsFirst` | thirdparty/picoquic/picoquic/sender.c:245-309 | the end of the stream is the first point at which it runs one way only, it was stopped, or its FIN has left |
| `Peer.StreamCarries` | adapters/transport_picoquic.c:113-125 | the stream carries exactly what was sent from its binding on until it takes no more data |
| `Peer.StreamLossIff` | adapters/transport_picoquic.c:113-125 | the stream carries everything sent if and only if nothing was sent before the binding and nothing behind its end |
| `Peer.SendBeforeBinding` | adapters/transport_picoquic.c:113-118 | a run that loses a byte sent before the binding |
| `Peer.DirectionBit` | thirdparty/picoquic/picoquic/frames.c:85-91 | of the four kinds of streams the first two run both ways |
| `Peer.SendOneWay` | thirdparty/picoquic/picoquic/frames.c:85-91 | a run that loses a byte because the stream bound, of the third or fourth kind, runs one way only |
| `Peer.SendAfterStop` | thirdparty/picoquic/picoquic/sender.c:264-267 | a run that loses a byte because the stream was stopped |
| `Peer.SendBehindFin` | thirdparty/picoquic/picoquic/frames.c:2038-2048 | a byte handed over behind FIN is still carried while the FIN waits |
| `Peer.SendBehindSentFin` | thirdparty/picoquic/picoquic/frames.c:2038-2048 | a run that loses a byte because the FIN has left |
| `Peer.BoundForGood` | adapters/transport_picoquic.c:319-323 | a bound stream stays bound to the same stream in every run |
| `Peer.Peer.constructor` | adapters/transport_picoquic.c:197-208 | the start state of the protocol |
| `Peer.Peer.AddToStream` | thirdparty/picoquic/picoquic/sender.c:245-309 | data counts for the stream if it can still be sent on it, and the caller does not look |
| `Peer.Peer.SendStream` | adapters/transport_picoquic.c:113-125 | accepted if and only if bound, whatever the transport then does; the fields stay those of the protocol state reached |
| `Peer.Peer.SendFin` | adapters/transport_picoquic.c:152-161 | accepted if and only if bound; the fields stay those of the protocol state reached |
| `Peer.Peer.Append` | adapters/transport_picoquic.c:129-145 | the linked list holds the old datagrams in order and the new one last |
| `Peer.Peer.Unlink` | adapters/transport_picoquic.c:346-356 | the oldest datagram is taken out, and head and tail agree on whether any is left |
| `Peer.Peer.Dequeue` | adapters/transport_picoquic.c:345-362 | head, tail, flag and the data given are those of one callback |
| `Peer.Peer.SendDatagram` | adapters/transport_picoquic.c:127-150 | takes the protocol's step: queued last, transport armed |
| `Peer.Peer.ProvideDatagram` | adapters/transport_picoquic.c:344-363 | takes the protocol's step; the oldest datagram is copied if there is room and it is not empty, and dequeued either way |
| `Peer.Peer.OnFinLeaves` | thirdparty/picoquic/picoquic/frames.c:2038-2048 | the transport has sent off the FIN: the stream takes no more |
| `Peer.Peer.OnStop` | thirdparty/picoquic/picoquic/frames.c:1109-1145 | a stream was stopped by the peer or reset: it takes no more |
| `Peer.Peer.OnPost` | adapters/transport_picoquic.c:309-330 | takes the protocol's step; data and end of data go to the session unless they are on the control stream |
| `Wire.RunAgrees` | adapters/transport_picoquic.c:113-161 | the reliable and unreliable payloads and the FINs among the calls a peer answers are those it was sent |
| `Wire.OnTheWire` | core/session.c:102-124 | for every run of the hand-over and every run of a peer that answers its calls: the datagrams that left the queue or wait are the unreliable frames handed over, in order; the reliable ones are what was sent before the binding, what the stream carries and what was sent behind its end; at most one FIN is sent, after the child's output ended |
| `Wire.NothingLostIff` | core/session.c:102-124 | with the hand-over at rest: the datagrams given to the transport and those waiting are all the child wrote if and only if every callback that found one had room for it and it was not empty; the stream carries all its reliable data if and only if none was sent before the binding and none behind the end of the stream |
| `Wire.CleanWindow` | core/session.c:102-124 | nothing is sent behind the end of a stream that only its FIN can end, if the reader pushed no reliable data between the drain and the flag test of the pump that sent FIN |
| `Wire.WindowCanLose` | core/session.c:102-124 | a run of both machines in which a message for the stream pushed in that window is lost |
| `Wire.EchoedOnTheWire` | core/session.c:34-124 | the whole loop at rest: the frames in what the child's pipe took are given to the transport and carried by the stream, in order, under exactly those conditions, and they are the messages delivered if and only if the pipe took every message whole |
| `Echo.Sink.Write` | examples/echo.c:42-49 | a write: some prefix is taken, or an interruption or a failure that writes nothing |
| `Echo.WriteAll` | examples/echo.c:39-52 | success means every byte was written, in order; failure leaves a prefix and needs a refusing sink; nothing is read meanwhile |
| `Echo.EchoOne` | examples/echo.c:99-113 | one frame's encoding is written and its bytes dropped, or the write was refused |
| `Echo.EchoBuffered` | examples/echo.c:84-114 | every complete frame in the buffer is echoed, with the exit code of what ended the loop |
| `Echo.EchoMain` | examples/echo.c:54-119 | for every input and all read and write results, the output is a prefix of the re-encoded parse of the input, and all of it with the right exit code unless a read or write failed; the codes for those need such a failure; before each read all complete frames read so far have been answered |
| `Echo.PromptMore` | examples/echo.c:64-115 | a round that reads once and then only writes keeps this order |
| `Echo.EchoKeepsFrames` | examples/echo.c:54-119 | parsing the echo gives the frames of the input |
| `Echo.EchoCanonical` | examples/echo.c:54-119 | the echo is never longer than the frames it came from, leaves encoded streams alone and is idempotent |
| `EndToEnd.StepKeeps` | core/session.c:34-124 | each step of peer, child, reader or pump, with writes to the child cut anywhere, keeps: the frames the child took and those still on the way to it are the parse of what its pipe took, and every frame it took is handed over, queued or on the way out |
| `EndToEnd.ExitKeeps` | examples/echo.c:64-118 | a child that leaves, at the end of its input, at a malformed frame or at a full buffer, has taken every frame that what its pipe took will ever hold; the reader leaves only after all the child wrote has gone through, never at a malformed frame or a full buffer |
| `EndToEnd.TakenWholeIff` | adapters/transport_picoquic.c:167-173 | for every run and every count of bytes taken of each write: what the child's pipe took parses to the messages delivered if and only if every write was taken whole |
| `EndToEnd.Safety` | core/session.c:34-124 | in every run of the whole loop the port has been handed a prefix of the frames in what the child's pipe took, and a prefix of the messages delivered, contents and flags included, if every write was taken whole |
| `EndToEnd.CleanExit` | examples/echo.c:64-118 | if every write was taken whole, the child leaves only after the peer has closed and it has taken every message: it meets no malformed frame and no full buffer |
| `EndToEnd.Completeness` | core/session.c:34-124 | when nothing is left to do the port has been handed exactly the frames in what the child's pipe took; they are the messages delivered if and only if every write was taken whole; the end of output has been reported if and only if the peer has closed or the child was left a frame it cannot read |
| `EndToEnd.RefusedIsLost` | core/session.c:49-52 | two messages, nothing taken of the first: however the loop goes on, at rest the port has been handed the second alone |
| `EndToEnd.Progress` | adapters/child_output.c:38-87 | every step that is not the peer's or an idle pump lowers a bound on the work left, so the loop comes to rest between peer events |
| `EndToEnd.ComesToRest` | adapters/child_output.c:38-87 | from every state there is a run without the peer after which nothing is left to do |
| `EndToEnd.DeliveredIsAccepted` | core/session.c:34-76 | the messages delivered are the acceptable ones among the peer's events before its FIN, whatever the pipe took of them |
| `EndToEnd.PeerIsEchoed` | core/session.c:34-124 | at rest the port has been handed what the peer sent before its FIN, messages of one byte to 16 MiB, in order, streams on the stream and datagrams as datagrams, if and only if every write to the child was taken whole |
| `EndToEnd.CoreIsRun` | core/session.c:81-124 | a run of the whole loop is a run of the hand-over, so what holds of every interleaving of reader and pump holds of it |
| `EndToEnd.FinEndToEnd` | core/session.c:98-124 | FIN is accepted at most once; at rest, the messages behind it are exactly those pushed in its window, so every message precedes it if and only if that window is empty |
| `EndToEnd.NextPumpSendsFin` | core/session.c:118-123 | at rest after the end of the output, the next pump whose FIN is accepted sends it, once, behind every frame in what the child's pipe took |
| `Rounds.ReaderDelivers` | adapters/child_output.c:58-77 | the reader's inner loop on the pipeline: one step per frame, ending with the frames queued and the rest held |
| `Rounds.ReaderRound` | adapters/child_output.c:40-78 | one round of the reader is a run of the pipeline, for every read size and any state of the pump; when the loop ends the reader's stop is enabled |
| `Rounds.EchoDelivers` | examples/echo.c:84-114 | the child's inner loop on the pipeline, one frame taken and written after the other |
| `Rounds.EchoRound` | examples/echo.c:64-115 | one round of the echo child is a run of the pipeline, for all read and write sizes; when the loop ends the child's exit is enabled |
| `Cmdline.ReadEncoded` | adapters/cmdline.c:12-105 | one printed argument, empty or with any spaces, quotes and backslashes, is read back exactly and reading stops behind it |
| `Cmdline.RoundTrip` | adapters/cmdline.c:12-105 | every argument list is read back from its command line by the Microsoft rules, under both conventions for doubled quotes |
| `Cmdline.Injective` | adapters/cmdline.c:31-105 | different argument lists have different command lines |
| `Cmdline.ReadPair` | adapters/cmdline.c:12-30 | the reader of the later convention takes two quotes inside a quoted part, behind 2n backslashes, as n backslashes and a quote |
| `Cmdline.BareBody` | adapters/cmdline.c:50-93 | an argument without a quote in it has its text printed unchanged when it needs no quotes |
| `Cmdline.BareIff` | adapters/cmdline.c:45-46 | an argument is printed as it is if and only if it is not empty and has no space, no tab and no quote; any other is printed between quotes |
| `Cmdline.QuotedIsEscaped` | adapters/cmdline.c:44-96 | between the quotes, character by character: a quote gets a backslash, so does every backslash of a run that ends at a quote or at the end, and nothing else is changed |
| `Cmdline.PrintRule` | adapters/cmdline.c:40-43 | the arguments stand on the command line in order, with exactly one space between two |
| `CmdlineBuffers.Put` | adapters/cmdline.c:36-38 | a character is written exactly when there is room for it and the NUL |
| `CmdlineBuffers.PutSlashes` | adapters/cmdline.c:62-81 | a run of backslashes is written exactly when it fits, and never beyond the capacity |
| `CmdlineBuffers.PutRun` | adapters/cmdline.c:52-82 | a run is written doubled before a quote or the closing quote and unchanged elsewhere |
| `CmdlineBuffers.PutBody` | adapters/cmdline.c:50-93 | the text of the argument is written exactly when it fits |
| `CmdlineBuffers.PutArg` | adapters/cmdline.c:44-96 | the argument is written with its quotes exactly when it fits |
| `CmdlineBuffers.BuildCmdline` | adapters/cmdline.c:31-105 | success if and only if the command line and its NUL fit; then the buffer holds exactly that, and bytes beyond the capacity are never touched |
| `CmdlineSplit.SplitUndoesPrint` | adapters/cmdline.c:31-141 | splitting a printed list gives the list back if and only if it has room and no argument has a quote, or a final backslash together with a space |
| `CmdlineSplit.FirstToken` | adapters/cmdline.c:31-141 | the first token of a printed list is its first argument if and only if that argument survives |
| `CmdlineSplit.TokensRule` | adapters/cmdline.c:111-138 | for every text: none for blanks only; otherwise the first token starts behind the blanks, goes to the next quote if it starts with one and to the next space or tab if not, and the rest are those of the text behind |
| `CmdlineSplit.SkipBlanks` | adapters/cmdline.c:114-116 | blanks in front are passed over and nothing else |
| `CmdlineSplit.ScanToken` | adapters/cmdline.c:120-132 | the token ends at the quote, the blank or the end of the text |
| `CmdlineSplit.MarkToken` | adapters/cmdline.c:133-137 | the token is NUL-terminated where it stands and recorded, and tokens found before and the text behind are intact |
| `CmdlineSplit.TakeToken` | adapters/cmdline.c:120-137 | the first token of the text is found, marked and recorded, and what is left is the text behind it |
| `CmdlineSplit.SplitText` | adapters/cmdline.c:111-138 | the loop finds all tokens of the text, as many as there is room for |
| `CmdlineSplit.SplitCmdline` | adapters/cmdline.c:107-141 | argv gets the tokens of the text, NUL-terminated in place, in order and without overlap, then a null; null arguments and no capacity give zero |
| `CmdlineRoundTrip.PrintNoNul` | adapters/cmdline.c:31-105 | the command line of C strings is a C string |
| `CmdlineRoundTrip.TextOf` | adapters/cmdline.c:107-141 | the text of a buffer that holds a C string is that string, whatever is behind it |
| `CmdlineRoundTrip.BuildThenSplit` | adapters/cmdline.c:31-141 | on the buffers: the build succeeds if and only if text and NUL fit; then the tokens found in place are the arguments if and only if argv has room and every argument survives |
| `MulAdd.AddInto` | thirdparty/mbedtls/library/bn_mul.h:1036-1041 | adding a limb to a two-limb number loses no carry |
| `MulAdd.MulAddDouble` | thirdparty/mbedtls/library/bn_mul.h:1030-1044 | with a double-width type: low and high limb are s b + d + c exactly |
| `MulAdd.MulAddHalves` | thirdparty/mbedtls/library/bn_mul.h:1048-1070 | from four half-limb products with wrapping additions: the same exact result |
| `LimbOps.SubLimbs` | thirdparty/mbedtls/library/bignum_core.c:445-460 | X - borrow weight = A - B exactly, in place or not |
| `LimbOps.AddIf` | thirdparty/mbedtls/library/bignum_core.c:424-443 | adds A or nothing, with the exact carry, also when A is X |
| `LimbOps.Mla` | thirdparty/mbedtls/library/bignum_core.c:462-498 | d + carry weight = d + s b exactly, the carry run through all of d |
| `LimbOps.PropagateCarry` | thirdparty/mbedtls/library/bignum_core.c:491-497 | the carry loop keeps the accumulated sum |
| `LimbOps.LtCt` | thirdparty/mbedtls/library/bignum_core.c:133-167 | true if and only if A < B as numbers, looking at every limb |
| `LimbOps.CondAssign` | thirdparty/mbedtls/library/bignum_core.c:169-186 | all limbs assigned, or none changed |
| `LimbOps.CondSwap` | thirdparty/mbedtls/library/bignum_core.c:188-202 | all limbs exchanged, or none changed |
| `LimbOps.ShiftR` | thirdparty/mbedtls/library/bignum_core.c:331-369 | X becomes X divided by two to the count, for every count |
| `Montgomery.SeedInverts` | thirdparty/mbedtls/library/bignum_core.c:516-518 | the seed is right modulo 16 for every odd number |
| `Montgomery.BitsDouble` | thirdparty/mbedtls/library/bignum_core.c:520-522 | a Newton step in wrapping arithmetic doubles the number of correct bits |
| `Montgomery.MontMulInit` | thirdparty/mbedtls/library/bignum_core.c:514-525 | N[0] times the constant is -1 modulo the base |
| `Montgomery.MontRound` | thirdparty/mbedtls/library/bignum_core.c:538-547 | one round: the new window times the base is exactly T + u0 B + u1 N, and nothing carries out of n + 2 limbs |
| `Montgomery.CarryAndBorrow` | thirdparty/mbedtls/library/bignum_core.c:559-580 | the subtraction's result is the right one exactly when carry and borrow agree |
| `Montgomery.ReduceOnce` | thirdparty/mbedtls/library/bignum_core.c:549-580 | T - N if T >= N, else T |
| `Montgomery.MontMul` | thirdparty/mbedtls/library/bignum_core.c:527-581 | X is below N and X R is congruent to A B modulo N, for short B and with X aliasing A or B |
| `ExpMod.MontProduct` | thirdparty/mbedtls/library/bignum_core.c:527-581 | the Montgomery product of two representations represents the product |
| `ExpMod.MontUnique` | thirdparty/mbedtls/library/bignum_core.c:1000-1009 | a residue has one Montgomery representation |
| `ExpMod.RadixSquared` | thirdparty/mbedtls/library/bignum_core.c:583-595 | the number computed for RR is the Montgomery representation of R, for any modulus |
| `ExpMod.ToMontRep` | thirdparty/mbedtls/library/bignum_core.c:1000-1009 | X represents A |
| `ExpMod.FromMontRep` | thirdparty/mbedtls/library/bignum_core.c:1011-1021 | X is the residue that A represents |
| `ExpMod.Clz` | thirdparty/mbedtls/library/bignum_core.c:25-52 | the number of zero bits above the top bit |
| `ExpMod.BitLen` | thirdparty/mbedtls/library/bignum_core.c:54-67 | the number lies between the two powers of two its length names |
| `ExpMod.FirstBit` | thirdparty/mbedtls/library/bignum_core.c:762-802 | reading starts above every set bit of the exponent, public or secret |
| `ExpMod.WindowSize` | thirdparty/mbedtls/library/bignum_core.c:696-708 | one for exponents up to 79 bits, and never more than six or than the configured maximum |
| `ExpMod.WindowIsOptimal` | thirdparty/mbedtls/library/bignum_core.c:696-708 | the bounds 79, 239 and 671 are where they should be: a window is used exactly from where four bits cost no more products than three, and of the configured sizes from four up it is the cheapest, the largest among equals |
| `ExpMod.PrecomputeWindow` | thirdparty/mbedtls/library/bignum_core.c:723-748 | entry i of the table represents the i-th power of the base |
| `ExpMod.TableLookup` | thirdparty/mbedtls/library/bignum_core.c:809-833 | the entry for the window, by index or by reading the whole table |
| `ExpMod.NextExponentBit` | thirdparty/mbedtls/library/bignum_core.c:908-918 | the bit below the present position, across limbs |
| `ExpMod.ReadBit` | thirdparty/mbedtls/library/bignum_core.c:904-933 | X stays the power for the bits read less those still in the window |
| `ExpMod.ReadExponent` | thirdparty/mbedtls/library/bignum_core.c:899-933 | X ends as the power for the whole exponent |
| `ExpMod.ExpModMont` | thirdparty/mbedtls/library/bignum_core.c:850-970 | if A represents g, X represents g to the power E, for public and secret exponents alike |
| `ExpMod.ExpModResidue` | thirdparty/mbedtls/library/bignum.c:1702-1714 | X = A^E mod N |
| `GcdSteps.StepDivisors` | thirdparty/mbedtls/library/bignum_core.c:1165-1195 | a step leaves the set of common divisors alone |
| `GcdSteps.StepInv` | thirdparty/mbedtls/library/bignum_core.c:1148-1153 | every iteration keeps every loop invariant the source lists |
| `GcdSteps.StepsLeftDrops` | thirdparty/mbedtls/library/bignum_core.c:1162-1165 | from u > 0 each step lowers a bound made of the binary digits of min(u, v - u) and of their distance |
| `GcdSteps.StepsLeftBound` | thirdparty/mbedtls/library/bignum_core.c:1162-1165 | that bound starts at no more than bitlen(A) + bitlen(N) |
| `GcdSteps.EnoughIterations` | thirdparty/mbedtls/library/bignum_core.c:1155-1165 | bitlen(A) + bitlen(N) iterations always end with u = 0, v the gcd, and q the inverse if v is one |
| `GcdSteps.CountIsTight` | thirdparty/mbedtls/library/bignum_core.c:1162-1165 | one iteration fewer is not enough for some input |
| `GcdExit.NextRowTracks` | thirdparty/mbedtls/library/bignum_core.c:1165-1235 | the unreduced cofactors keep determinant n or -n, up to powers of two |
| `GcdExit.ExitRowZeroIff` | thirdparty/mbedtls/library/bignum_core.c:1155-1159 | after the loop r is zero if and only if A and N are coprime |
| `GcdExit.ExitIsFixedPointIff` | thirdparty/mbedtls/library/bignum_core.c:1161 | another iteration changes nothing if and only if A and N are coprime |
| `GcdExit.FixedPointIff` | thirdparty/mbedtls/library/bignum_core.c:1161 | with u = 0 another iteration keeps u and v, and keeps the whole state if and only if r is zero |
| `GcdExit.ExitCanMove` | thirdparty/mbedtls/library/bignum_core.c:1161 | for A = 3 and N = 9 the state after the loop is no fixed point |
| `GcdModInv.SubModN` | thirdparty/mbedtls/library/bignum_core.c:1027-1035 | the difference of residues modulo N |
| `GcdModInv.Div2ModOdd` | thirdparty/mbedtls/library/bignum_core.c:1042-1051 | half of a residue modulo odd N |
| `GcdModInv.StepPair` | thirdparty/mbedtls/library/bignum_core.c:1166-1195 | u and v take one step; the three conditions are those of the numbers |
| `GcdModInv.StepCofactors` | thirdparty/mbedtls/library/bignum_core.c:1215-1234 | q and r mirror that step |
| `GcdModInv.Iteration` | thirdparty/mbedtls/library/bignum_core.c:1165-1235 | the arrays take the step of the numbers they hold |
| `GcdModInv.Iterations` | thirdparty/mbedtls/library/bignum_core.c:1165-1235 | the loop ends with no steps left and the invariants kept |
| `GcdModInv.IterationBound` | thirdparty/mbedtls/library/bignum_core.c:1162-1165 | the limb counts give enough iterations for every input |
| `GcdModInv.GcdModInvOdd` | thirdparty/mbedtls/library/bignum_core.c:1092-1238 | G is the gcd of A and N for every A up to odd N, and A times I is one modulo N whenever the gcd is one |
| `Base64.EncChar` | thirdparty/mbedtls/library/base64.c:27-39 | a digit whose value, by the decoding map, is the value given |
| `Base64.DecValue` | thirdparty/mbedtls/library/base64.c:42-57 | a value below 64 or -1, and never a value for padding, a line end or a space |
| `Base64.DigitsBijective` | thirdparty/mbedtls/library/base64.c:27-57 | encoding the value of a digit gives the digit |
| `Base64.EncCharInAlphabet` | thirdparty/mbedtls/library/base64.c:27-39 | the digit of a value is the character in that place of the alphabet of section 4 of RFC 4648 |
| `Base64.DecValueInAlphabet` | thirdparty/mbedtls/library/base64.c:41-57 | a character has a value if and only if it is in the alphabet, and its value is its place there |
| `Base64.GroupMeetsStandard` | thirdparty/mbedtls/library/base64.c:88-118 | each character of a group of one to three bytes, filled up with zero bits, is the base-64 digit of the big-endian number in its place, most significant first, or padding |
| `Base64.EncodedMeetsStandard` | thirdparty/mbedtls/library/base64.c:88-118 | every character of an encoding is that of its group, and the groups follow in order |
| `Base64.EncodedLength` | thirdparty/mbedtls/library/base64.c:74-86 | four characters for every three bytes or part of them |
| `Base64.ValuesCounted` | thirdparty/mbedtls/library/base64.c:141-242 | for a text that passes the first pass, the second pass sees exactly the digits counted, all of them values |
| `Base64.CheckIff` | thirdparty/mbedtls/library/base64.c:140-185 | the first pass accepts a text if and only if each character may stand where it stands, no digit is behind padding and there are at most two padding characters |
| `Base64.ValuesAreDigits` | thirdparty/mbedtls/library/base64.c:140-242 | for an accepted text, the second pass takes the places in the alphabet of all its digits, in order, and the first pass has counted digits and padding |
| `Base64.DecodesIff` | thirdparty/mbedtls/library/base64.c:140-195 | a text decodes if and only if the first pass accepts it and digits and padding come in fours |
| `Base64.GroupBytesMeetStandard` | thirdparty/mbedtls/library/base64.c:236-248 | the bytes of a group of two to four digits are the leading ones of the 24-bit number these digits make up, filled up with zeros |
| `Base64.BytesOfPieces` | thirdparty/mbedtls/library/base64.c:224-248 | the bytes of the groups follow each other in order |
| `Base64.LengthAgrees` | thirdparty/mbedtls/library/base64.c:209-252 | the length announced after the first pass is the number of bytes the second writes |
| `Base64.RoundTrip` | thirdparty/mbedtls/library/base64.c:62-255 | decoding undoes encoding for every byte sequence |
| `Base64.LineEndsIgnoredIff` | thirdparty/mbedtls/library/base64.c:141-227 | a line end put anywhere into a text that decodes leaves the result alone, if and only if it is not a CR LF put between a CR and its LF |
| `Base64.LineEndCanRepair` | thirdparty/mbedtls/library/base64.c:141-166 | a line end can make a text decode that did not |
| `Base64Buffers.Encode` | thirdparty/mbedtls/library/base64.c:62-124 | success if and only if the input is empty or encoding and NUL fit; then exactly those are written, and otherwise the size needed is returned and nothing written |
| `Base64Buffers.EncodeFull` | thirdparty/mbedtls/library/base64.c:90-101 | the loop writes the encoding of the whole groups |
| `Base64Buffers.EncodeNext` | thirdparty/mbedtls/library/base64.c:90-101 | one more group of three bytes is written behind the others |
| `Base64Buffers.EncodeRest` | thirdparty/mbedtls/library/base64.c:103-118 | the last one or two bytes and the padding |
| `Base64Buffers.CheckPass` | thirdparty/mbedtls/library/base64.c:141-185 | the loop with its skips and early exits is the recursive check of the text |
| `Base64Buffers.TakeDigit` | thirdparty/mbedtls/library/base64.c:233-241 | the low bits of the 32-bit accumulator are the digits of the group at hand, whatever earlier groups left above them |
| `Base64Buffers.DecodePass` | thirdparty/mbedtls/library/base64.c:224-248 | the bytes of the digits are written and nothing behind them |
| `Base64Buffers.Decode` | thirdparty/mbedtls/library/base64.c:129-255 | invalid if and only if the text has no decoding, else the decoded length; on success exactly the decoding is written; the corruption check never fires |

## Left out

- Memory allocation failure: every `malloc` in the modelled functions succeeds.
- Timing: the constant-time primitives are modelled by their values, not by what an observer of their running time learns.
- The operating system: spawning and reaping children, sockets, signals, the packet loop, the TLS and HTTP/3 layers and their wire formats.
- Loss on the network side: data and datagrams the QUIC library has taken but not delivered when the connection or the stream is torn down.
- `adapters/env.c`, logging, option parsing and bootstrap: they would only add easy members.
- The multi-precision layer above the limb arrays (sign, growth, copying, reading and writing numbers), random numbers, ciphers and hashes.
- Memory layout of workspaces: the power table is a sequence of limb sequences and the blocks of a workspace are separate arrays, not one block of limbs.
- Loop unrolling: the eight-fold multiply-add loop and the rest loop are one loop, since their bodies repeat the same step.
- Bitwise "or" of numbers without common bits, as in shifts and digit lookup, is written as a sum.
- Peer.Peer.AddToStream: has no answer, which the callers ignore, and does not count data that the library queues but never sends, on a stream that runs towards the daemon only or behind a FIN that has left.
- The queue's mutex: that each method is one atomic step is how the protocol model uses it.
- The freeing of a peer's queued datagrams and of a peer itself.
