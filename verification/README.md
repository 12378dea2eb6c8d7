# A verified model of an Android mirroring client

The program mirrors an Android device: it speaks the ADB wire protocol over one connection, splits that connection into
video, audio and control streams, decodes and draws the video, buffers the audio, and lets scripts drive the device. This
project models the parts whose correctness depends on many steps or threads, and proves what every run keeps. Run
`dafny verify dfyconfig.toml` here to check it.

## How the model is organised

Each component is a module. Code that changes state in place is a class or a method, and its contract ties the new state to
a function of the old one; the theorems are lemmas about those functions and about runs of them. Code shared by several
threads is a state machine whose steps are the atomic pieces of the source (a critical section, one Interlocked operation, one
semaphore operation), and a run is any sequence of enabled steps; the class beside it shows that the C code performs these steps.

| file | what it models | main results |
|---|---|---|
| `Bytes.dfy` | bytes, words, `memcpy` | little- and big-endian round trips, both ways |
| `Transport.dfy` | sends and receives that move any amount | the retry loops deliver a prefix, and all of it when the script allows |
| `Framing.dfy` | ADB messages | a stream parses to a list of messages iff it encodes them; a list arrives iff the calls it takes all move data, in any pieces; the TLS retry loop ends |
| `Outbound.dfy` | two senders under one lock | the wire parses to the messages sent iff no send was cut short; each thread's order is kept |
| `Session.dfy` | the channel table | ids strictly increase and are never offered twice; each message changes exactly what it addresses; disconnect tells each open channel once |
| `Demux.dfy` | one stream to three socketpairs | every WRITE is routed right iff the peer's timing is right; then the streams separate |
| `Ring.dfy` | ring-buffer laws | what the queues and the regulator share |
| `MessageQueue.dfy` | ring plus semaphore, any number of threads | bounded FIFO, no empty fetch; a drain restores the invariant iff as many tokens go as messages were discarded |
| `SharedFrame.dfy` | lock-free latest-frame slot | one owner per frame, no double free, frames seen in order, none stranded |
| `PacketQueue.dfy` | bounded monitor, one condition variable | no lost wake-up, FIFO, full drain after finish in every continuation, every buffer accounted for once |
| `ScriptQuery.dfy` | request and response with timeouts | a call gets its own answer iff no earlier call timed out |
| `Regulator.dfy` | the audio ring | push keeps the longest suffix that fits; that its counter may wrap around does no harm; over a run nothing vanishes, repeats or changes order, and nothing is dropped iff no push overflows |
| `VideoStream.dfy` | video packets, push-back, second parser | any packets parse back; the two parsers agree iff a stated condition |
| `SyncPush.dfy` | the file-push stream | decoding gives back the path and the bytes read, the whole file iff no read before its end fails; the peer gets it all iff every send goes through |
| `Nv12.dfy` | planar frame to buffer to texture | every byte written once but the padding of odd rows; lossless iff both dimensions are even (or the frame is empty) |
| `Letterbox.dfy` | click area and drawn area | they agree to under a pixel; the mapping is monotone and sends edges to edges |

## Where the code does not do what one would expect

- "Closed stays closed" is not a law: an OKAY (or OPEN) naming a closed channel opens it again (`src/adb/session.c:236-239`).
  `Session.ClosedStaysClosedIff` says for which messages it holds.
- CLSE looks up its first argument as the local id (`src/adb/session.c:265`), while OKAY and WRTE use the second one.
  `Session.HandleTable` states this as it is.
- While audio has no remote id the reader takes the sender of the first WRTE for it (`src/device/server.c:143-145`).
  `Demux.RoutedRightIffTimely` gives the exact timing the peer must keep, and `Demux.ControlBytesReachAudio` a run in which
  control bytes reach the audio socketpair.
- A would-block in the middle of a message makes the ADB receivers return with the bytes read so far lost
  (`src/adb/protocol.c:100-113`, `src/adb/protocol.c:160-165`). The comment there says the caller may retry.
  `Framing.RecvMsg` says exactly when a message is received, which bytes are gone otherwise, and when the TLS receiver
  answers 0; `Framing.WouldBlockLoses` and `Framing.RetryAfterWouldBlock` show that after a would-block within the header
  calling again does not get the message.
- Two callers of the receivers do not call again but act on that 0: the exchange after a TLS handshake
  (`src/adb/session.c:157-194`) and `session_poll` (`src/adb/session.c:318-321`) use whatever their buffers hold.
  `Framing.PassesOnIncompleteIff` says exactly when; by `Session.SplitStlsAnsweredIff` an STLS message cut off by a would-block
  within its header is not received but answered iff its command word is complete. The reader thread stops at 0.
- A length word of 2^31 or more passes the receivers' bound as a negative number (`src/adb/protocol.c:123`,
  `src/adb/protocol.c:175`). `recv` then fails; `tls_recv` (`src/adb/tls.c:212-215`) takes it for a huge size and reads on.
  `Framing.LengthBoundIff` says when the bound holds, and `Framing.OverrunIff` exactly when more can come than the payload
  buffer holds.
- Without a data pointer and with a nonzero length the plain sender sends a header only and the TLS sender an unset body.
  `Framing.SendersAgree` says when the two agree.
- A drain of the script queue is not safe beside other threads (`src/script/message_queue.c:68-80`): between the reset and the
  semaphore loop a receiver can take the token of a discarded message and fetch from the empty ring
  (`MessageQueue.StaleTokenFetch`), and a sender can lose the token of a new one (`MessageQueue.DrainStrandsMessage`).
  `MessageQueue.DrainRestoresIff` says exactly which interleavings restore the invariant. As a condition on the state before,
  with others free to act, `MessageQueue.DrainSafeIffEmpty` leaves only an empty queue; if nobody calls until the loop ends,
  `MessageQueue.UndisturbedDrainSafeIffQuiet` asks only that nobody was in mid-call.
- The regulator's drop loop may take more than is buffered, wrapping its unsigned counter around below 0
  (`src/audio/regulator.c:47-51`); `Regulator.WrapsIff` says when, for whole frames a push larger than the buffer. It does no
  harm, since adding the size afterwards wraps it back: `Regulator.AudioRegulator.Push` keeps the end of old contents and data
  all the same (`Regulator.HarmlessWrap` is an instance). What limits a push is the second copy: it stays in the buffer iff the
  push is at most twice the buffer's size less the write position (`Ring.PiecesFitIff`, `Regulator.LongestPush`).
- The comments in `src/device/demuxer.c:42-44` name other flag bits than the constants of `src/device/demuxer.h:9-10`; the
  constants are modelled. A session packet is not recognised by that parser; `VideoStream.DemuxerAgreesIff` says when this shows.
- `frame_to_nv12` loses the last chroma column or row of an odd dimension and leaves a byte of each odd chroma row unwritten.

## Assumptions

- Interlocked operations are sequentially consistent, and a critical section is one step. Frees of a frame are one step.
- A transport's future outcomes are a finite script (any would-blocks, errors and amounts); when it is used up calls fail. For
  `tls_send` the outcomes are an infinite sequence, since termination against it is what is proved.
- Writes into a local socketpair are taken whole. `malloc` succeeds, except in the packet queue's push, where it may fail.
- `recv` asked for a negative amount fails; `tls_recv` reads on, and what the program does once more bytes have come than the
  payload buffer holds is not defined. The model stops there, with the result `OVERRUN`.
- The shared slot has one producer and one consumer; the packet queue one producer, one consumer and any number of finishes.
- The regulator's buffer is not empty and below 2^31 bytes. A push stays in the buffer, the bytes buffered and pushed add up to
  less than 2^32, and if something has to be dropped, a frame is no larger than the buffer.
- The signature of an AUTH token, the outcome of a TLS handshake and what the peer then sends come from outside the model.
- Letterbox arithmetic is exact. Where the source divides by the size of an empty render area the model has no result
  (`Letterbox.RenderNonemptyIff` says when it is nonempty).

## Model

| member | source | states |
|---|---|---|
| Bytes.Le32RoundTrip | src/adb/binary.h:42-54 | reading what `write32le` wrote gives the word, and writing what `read32le` read gives the bytes |
| Bytes.Be32RoundTrip | src/adb/binary.h:12-35 | the same for the big-endian pair |
| Bytes.BeWordsRoundTrip | src/adb/binary.h:20-40 | a row of big-endian words, two of which are a 64-bit value, reads back |
| Bytes.Write32le | src/adb/binary.h:48-54 | exactly the four addressed bytes change, to the word's little-endian bytes |
| Bytes.ByteOrder | src/adb/binary.h:20-46 | which digit of the word each byte is, for both readers |
| Bytes.WordOrder | src/adb/binary.h:20-40 | a row of words read and written, in literal bytes |
| Transport.Sink.SendAll | src/adb/protocol.c:30-37 | the loop emits a prefix of its data; all of it if enough calls move data before an error |
| Transport.Source.RecvAll | src/device/video_socket.c:44-55 | the loop takes the next bytes in order and leaves the rest; it gets all it wants if enough calls move data |
| Transport.Source.RecvStrict | src/adb/protocol.c:100-113 | for every script: which bytes are taken, which calls are left, and whether the call that stopped the loop was an error |
| Transport.FilledIff | src/adb/protocol.c:100-113 | the loop gets all it wants iff enough arrives and every call it takes moves data |
| Framing.Checksum | src/adb/protocol.c:8-14 | the result is the byte sum modulo 2^32, and the true sum for a payload of at most 1 MiB; what the sum adds up is said by the next two rows |
| Framing.ByteSumAdds | src/adb/protocol.c:8-14 | no bytes sum to 0, one byte to itself, two parts to the sum of their sums |
| Framing.ByteSumChanges | src/adb/protocol.c:8-14 | replacing a byte changes the sum by the difference of the two bytes |
| Framing.ChecksumDoesNotWrap | src/adb/protocol.c:8-14 | the sum of at most 1 MiB of bytes fits 32 bits |
| Framing.HeaderLayout | src/adb/adb.h:32-41 | each header field is little-endian at its own offset, the magic word is the complement of the command, the payload follows |
| Framing.CommandNames | src/adb/adb.h:14-21 | the words of OPEN, OKAY, WRTE and CLSE are those names in the bytes on the wire |
| Framing.HandshakeNames | src/adb/adb.h:14-21 | so are those of CNXN, AUTH and STLS |
| Framing.EncodeIsWire | src/adb/adb.h:32-41 | a message is its command's four bytes, four little-endian words, the four bytes inverted, and the payload |
| Framing.WireIsReceived | src/adb/protocol.c:93-149 | those bytes are received as the message |
| Framing.DataFrameIsReceived | src/adb/protocol.c:93-149 | a frame that begins 57 52 54 45, in literal bytes, is received as the WRTE with its ids and payload |
| Framing.AckFrameIsSent | src/adb/protocol.c:16-52 | an OKAY is sent as 4f 4b 41 59, its ids, two zero words and the inverted name, in literal bytes |
| Framing.WordsRoundTrip | src/adb/adb.h:32-41 | header words survive the wire format |
| Framing.BytesRoundTrip | src/adb/adb.h:32-41 | header bytes survive being read as words |
| Framing.ParseEncoded | src/adb/protocol.c:93-149 | a framed message followed by anything parses to itself and leaves the rest iff the length bound and the checksum check let it through |
| Framing.AnnouncedIsReceived | src/adb/protocol.c:16-52 | a receiver accepts this program's sender iff it skips checksums, the sender computes them, or the payload sums to 0 |
| Framing.EncodeParsed | src/adb/protocol.c:115-148 | whatever the receiver accepts consumed exactly 24 + length bytes, which encode an acceptable message |
| Framing.ParseAllIffEncodeAll | src/adb/protocol.c:93-149 | with checksums checked or skipped, a byte stream parses to a list of messages iff it is their encoding and each is acceptable |
| Framing.SendMsg | src/adb/protocol.c:16-52 | for every schedule the wire gains a prefix of the frame; 0 is returned iff it is the whole frame |
| Framing.SendersAgree | src/adb/protocol.c:54-91 | the plain and the TLS sender emit the same bytes iff there is a data pointer or the length is 0 |
| Framing.FramesAreWire | src/adb/protocol.c:16-91 | what each sender puts on the wire, with and without a data pointer and with and without a checksum |
| Framing.SendMsgTls | src/adb/protocol.c:54-91 | for every infinite sequence of `tls_send` results the call ends; 0 iff all bytes went out; -1 only after an error or 500 refusals in a row |
| Framing.TlsSendAll | src/adb/protocol.c:79-88 | the retry loop ends and emits a prefix; it stops short only when it gave up |
| Framing.LengthBoundIff | src/adb/protocol.c:122-126 | a header the bound lets pass keeps the payload within the buffer iff its length word is below 2^31 |
| Framing.OverrunIff | src/adb/protocol.c:174-186 | for such a header some schedule puts more into the buffer than it holds iff the receiver is the TLS one, the length word is at least 2^31, and the peer sends that much |
| Framing.NegativeLengthAccepted | src/adb/protocol.c:168-178 | a header of that kind |
| Framing.ReceiveIff | src/adb/protocol.c:93-200 | for every stream, script and caller's buffers: 1 iff the stream starts with an acceptable message and the calls it takes all move data; 0 iff TLS and it stopped for want of data; exactly which bytes are gone |
| Framing.RecvInto | src/adb/protocol.c:93-200 | result, header and payload buffer, stream and calls left are as that lemma's function says, in every case |
| Framing.RecvMsg | src/adb/protocol.c:93-200 | the same for a caller that looks at the result: 1 with the message, otherwise exactly which bytes are lost, and when the payload buffer is overrun |
| Framing.BuffersAfter | src/adb/protocol.c:93-200 | after every receive that does not overrun each buffer holds the bytes taken and behind them what it held before |
| Framing.RecvBody | src/adb/protocol.c:115-148 | from the header words on: magic, signed length bound, payload, where `recv` and `tls_recv` differ, and checksum |
| Framing.WouldBlockLoses | src/adb/protocol.c:100-113 | after a would-block within the header those bytes are lost and what is left of a message without payload is no message |
| Framing.RetryAfterWouldBlock | src/adb/protocol.c:160-165 | calling the receiver again after that, as the comment suggests, does not return the message |
| Framing.PassesOnIncompleteIff | src/adb/session.c:318-321 | a caller that acts on every result not negative acts on a message that was not received iff the TLS receiver stopped for want of data |
| Framing.ServedAllIff | src/adb/protocol.c:93-200 | from its encoding a list of messages is received iff each is acceptable and the calls they take all move data |
| Framing.SteadyServesAll | src/adb/protocol.c:100-136 | data in every call is enough, whatever the amounts |
| Framing.ReceiveLoop | src/device/server.c:132-136 | receiving until a failure gives exactly the messages served, for every stream, every script and either checksum setting |
| Framing.SendList | src/adb/protocol.c:16-52 | sends that all go through put the encoding of the list on the wire |
| Framing.Transfer | src/adb/session.c:316-318 | from sender to receiver, for every two schedules: a list sent whole arrives iff each message is acceptable and the calls it takes all move data |
| Outbound.StepKeepsInv | src/device/server.c:115-151 | every step keeps: wire = finished turns ++ part of the holder's message, and turns ++ to-do = program per thread |
| Outbound.ReachesInv | src/device/server.c:115-151 | so does every run |
| Outbound.WireParsesIffNothingCut | src/device/server.c:115-121 | with the lock free the wire parses to the messages sent, in lock order, iff no send gave up in mid-message |
| Outbound.WholeMessagesThenPrefix | src/device/server.c:147-151 | at every moment the wire is whole messages and a prefix of the lock holder's message |
| Outbound.ThreadOrderKept | src/device/server.c:115-151 | each thread's messages appear in its own order, with none invented or skipped |
| Outbound.LockedSend | src/device/server.c:147-151 | the code inside the lock adds one turn's piece to the wire |
| Outbound.OfferedIffWhole | src/device/server.c:115-121 | the wire parses to every message offered iff every send went through |
| Session.ApplyKeepsInv | src/adb/session.c:67-100 | opens (also failed ones), closes and handled messages keep local ids strictly increasing and below the next one |
| Session.RunKeepsInv | src/adb/session.c:67-279 | so does every run before the ids wrap around |
| Session.RunAnnounces | src/adb/session.c:67-90 | every run keeps: the ids in the OPEN messages are 1, 2, 3, … up to the next one |
| Session.IdsOfferedOnce | src/adb/session.c:67-90 | no id is offered to the peer twice, failed opens included, and every channel has the id of one OPEN |
| Session.HandleTable | src/adb/session.c:216-273 | in every reachable state OPEN and OKAY rewrite exactly the channel with local id arg1, CLSE closes exactly the one with local id arg0, nothing else changes the table |
| Session.OneChannelChanges | src/adb/session.c:216-273 | a message changes at most one channel |
| Session.WriteDeliveredOnce | src/adb/session.c:246-262 | a WRTE is delivered and acknowledged once, ids swapped, if a channel has both its ids; otherwise nothing happens |
| Session.ClosedStaysClosedIff | src/adb/session.c:216-244 | a closed channel stays closed iff the message is not an OPEN or OKAY naming it |
| Session.DisconnectSends | src/adb/session.c:281-284 | disconnecting closes every channel and sends the farewells, nothing else |
| Session.FarewellsOnce | src/adb/session.c:92-100 | the farewells are one CLSE for each channel not closed and with a remote id |
| Session.DisconnectTwice | src/adb/session.c:281-292 | a second disconnect sends nothing and changes nothing |
| Session.AdbConnection.Open | src/adb/session.c:67-90 | the new table, next id and OPEN message; a failed send takes the entry back but not the id |
| Session.AdbConnection.Close | src/adb/session.c:92-100 | CLSE only for a channel with a remote id that is not closed |
| Session.AdbConnection.Search | src/adb/session.c:249-251 | the search loop finds the first match or the end |
| Session.AdbConnection.Greet | src/adb/session.c:105-118 | the branch computes the model's greeting; the next two rows say what that is |
| Session.CnxnEffect | src/adb/session.c:105-122 | CNXN makes the version the smaller of its first argument and 0x01000001, the payload bound the smaller of its second and 1 MiB, the banner the first 511 bytes of a payload that is not empty, the phase connected, and changes nothing else |
| Session.CnxnInExchange | src/adb/session.c:157-194 | in the exchange over TLS CNXN does the same, and nothing is sent |
| Session.OpenEffect | src/adb/session.c:216-230 | OPEN opens exactly the channel its second argument names, with its first as remote id, and is answered by an OKAY with the ids swapped |
| Session.OkayEffect | src/adb/session.c:232-244 | OKAY opens that channel and sends nothing |
| Session.WrteEffect | src/adb/session.c:246-262 | WRTE is answered by an OKAY with the ids swapped and handed to the shell iff some channel has both its ids |
| Session.ClseEffect | src/adb/session.c:264-273 | CLSE closes exactly the channel whose local id is its first argument |
| Session.AuthEffect | src/adb/session.c:203-214 | AUTH with type 1 is answered by the signature with type 2 iff signing succeeds, in the session and in the exchange; any other is ignored |
| Session.StlsEffect | src/adb/session.c:124-201 | STLS is answered once with version 0x01000000, and 50 receives follow a handshake that succeeds; under TLS it is ignored |
| Session.OthersIgnored | src/adb/session.c:102-279 | a message with any other command word changes nothing |
| Session.OpenChannelSends | src/adb/session.c:67-90 | opening sends OPEN with the next id and the service, adds the channel in its first state iff the send succeeds, uses up the id, and is refused iff 64 channels stand |
| Session.CloseChannelSends | src/adb/session.c:92-100 | closing sends CLSE with local and remote id iff the channel is not closed and has a remote id |
| Session.HangupEnds | src/adb/session.c:281-292 | after a disconnect every channel is closed and the link disconnected; a farewell carries the channel's two ids |
| Session.ExchangeServes | src/adb/session.c:157-194 | a peer whose messages all arrive, in any pieces, and one of which connects in time has each acted on, in order, up to that one |
| Session.ExchangeRetries | src/adb/session.c:157-194 | a receive that fails before its first byte costs one try and nothing else |
| Session.ExchangeSends | src/adb/session.c:151-197 | the exchange after a TLS handshake sends STLS and AUTH messages only and leaves TLS up |
| Session.SplitStlsAnsweredIff | src/adb/session.c:155-177 | an STLS message cut off by a would-block within its header is not received, but answered iff at least 4 bytes of it came |
| Session.AdbConnection.ExchangeOverTls | src/adb/session.c:151-197 | the loop of up to 50 receives, with the header cleared and the payload buffer kept between them, acting on every result not negative |
| Session.AdbConnection.UpgradeToTls | src/adb/session.c:124-201 | STLS is ignored under TLS; otherwise it is answered before the handshake, and the exchange follows if that succeeds |
| Session.AdbConnection.Poll | src/adb/session.c:300-324 | nothing without data or on a failed receive; otherwise the message in the buffers is handled, received or not |
| Session.AdbConnection.HandleMessage | src/adb/session.c:102-279 | every branch changes table, link, replies and shell output as the function the lemmas are about |
| Session.AdbConnection.Disconnect | src/adb/session.c:281-292 | the loop equals closing the channels one by one, and the connection ends disconnected |
| Demux.RunShape | src/device/server.c:138-182 | after any trace the three remote ids are those told by the OKAYs and the first WRTE alone, and what was sent is the answers the trace is owed |
| Demux.DestinationIs | src/device/server.c:138-160 | where each WRTE goes, told by the trace alone |
| Demux.RoutedRightIffTimely | src/device/server.c:138-160 | every WRTE reaches its own channel iff the peer's OKAYs and first WRTE come in time |
| Demux.PoliteIsTimely | src/device/server.c:138-173 | OKAY before first WRTE, video's before any WRTE, audio's before any WRTE not video's, is in time |
| Demux.StreamsSeparate | src/device/server.c:153-160 | then each socketpair receives exactly its own channel's payloads in order |
| Demux.EveryWriteAcked | src/device/server.c:147-151 | every WRTE is acknowledged once with swapped ids, in order; besides that only signatures of AUTH tokens are sent |
| Demux.ControlBytesReachAudio | src/device/server.c:143-157 | a concrete untimely trace in which control bytes go to audio |
| Demux.ReaderLoop | src/device/server.c:132-183 | whatever the pieces, the thread ends in the state the model reaches on exactly the messages served, none of which starts TLS |
| Demux.DataFrameDelivered | src/device/server.c:138-160 | a received frame that begins 57 52 54 45 is appended to the stream of the channel with the sender's id and no other, and one message whose bytes begin 4f 4b 41 59 is sent, ids swapped |
| Demux.AckFrameRecorded | src/device/server.c:161-173 | a received frame that begins 4f 4b 41 59 gives exactly the channel it names the sender's id |
| Demux.OthersGoToSession | src/device/server.c:180-182 | every other message is handled as by the session |
| Demux.AdbReader.OnMessage | src/device/server.c:138-182 | one turn of the thread's loop is one step of the model |
| Demux.AdbReader.AdoptBoth | src/device/server.c:140-145 | video and then audio take the sender's id if they have none |
| Demux.AdbReader.Dispatch | src/device/server.c:154-160 | the payload is appended to the stream the if-chain picks |
| Ring.Split | src/audio/regulator.c:76-82 | the stored bytes are the first part and the rest, wherever the ring wraps |
| Ring.PiecesFitIff | src/audio/regulator.c:54-60 | both copies of a push stay in the buffer iff the push is at most twice its size less the write position |
| Ring.OverwritePieces | src/audio/regulator.c:54-60 | the block written is one piece, or two with the second over the first |
| Ring.Keep | src/audio/regulator.c:54-63 | writing such a block after the last element keeps any end of old elements ++ block that there is room for, and the next write goes after it |
| Ring.OverwriteAppends | src/audio/regulator.c:53-60 | writing in one or two pieces after the last element appends |
| Ring.Push | src/script/message_queue.c:39-41 | storing at the tail appends |
| Ring.Pop | src/script/message_queue.c:55-57 | the element at the head is the first, and the rest stays |
| MessageQueue.StepKeepsInv | src/script/message_queue.c:30-60 | every step keeps count = semaphore + signalling senders + granted receivers, and accepted = received ++ stored |
| MessageQueue.RunKeepsInv | src/script/message_queue.c:30-60 | so does every interleaving of any number of threads |
| MessageQueue.GrantedFindsOldest | src/script/message_queue.c:47-60 | a receiver past its wait always takes the oldest message not yet received, though it never checks |
| MessageQueue.ReleaseNeverSaturates | src/script/message_queue.c:43 | a release never meets the semaphore's maximum |
| MessageQueue.BoundedFifo | src/script/message_queue.c:33-59 | received is a prefix of accepted, at most 256 behind, and a send is refused iff exactly 256 behind |
| MessageQueue.RunIsTold | src/script/message_queue.c:30-66 | after every run, what was accepted and received is what an unbounded list makes of the steps of the run: every message sent while fewer than 256 wait, in order, and the first of them |
| MessageQueue.QuietWaitIffStored | src/script/message_queue.c:50-53 | with no call in progress a receive succeeds iff a message is stored |
| MessageQueue.DrainStepKeepsInv | src/script/message_queue.c:68-80 | with any threads acting during a drain, the count is the messages stored less those fetched since the reset, wrapped around below 0 |
| MessageQueue.DrainRestoresIff | src/script/message_queue.c:68-80 | for every interleaving, the invariant holds at the end of the loop iff as many tokens have gone as messages were discarded |
| MessageQueue.DrainSafeIffEmpty | src/script/message_queue.c:68-80 | with other threads free to act, the count stays in range in every run iff nothing was stored at the reset |
| MessageQueue.StaleTokenFetch | src/script/message_queue.c:75-78 | otherwise a receiver takes a stale token and its fetch wraps the count around |
| MessageQueue.DrainStrandsMessage | src/script/message_queue.c:75-78 | a send during a drain that began with no call in progress can end as a stored message without a token |
| MessageQueue.UndisturbedDrain | src/script/message_queue.c:68-80 | when only the drain acts, its loop ends with ring and semaphore empty |
| MessageQueue.UndisturbedDrainSafeIffQuiet | src/script/message_queue.c:68-80 | then the invariant is restored, and every later run keeps the count in range, iff no thread was in mid-call |
| MessageQueue.ScriptQueue.LockAndReset | src/script/message_queue.c:71-75 | the drain's critical section is the model's step |
| MessageQueue.ScriptQueue.LockAndStore | src/script/message_queue.c:33-42 | the send's critical section is the model's step |
| MessageQueue.ScriptQueue.LockAndFetch | src/script/message_queue.c:54-58 | the receive's critical section is the model's step |
| MessageQueue.ScriptQueue.Send | src/script/message_queue.c:30-45 | uninterrupted, it appends unless 256 are stored |
| MessageQueue.ScriptQueue.Recv | src/script/message_queue.c:47-66 | uninterrupted, it takes the first message iff there is one |
| MessageQueue.ScriptQueue.Drain | src/script/message_queue.c:68-80 | undisturbed, it empties ring and semaphore |
| SharedFrame.StepKeepsInv | src/pipeline/pipeline.h:28-54 | every Interlocked operation and free keeps the ownership and order invariant |
| SharedFrame.OneOwner | src/pipeline/pipeline.h:28-54 | after every run each submitted frame is in exactly one place: slot, producer, consumer, or freed once |
| SharedFrame.NoDoubleFree | src/pipeline/pipeline.h:28-54 | no step frees a frame twice or hands out a freed or already seen frame |
| SharedFrame.SeenInOrder | src/pipeline/pipeline.h:39-46 | the consumer sees strictly increasing frames, each the newest when taken |
| SharedFrame.SeenOrDropped | src/pipeline/pipeline.h:28-46 | with the producer at rest every frame is in the slot, seen or dropped, never both, and freed once in the end |
| SharedFrame.NeverStranded | src/pipeline/pipeline.h:28-46 | a frame in the slot has ready set or a side between its two steps |
| SharedFrame.AcquireFindsNewest | src/pipeline/pipeline.h:39-46 | with both sides at rest an acquire gets the newest frame if the slot has one; a stale ready word is harmless |
| SharedFrame.SharedSlot.Submit | src/pipeline/pipeline.h:28-36 | the producer's two steps, and which frame it must free |
| SharedFrame.SharedSlot.Acquire | src/pipeline/pipeline.h:39-46 | nothing without the ready word, otherwise the consumer's two steps |
| PacketQueue.StepKeepsInv | src/decode/packet_queue.c:34-93 | every step keeps pushed = popped ++ stored and that a sleeping thread has its reason to sleep |
| PacketQueue.RunKeepsInv | src/decode/packet_queue.c:34-93 | so does every run, with finishes and spurious wake-ups anywhere |
| PacketQueue.NoLostWakeup | src/decode/packet_queue.c:37-39 | a thread left waiting still has to wait, the queue is not finished, and never do both wait |
| PacketQueue.Fifo | src/decode/packet_queue.c:66-86 | popped is a prefix of pushed, at most a capacity behind; the next pop takes the oldest stored |
| PacketQueue.RunIsTold | src/decode/packet_queue.c:34-86 | after every run, the packets pushed carry the timestamps and data of the push calls of the run that an unbounded list takes, in order, and those popped are the first of them |
| PacketQueue.FinishedRefuses | src/decode/packet_queue.c:41-44 | once finished nothing more is stored and nobody waits |
| PacketQueue.FinishedDrains | src/decode/packet_queue.c:66-86 | once finished, in every continuation each turn of the consumer takes the next packet until none is left and none is added; as many turns as packets stored drain the queue |
| PacketQueue.FinishedCanDrain | src/decode/packet_queue.c:66-86 | such a continuation always exists |
| PacketQueue.EveryBufferOnce | src/decode/packet_queue.c:21-27 | the buffers popped and those destroy frees are all ever allocated, each once |
| PacketQueue.PacketRing.PushLocked | src/decode/packet_queue.c:34-64 | under the lock: wait iff full and not finished, refuse iff finished or out of memory, else append |
| PacketQueue.PacketRing.PopLocked | src/decode/packet_queue.c:66-86 | under the lock: wait iff empty and not finished, refuse iff empty and finished, else take the first |
| PacketQueue.PacketRing.Destroy | src/decode/packet_queue.c:21-27 | the freeing loop frees the stored buffers, in order |
| ScriptQuery.StepKeepsInv | src/script/bindings.c:32-53 | every step keeps: the queries in flight are those sent and not answered, in order |
| ScriptQuery.CallsBalance | src/script/bindings.c:32-53 | sent = answered + timed out + the call waiting |
| ScriptQuery.NoDropBeforeManyTimeouts | src/app/application.c:375-424 | no response is dropped while fewer than 256 calls have timed out |
| ScriptQuery.ResponsesInOrder | src/script/event_dispatch.c:91-201 | while none is dropped the j-th response received answers the j-th query sent |
| ScriptQuery.OwnAnswerIffNoTimeout | src/script/bindings.c:46-52 | a call gets its own answer iff no earlier call timed out, and otherwise lags by the number of timeouts |
| ScriptQuery.TypeCheckPassesIff | src/script/bindings.c:214-216 | the type check lets an answer through iff the query it belongs to had the same kind |
| ScriptQuery.ScriptEngine.SendQuery | src/script/bindings.c:40-44 | the sending half is the model's step |
| ScriptQuery.PassesIff | src/script/bindings.c:204-332 | the size checks beside the type check stop only a frame capture whose frame is missing or does not fit |
| ScriptQuery.ResponseSizes | src/script/event_dispatch.c:91-201 | a response fits its 256 bytes, and which size each kind has |
| ScriptQuery.ScriptEngine.AwaitResponse | src/script/bindings.c:46-52 | the waiting half is the model's step, and the callers' checks let a response through exactly as said |
| ScriptQuery.ScriptEngine.ProcessMessages | src/script/event_dispatch.c:68-209 | all requests are taken and counted, every query answered in order until the response queue is full |
| Regulator.AudioRegulator.constructor | src/audio/regulator.c:9-33 | for every format the size in 32-bit arithmetic; an empty ring if it is usable, of 50 ms of whole frames if nothing overflows |
| Regulator.UsualBuffer | src/audio/regulator.c:9-33 | 16-bit stereo at 48 kHz gets 9600 bytes |
| Regulator.WrapsIff | src/audio/regulator.c:47-51 | the unsigned counter wraps around in the drop loop iff the frames needed, rounded up, are more than what is buffered |
| Regulator.HarmlessWrap | src/audio/regulator.c:47-63 | a push for which it does, and which keeps the longest suffix that fits |
| Regulator.LongestPush | src/audio/regulator.c:54-60 | the longest push that stays in the buffer, and that one byte more does not |
| Regulator.WholeFramesDrop | src/audio/regulator.c:47-51 | with whole frames exactly the excess is dropped, and the counter wraps around iff the push is larger than the buffer |
| Regulator.DroppedLeast | src/audio/regulator.c:47-51 | what is dropped is the least number of whole frames that makes room |
| Regulator.AudioRegulator.DropOldest | src/audio/regulator.c:46-51 | in 32-bit arithmetic the loop ends, has moved the read position by exactly that, and leaves the counter reduced by it modulo 2^32 |
| Regulator.Arithmetic32 | src/audio/regulator.c:46-51 | the model's unsigned sum and difference are those modulo 2^32 |
| Regulator.AudioRegulator.Push | src/audio/regulator.c:43-67 | for every push that stays in the buffer the contents become old contents ++ data without the frames dropped; with whole frames, the longest suffix that fits |
| Regulator.WholePush | src/audio/regulator.c:46-63 | of whole frames what is kept is the longest suffix that fits, and whole frames again |
| Regulator.AudioRegulator.Pull | src/audio/regulator.c:69-110 | the output, byte for byte, is the oldest bytes and then zeros; what is left is the rest, and an underflow is counted |
| Regulator.AudioRegulator.Underflow | src/audio/regulator.c:86-107 | the underflow branch |
| Regulator.CopyAround | src/audio/regulator.c:54-60 | the two copies write a block that stays in the buffer around its end, the second over the first where they meet |
| Regulator.CopyFromRing | src/audio/regulator.c:76-82 | the two copies of a pull read the oldest bytes around the end of the ring |
| Regulator.AudioRegulator.BufferedSamples | src/audio/regulator.c:112-117 | the number of whole frames buffered; with whole frames they are exactly the bytes buffered |
| Regulator.StreamConserved | src/audio/regulator.c:43-110 | over any run pushed = gone ++ buffered, byte for byte in order, and pulls return what they asked for |
| Regulator.PushedIsDeliveredDroppedBuffered | src/audio/regulator.c:43-110 | bytes pushed = delivered + dropped + buffered |
| Regulator.LongestThatFits | src/audio/regulator.c:46-51 | the last bytes that fit are a suffix, and no suffix that fits is longer |
| Regulator.NothingDroppedIff | src/audio/regulator.c:46-51 | a run drops nothing iff no push finds too little room |
| Regulator.HeardIsDelivered | src/audio/regulator.c:69-110 | the output without its silence is the delivered bytes in order |
| VideoStream.ParseEncoded | src/device/video_socket.c:89-163 | a session or media packet followed by anything parses to itself |
| VideoStream.ParseAllEncoded | src/device/video_socket.c:89-163 | so does any concatenation of packets |
| VideoStream.ParseBytes | src/device/video_socket.c:90-163 | for every stream, byte by byte: when there is a packet, its fields, and what follows; the payload bound is 10 MiB |
| VideoStream.VideoSocket.RecvAllPending | src/device/video_socket.c:57-87 | for any split and any pieces the next bytes are returned and the rest left |
| VideoStream.VideoSocket.ReadPacket | src/device/video_socket.c:89-163 | one read takes exactly one parsed packet, and a session packet with nonzero sizes sets width and height |
| VideoStream.ReadAll | src/device/video_socket.c:89-163 | reading until failure gives every packet's payload, in order, and uses up the stream |
| VideoStream.VideoSocket.ReadSessionHeader | src/device/server.c:572-591 | a session header is consumed; otherwise the push-back leaves the stream as it was |
| VideoStream.DemuxerAgreesIff | src/device/demuxer.c:46-96 | on what the socket parser accepts the demuxer takes the same payload and rest iff it is a media packet or it reads size 0 |
| VideoStream.DemuxerFields | src/device/demuxer.c:51-73 | for a media packet it recovers payload, flags and 61-bit timestamp |
| VideoStream.DemuxBytes | src/device/demuxer.c:46-99 | byte by byte: payload, the flags in bits 6 and 5 of the first byte, and the timestamp below them |
| VideoStream.RecvDemuxed | src/device/demuxer.c:23-99 | the receive loops compute the demuxer's parse for any pieces |
| SyncPush.StreamDecodes | src/adb/adb.c:290-319 | the SEND, DATA, DONE stream decodes to the path and the chunks |
| SyncPush.CommandWords | src/adb/adb.c:290-319 | the ids are the words SEND, DATA and DONE, a chunk is 65536 bytes |
| SyncPush.Fill | src/adb/adb.c:307-308 | a reused buffer is filled with exactly one command |
| SyncPush.StreamFile | src/adb/adb.c:303-313 | the loop makes one DATA command per read and reads the whole file iff every read made while bytes were left gave some |
| SyncPush.SyncSend | src/adb/adb.c:290-319 | for every file and every schedule of reads the payloads decode to the path and the bytes read, in chunks of 1 to 65536 bytes; all of the file iff every read made while bytes were left gave some |
| SyncPush.SendPayloads | src/adb/adb.c:297-319 | with the results of the sends ignored, as in the source, the peer parses all of the payloads iff every send went through |
| SyncPush.WritesAt | src/adb/adb.c:297-319 | the i-th message is the i-th payload in a WRTE from the local to the remote id |
| Nv12.FrameToNv12 | src/decode/video_decoder.c:60-90 | the buffer is the luma rows and the interleaved chroma rows end to end, and each byte is written exactly once, but the last of an odd chroma row, which is not written |
| Nv12.LumaByte | src/decode/video_decoder.c:74-75 | byte r * w + col of the buffer is byte r * stride + col of the luma plane |
| Nv12.ChromaBytes | src/decode/video_decoder.c:82-87 | bytes w * h + r * w + 2 * col and the next are bytes r * stride + col of the U and the V plane |
| Nv12.WrittenOnce | src/decode/video_decoder.c:74-87 | the offsets the loops write strictly increase and are all of the buffer but that padding |
| Nv12.CopyLuma | src/decode/video_decoder.c:74-75 | the luma loop |
| Nv12.InterleaveUv | src/decode/video_decoder.c:82-87 | the chroma loops; the last byte of an odd row keeps its old value |
| Nv12.InterleaveRow | src/decode/video_decoder.c:83-86 | the inner loop writes the pairs and nothing else |
| Nv12.UpdateTexture | src/render/video_renderer.c:224-237 | every row of the buffer is at its row of the texture, for any pitch at least the width |
| Nv12.CopyRows | src/render/video_renderer.c:226-229 | a row loop places its rows and leaves the earlier ones |
| Nv12.TextureLuma | src/render/video_renderer.c:224-237 | byte r * pitch + col of the texture is byte r * stride + col of the luma plane |
| Nv12.TextureChroma | src/render/video_renderer.c:224-237 | bytes (h + r) * pitch + 2 * col and the next are bytes r * stride + col of the U and the V plane |
| Nv12.TextureGivesBackSamples | src/render/video_renderer.c:224-237 | for even dimensions the texture gives back every luma and chroma sample, by rows and by offsets of texture and planes |
| Nv12.LosslessIffEven | src/decode/video_decoder.c:60-90 | the conversion is lossless iff both dimensions are even or the frame is empty |
| Letterbox.DrawnSizes | src/render/video_renderer.c:257-267 | the scaled quad fits the window and touches it in one direction |
| Letterbox.DrawnRectProportional | src/render/video_renderer.c:257-267 | the drawn quad is centred, as wide or as high as the window, and has the video's proportions |
| Letterbox.RectsAgree | src/input/input_transform.c:13-27 | both computations choose the same case and agree to under a pixel in size and half a pixel in offset |
| Letterbox.RenderRectProportional | src/input/input_transform.c:13-27 | the render area in whole numbers: which side is the window's, the other in proportion cut to pixels, the slack halved |
| Letterbox.RenderNonemptyIff | src/input/input_transform.c:19-27 | the render area is nonempty iff the drawn one is at least a pixel wide and high |
| Letterbox.MapFaithful | src/input/input_transform.c:29-38 | mapped coordinates lie on the device, are monotone, and send edges and beyond to edges |
| Letterbox.ScaledProportional | src/input/input_transform.c:37-38 | a device coordinate is the click's share of the render area, cut to whole pixels |
| Letterbox.RenderArea | src/input/input_transform.c:13-27 | the branches compute the render rectangle |
| Letterbox.InputTransformCoords | src/input/input_transform.c:3-39 | for a click in the render area, device coordinate * render size <= offset * device size < (device coordinate + 1) * render size, in both directions; within the device everywhere; 0 for sizes that are not positive; no result for a coordinate whose render size is 0 |

## Left out

- The callback after CNXN, and the handshake loop of `adb_connect`, which is like the exchange modelled here.
- Session.AdbConnection.ExchangeOverTls: for an incomplete header whose length word exceeds the payload buffer, only the buffer is passed on; and nothing is said of what follows an overrun.
- Demux.ReaderLoop: no message received may start TLS, because the handshake would take over the stream; under TLS every message may come. Nothing is said of what follows an overrun.
- Messages other than WRTE and OKAY answered by the reader thread outside the send lock: `Outbound` covers the two locked senders only.
- Demux.RoutedRightIffTimely: the peer opens no channel itself, because an OPEN rewrites remote ids without any of the three channels asking for it.
- The check of the control channel's state before a forwarded command is sent: it selects which messages are sent, and `Outbound` holds for every choice.
- Transport.Sink.SendAll: an endless sequence of would-blocks keeps the source looping forever; the finite script leaves that out.
- Two drains of one queue at the same time.
- ScriptQuery.StepKeepsInv: each queue is one atomic FIFO (`MessageQueue` proves that they are), one script thread asks, and every query callback is installed.
- The contents of the query responses: they do not affect which response answers which call.
- Regulator.AudioRegulator.Push: pushes whose second copy would leave the buffer, sums of 2^32 or more, and dropping with a frame larger than the buffer, which only a format that overflows in the set-up can have.
- Regulator.AudioRegulator.constructor: nothing more is said of an empty buffer or one of 2^31 bytes or more, for which later calls divide by zero or overflow.
- SyncPush.SyncSend: the replies read between chunks, and waiting for the channel to open.
- VideoStream.RecvDemuxed: a read that fails after a partial payload gives no packet; what is then left of the stream is not stated.
- Nv12.FrameToNv12: one chroma stride for both planes, as in the source; negative line sizes and 32-bit overflow of row offsets are not modelled.
- Letterbox.InputTransformCoords: rounding of `float`, and what comes of dividing by zero for an empty render area.
- 16-bit readers and writers and the fixed-point conversions of `binary.h`: nothing modelled here uses them.
- The live video thread reads its socket directly (`src/pipeline/video_pipeline.c:11`), and `packet_queue.c` is not linked into the program; both components are modelled as they stand.
- TLS, RSA and certificates, FFmpeg, WASAPI, Direct3D set-up, windows, the REPL and Scheme, socket set-up, select timeouts and process launch: libraries and I/O.
- Clipboard device messages, whose writer and reader disagree on the length field, so there is no round trip to state.
- Control message layouts, key codes, shortcuts, options, INI and command-line parsing, history, logging: a reading settles them.
