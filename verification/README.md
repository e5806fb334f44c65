# Verified model of the virtual camera's stream handling

The dynamic library receives an RTMP stream, decodes it and injects frames into the camera. This project models
its stateful codecs in Dafny and proves what they keep, on all inputs.

| file | what it models |
|---|---|
| DataLayer.dfy, Endpoint.dfy | the socket loops and `RTMPEndpoint`, as objects |
| Chunks.dfy | the chunk layer as functions: the reader's state machine and the writer |
| Interleaving.dfy | an independent reference sender for the chunk format, and the theorem that the reader undoes it |
| Transcript.dfy | which messages `sendMessage` carries faithfully |
| Amf.dfy, AmfCodec.dfy | AMF0 values, encoding and decoding; the decoder and encoder objects |
| AmfGrammar.dfy | AMF0 written down without the codec, and the theorem that the decoder accepts exactly that |
| Video.dfy | NAL unit extraction and decoder configuration records |
| Session.dfy, ServerSession.dfy | greeting, command answers, message loop and whole conversations; `RTMPServerSession` as an object |
| Conversation.dfy | what a client says, by content, and the theorem that every conversation comes to the frames and answers of its contents |
| Ipc.dfy | the control connection: packets, resumable parser, which cuts of the stream are safe, `VCamBridge`'s table of connections |
| Reorder.dfy | the B-frame reorder ring with its retain counts |
| Dedup.dfy | the window of accepted frame keys |
| Prefs.dfy | packed preferences, property lists, notification state, and the read caches of several processes |
| Pixels.dfy, Packed.dfy, Flash.dfy, Reals.dfy | the elliptic flash effect on biplanar, packed 4:2:2 and 32-bit buffers, its strobe, and the hue formulas |
| Bytes.dfy | bytes and byte orders |

Each object is proved against functions, and the theorems are about those functions. `Step`, `Drain` and `Receive`
are the reader after one chunk, until the bytes run out, and until a message is returned. The reference sender in
Interleaving.dfy knows only whole messages with absolute times. Likewise `Spell` in AmfGrammar.dfy, `Stands` in Ipc.dfy
and `Content` in Conversation.dfy say what is on the wire and what it means; they, and the sender, are written with the
protocols' own numbers, shapes and names and use no constant and no branch of the code they are compared with.

How the source's values appear here: bytes are integers below 256; `v >> 8k` and `v & mask` on unsigned values are
division and remainder; `|` of disjoint bit fields is addition; 32-bit wrap-around is written out. A C++ exception is
a failed result (`None`, or `ok == false`). AMF doubles are their eight bytes. Doubles of the flash effect are real
numbers. Image buffers are numbers with a multiset of retains. The UTF-8 test of NSString is a parameter: every theorem
about the control connection holds for any such test. recv and send are sequences of events: a theorem about the
readable bytes holds for every way of splitting them. Removing bytes from the front of an NSMutableData moves the rest to
the front of the same memory and leaves the memory behind it as it was; `Ipc.Moved` says so. A load or a save of the
preferences is one step.

Some loops are split over several methods (`ReadChunk` and `StoreChunk` are the body of the read loop, `WriteChunk` of
the write loop, `Enqueue` and `Show` of the decoder callback); the reply builders write their objects through
`EncodeValue`, which makes the same calls in the same order. The two packed branches of the flash effect share their
loops.

Where code and comments disagree, the model follows the code:

- the three-byte basic header is commented as big-endian; the code reads its low byte first, as the specification has it;
- the reorder ring's comment promises that no frame is shown while an earlier one is still to come; the code promises
  that only under the condition in `Reorder.InOrderExactlyWhenAtMostOneLate`, and its overflow branch cannot be reached;
- the preference cache is commented as 100 ms; its lifetime is 33 ms;
- packet 1004 is commented as carrying its floats; they are read after the packet has been removed from the buffer, so
  they can come from the packet behind it (`Ipc.BeautyIsRightExactly`, `Ipc.CutChangesBeauty`);
- the AMF decoder's comment says that unknown types are skipped; only the tag byte is.

## Model

| member | source | states |
|---|---|---|
| Interleaving.InterleavingIsHarmless | vcamera_source/RTMP/librtmp/RTMPEndpoint.cpp:103-197 | For every run of a reference sender that interleaves chunk streams at will, compresses headers (types 0, 1, 2, continuations type 3), gives up unfinished messages and changes its chunk size, the reader returns every message intact with its absolute timestamp, in the order of last chunks, goes on with what follows, and is still in step with the sender, so runs compose (sections 5.3.1 and 5.4.1 of the RTMP specification). |
| Interleaving.EventStep | vcamera_source/RTMP/librtmp/RTMPEndpoint.cpp:155-196 | One chunk, whatever bytes follow it: exactly its bytes are consumed, sender and reader states stay in agreement, and a message comes out exactly at its last chunk. |
| Interleaving.SetChunkSizeIsObeyed | vcamera_source/RTMP/librtmp/RTMPEndpoint.cpp:183-190 | For every n below 2^31: the message of type 1 with the four bytes of n, sent in one chunk, is absorbed, and reader and sender cut at n bytes from then on (section 5.4.1). |
| Interleaving.ResizedMessageIsWhole | vcamera_source/RTMP/librtmp/RTMPEndpoint.cpp:154-197 | On a fresh reader, byte by byte: after Set Chunk Size n any other message of up to n bytes, at a time below 0xFFFFFF, comes back whole from one chunk. |
| Interleaving.PartOfChunkWaits | vcamera_source/RTMP/librtmp/RTMPEndpoint.cpp:103-180 | Before the last byte of a chunk has arrived nothing is returned and nothing is consumed. |
| Interleaving.ThreeByteIds | vcamera_source/RTMP/librtmp/RTMPEndpoint.cpp:73-88 | Every chunk stream id from 64 on in its three-byte form, the low byte first. |
| Interleaving.UnseenStreamsAreZero | vcamera_source/RTMP/librtmp/RTMPEndpoint.cpp:103-152 | One-chunk messages with a one-byte id and headers of types 1, 2 and 3 on a chunk stream not seen before: the fields left out are zero. |
| Interleaving.InStepExactlyWhenSupported | vcamera_source/RTMP/librtmp/RTMPEndpoint.cpp:144-149 | Reader and sender stay aligned on a chunk if and only if it is not a continuation chunk of a message with an extended timestamp, the one kind of the sender's chunks that the reader does not implement. |
| Interleaving.ExtendedContinuationDesynchronises | vcamera_source/RTMP/librtmp/RTMPEndpoint.cpp:144-149 | On such a chunk the reader is left exactly four bytes behind, for all bytes. |
| Interleaving.ExtendedTimeIsReached | vcamera_source/RTMP/librtmp/RTMPEndpoint.cpp:144-149 | Such a chunk is reached on a fresh reader by any 200 bytes sent at time 0x1000000. |
| Interleaving.RepeatedHeaderDatesRightExactly | vcamera_source/RTMP/librtmp/RTMPEndpoint.cpp:144-149 | A type 3 chunk that begins a message, which section 5.3.1.2.4 dates by adding the previous header's time field, is read in step and dated so if and only if that field is zero; a one-chunk message is handed on as the specification wants if and only if the field is zero, or it is an absorbed Set Chunk Size message and the field is not extended. |
| Interleaving.RepeatStep | vcamera_source/RTMP/librtmp/RTMPEndpoint.cpp:144-196 | Whatever the field below the marker, the reader takes the chunk for the beginning of the message at the previous message's time and stays in step with a sender of that message. |
| Interleaving.RepeatedTimeIsReached | vcamera_source/RTMP/librtmp/RTMPEndpoint.cpp:144-149 | After a type 0 header at time 1000 a type 3 message should be dated 2000 and is dated 1000. |
| Chunks.StepKeepsInvariant | vcamera_source/RTMP/librtmp/RTMPEndpoint.cpp:155-196 | On arbitrary bytes each chunk keeps every chunk stream's byte count equal to its partial payload and either zero or below the message length, and consumes at least one byte, whatever the chunk size. |
| Chunks.RunKeepsInvariant | vcamera_source/RTMP/librtmp/RTMPEndpoint.cpp:154-197 | The same at every point of every run; no more messages come out than bytes go in. |
| Chunks.HeaderKeepsInvariant | vcamera_source/RTMP/librtmp/RTMPEndpoint.cpp:103-164 | Under the invariant the 32-bit unsigned subtraction of the bytes received from the length is exact. |
| Chunks.DepositKeepsInvariant | vcamera_source/RTMP/librtmp/RTMPEndpoint.cpp:167-195 | At most one message comes out of a chunk, and its payload has the announced length. |
| Chunks.ReceiveIsDrain | vcamera_source/RTMP/librtmp/RTMPEndpoint.cpp:154-197 | Calling readMessage until it fails yields exactly the messages of the drained stream. |
| Chunks.StepIsStable | vcamera_source/RTMP/librtmp/RTMPEndpoint.cpp:155-196 | Once a chunk is complete, bytes behind it change neither what it gives nor where it ends. |
| Transcript.AllSurviveExactly | vcamera_source/RTMP/librtmp/RTMPEndpoint.cpp:201-238 | For every chunk stream, message type, time and length: all payloads of that length come back from sendMessage, with nothing else consumed, for all following bytes, if and only if the time is below 0xFFFFFF and the length below 2^24. |
| Transcript.MarkedUniformIsLost | vcamera_source/RTMP/librtmp/RTMPEndpoint.cpp:215-222 | The payload that shows it for several chunks: every byte like a continuation header, so that the reader stays four bytes behind to the end. |
| Transcript.TruncatedIsReceived | vcamera_source/RTMP/librtmp/RTMPEndpoint.cpp:206-236 | What is received in general: the message with time and payload length reduced modulo 2^24. |
| Transcript.MarkerTimeStarves | vcamera_source/RTMP/librtmp/RTMPEndpoint.cpp:215-222 | A single-chunk message whose time has 24 low one-bits is never delivered from its own bytes. |
| Transcript.EncodeDrains | vcamera_source/RTMP/librtmp/RTMPEndpoint.cpp:201-238 | sendMessage read back by a reader in any state, also one with the small initial chunk size if the message fits it. |
| Transcript.PostingsDrain | vcamera_source/RTMP/librtmp/RTMPEndpoint.cpp:201-238 | Any list of in-range messages on chunk streams 2 to 63 is read back as exactly that list. |
| Endpoints.RTMPEndpoint.ReadMessage | vcamera_source/RTMP/librtmp/RTMPEndpoint.cpp:154-197 | Fails exactly when the socket's bytes end inside a chunk before a message is complete; otherwise message, new reader state and unread bytes are those of the reader function. |
| Endpoints.RTMPEndpoint.ReadChunk | vcamera_source/RTMP/librtmp/RTMPEndpoint.cpp:155-196 | One turn of the loop equals the one-chunk step function. |
| Endpoints.RTMPEndpoint.ReadChunkHeader | vcamera_source/RTMP/librtmp/RTMPEndpoint.cpp:103-152 | Parses each header type, with extended timestamps, failing exactly on short input. |
| Endpoints.RTMPEndpoint.ReadBasicHeader | vcamera_source/RTMP/librtmp/RTMPEndpoint.cpp:73-88 | Parses the one-, two- and three-byte basic headers, the last with its low byte first. |
| Endpoints.RTMPEndpoint.SendMessage | vcamera_source/RTMP/librtmp/RTMPEndpoint.cpp:201-238 | On success the wire grows by exactly the chunked message; on failure by a proper prefix of it; it succeeds when the socket does. |
| Endpoints.RTMPEndpoint.SendControl | vcamera_source/RTMP/librtmp/RTMPEndpoint.cpp:240-242 | The same on chunk stream 2. |
| DataLayers.DataLayer.ReadExact | vcamera_source/RTMP/DataLayer.cpp:18-32 | For any sequence of short reads, signals, end and errors: succeeds exactly when enough bytes are readable and takes exactly those. |
| DataLayers.StreamIsWhatArrives | vcamera_source/RTMP/DataLayer.cpp:18-32 | Any cutting of the bytes and any signals in between are one stream, up to its end or an error. |
| DataLayers.DataLayer.WriteExact | vcamera_source/RTMP/DataLayer.cpp:34-48 | For any short writes and signals: writes all, or fails after a proper prefix and only when the socket does. |
| Amf.RoundTripsExactly | vcamera_source/RTMP/librtmp/AMF.cpp:124-163 | Decoding an encoding followed by any bytes returns the value and stops at its end if and only if strings and keys fit 16 bits, keys are not empty and no array occurs. |
| Amf.EncodeThenDecode | vcamera_source/RTMP/librtmp/AMF.cpp:215-233 | For every value that fits, decoding returns it with arrays replaced by null, stopping exactly at the following bytes. |
| Amf.DecodeThenEncodeNormalises | vcamera_source/RTMP/librtmp/AMF.cpp:81-163 | For any accepted bytes, encoding and decoding again gives the value with arrays replaced by null, and a second pass changes nothing. |
| Amf.DecodedFits | vcamera_source/RTMP/librtmp/AMF.cpp:81-101 | Every value the decoder returns, on any bytes, has strings and non-empty keys within 16 bits. |
| Amf.Decode | vcamera_source/RTMP/librtmp/AMF.cpp:124-163 | Terminates on every input, consumes at least one byte and leaves a suffix of the input. |
| AmfGrammar.SpelledIsDecoded | vcamera_source/RTMP/librtmp/AMF.cpp:81-163 | Any tree of numbers, flags, strings, objects, associative arrays (tag 8, any count, ended by a marker or cut short), strict arrays (tag 10) and other tags, nested anywhere, in front of any bytes: decoding gives its meaning and stops at those bytes. |
| AmfGrammar.DecodesExactly | vcamera_source/RTMP/librtmp/AMF.cpp:81-163 | Decoding some bytes gives a value and a rest if and only if the bytes are a spelling of that value followed by the rest. |
| AmfGrammar.EncodeSpells | vcamera_source/RTMP/librtmp/AMF.cpp:192-233 | The encoder writes every value in its canonical spelling, arrays as null. |
| Amf.EncodeAllThenDecodeAll | vcamera_source/RTMP/librtmp/AMF.cpp:165-167 | A list of values written one after the other is read back as that list. |
| AmfCodec.AMFDecoder.ReadValue | vcamera_source/RTMP/librtmp/AMF.cpp:124-163 | The recursive cursor returns Amf.Decode's value and rest, and fails on exactly the same inputs. |
| AmfCodec.AMFDecoder.ReadObject | vcamera_source/RTMP/librtmp/AMF.cpp:81-101 | The object loop, ended by an empty key and the end marker. |
| AmfCodec.AMFDecoder.ReadECMAArray | vcamera_source/RTMP/librtmp/AMF.cpp:103-122 | The lenient array loop, ended also by truncation. |
| AmfCodec.AMFDecoder.ReadShortString | vcamera_source/RTMP/librtmp/AMF.cpp:73-79 | A length-prefixed string inside the buffer, or failure. |
| AmfCodec.AMFEncoder.EncodeValue | vcamera_source/RTMP/librtmp/AMF.cpp:215-233 | Appends exactly the encoding of any value tree. |
| AmfCodec.AMFEncoder.WriteShortString | vcamera_source/RTMP/librtmp/AMF.cpp:192-195 | Appends a length-prefixed string, the length truncated to 16 bits. |
| Session.TranscriptIsReceived | vcamera_source/RTMP/librtmp/RTMPServerSession.cpp:12-20 | A fresh peer, which starts with chunks of 128 bytes, reading the constructor's messages and then any in-range messages gets exactly those, Set Chunk Size absorbed, with no bytes left. |
| Session.GreetingDrains | vcamera_source/RTMP/librtmp/RTMPServerSession.cpp:16-20 | The constructor's three messages switch a fresh peer to chunks of 4096 bytes. |
| Session.EveryAnswerReachesPeer | vcamera_source/RTMP/librtmp/RTMPServerSession.cpp:74-127 | Whatever command was answered, all messages of the answer reach the peer unchanged, in order. |
| Session.ServesUpToFirstFrame | vcamera_source/RTMP/librtmp/RTMPServerSession.cpp:26-69 | On any bytes, a call answers exactly the messages before the first one that carries a frame or cannot be decoded, in order, returns that one's frame, and leaves the messages behind it to the next call. |
| Session.ServesSender | vcamera_source/RTMP/librtmp/RTMPServerSession.cpp:26-69 | For every run of the reference sender: the frame of its first message that carries one, and the answers to those before it, up to the first command that cannot be decoded. |
| Session.ConversationIsHeard | vcamera_source/RTMP/RTMPServerCXX.mm:119-135 | Over all calls for a connection, with up to ten failed commands between two frames retried: the frames handed out and the messages sent depend on the messages alone, not on how bytes and calls divide them. |
| Session.SenderIsHeard | vcamera_source/RTMP/RTMPServerCXX.mm:119-135 | For every run of the reference sender the frames handed out are those of its messages, in order, and its commands are answered in order. |
| Session.ConversationReachesPeer | vcamera_source/RTMP/librtmp/RTMPServerSession.cpp:26-127 | On any bytes, everything the session sends in a whole conversation reaches the peer, unchanged, in order, with no bytes left. |
| Session.ServedIsSendable | vcamera_source/RTMP/librtmp/RTMPServerSession.cpp:74-127 | On any bytes, everything one call sends is within what sendMessage carries faithfully. |
| Session.ConnectReplyReachesPeer | vcamera_source/RTMP/librtmp/RTMPServerSession.cpp:91-95 | For every transaction id, connect makes the peer decode _result, the same id and both information objects, through both layers (section 7.2.1.1). |
| Session.CreateStreamReplyReachesPeer | vcamera_source/RTMP/librtmp/RTMPServerSession.cpp:245-253 | The same for createStream: _result, the same id, null and stream id 1 (section 7.2.1.3). |
| Session.RequestIsParsed | vcamera_source/RTMP/librtmp/RTMPServerSession.cpp:80-88 | Command name and transaction id are recovered from a request with any further arguments. |
| Conversations.ContentsAreTold | vcamera_source/RTMP/librtmp/RTMPServerSession.cpp:26-201 | For every run of the reference sender, however interleaved, compressed and cut: the frames handed out are those of its AVC unit lists and configurations (type 9), in order, the replies those to its commands (types 18 and 20), and nothing else comes of it; up to ten commands in a row that cannot be decoded are forgiven. |
| Conversations.ContentIsHandled | vcamera_source/RTMP/librtmp/RTMPServerSession.cpp:26-69 | One message, by content: a unit list gives its frame, a configuration its last parameter sets, a command its answer, everything else nothing; a command that cannot be decoded fails. |
| Conversations.EveryMessageHasContent | vcamera_source/RTMP/librtmp/RTMPServerSession.cpp:26-69 | Every message there can be is one of these contents. |
| Conversations.AnswersExactly | vcamera_source/RTMP/librtmp/RTMPServerSession.cpp:74-127 | connect, createStream, publish, and the three plain commands with a positive id get exactly the messages written out value by value; other commands get none. |
| Conversations.GreetingOnTheWire | vcamera_source/RTMP/librtmp/RTMPServerSession.cpp:12-20 | The greeting, byte for byte. |
| Conversations.PositiveIsInOrder | vcamera_source/RTMP/librtmp/RTMPServerSession.cpp:113-120 | The test for a positive transaction id, on the bytes of a double, is their order as an integer up to infinity. |
| ServerSessions.RTMPServerSession.constructor | vcamera_source/RTMP/librtmp/RTMPServerSession.cpp:12-20 | Sends exactly the greeting, if no send fails. |
| ServerSessions.RTMPServerSession.HandleAMF | vcamera_source/RTMP/librtmp/RTMPServerSession.cpp:74-127 | Sends exactly the answer, sets the publishing flag exactly on publish, fails exactly when decoding or sending does. |
| ServerSessions.RTMPServerSession.BuildCommand | vcamera_source/RTMP/librtmp/RTMPServerSession.cpp:216-267 | The encoder's buffer is the concatenation of the encoded values. |
| ServerSessions.RTMPServerSession.GetRTMPMessage | vcamera_source/RTMP/librtmp/RTMPServerSession.cpp:26-69 | Over any number of messages: the returned frame, reader state, unread bytes, publishing flag and everything sent are those of the message loop as a function of the bytes, also when a command fails to decode. |
| Video.NalusOfRecords | vcamera_source/RTMP/librtmp/RTMPServerSession.cpp:185-198 | On every sequence of length-prefixed units followed by a truncated one, exactly the non-empty units are kept. |
| Video.SplitRecords | vcamera_source/RTMP/librtmp/RTMPServerSession.cpp:187-197 | Every payload is such a sequence. |
| Video.SplitIsUnique | vcamera_source/RTMP/librtmp/RTMPServerSession.cpp:187-197 | In one way only. |
| Video.ExtractionIsIdempotent | vcamera_source/RTMP/librtmp/RTMPServerSession.cpp:185-198 | The extracted data re-parses as non-empty records, and extracting it again is the identity. |
| Video.ConfigParses | vcamera_source/RTMP/librtmp/RTMPServerSession.cpp:157-179 | Every well-formed AVCDecoderConfigurationRecord (section 5.2.4.1 of ISO/IEC 14496-15) yields its last sequence and last picture parameter set. |
| Video.ConfigSlices | vcamera_source/RTMP/librtmp/RTMPServerSession.cpp:157-179 | On arbitrary bytes both results are slices of the payload. |
| Video.ConfigExactly | vcamera_source/RTMP/librtmp/RTMPServerSession.cpp:157-179 | Two parameter sets are found if and only if two counted lists of length-prefixed sets, the last one possibly cut short, stand in the record with these as their last ones. |
| Video.UnitsArePassedOn | vcamera_source/RTMP/librtmp/RTMPServerSession.cpp:134-199 | A NAL unit message becomes a frame with its times, key-frame mark and non-empty units, exactly when it has one. |
| Video.ConfigurationIsPassedOn | vcamera_source/RTMP/librtmp/RTMPServerSession.cpp:134-179 | A sequence header becomes a frame with the last parameter sets. |
| Video.HandleVideo | vcamera_source/RTMP/librtmp/RTMPServerSession.cpp:134-201 | The method, for all payloads, computes the frame function, with every access in bounds. |
| Video.ExtractNalus | vcamera_source/RTMP/librtmp/RTMPServerSession.cpp:186-197 | The loop computes the extraction function. |
| Video.ReadSets | vcamera_source/RTMP/librtmp/RTMPServerSession.cpp:162-169 | The parameter-set loop computes its function, with early end and failure. |
| Ipc.FragmentationIsHarmless | vcamera_source/VCamBridge/VCamBridge.m:108-124 | For every byte string, every way of cutting it and every buffer state: the packets found, the bytes left over and the open or closed outcome are what the whole spells; and so are the floats of packet 1004 if each such packet came to the front of the buffer with at most four bytes behind it. |
| Ipc.BeautyIsRightExactly | vcamera_source/VCamBridge/VCamBridge.m:500-517 | In a buffer of n bytes the floats of packet 1004 are its own, for all contents, if and only if n is at most 32. |
| Ipc.CutChangesBeauty | vcamera_source/VCamBridge/VCamBridge.m:505-512 | The same 36 bytes: in one piece the first float of packet 1004 is the operand of the packet behind it, cut between the two it is its own. |
| Ipc.SafeExactlyWhenInTime | vcamera_source/VCamBridge/VCamBridge.m:429-608 | For every list of commands and every cut of its bytes: all lists of the same kinds are dispatched as written under that cut if and only if every packet 1004 is complete with at most four bytes behind it. |
| Ipc.ParseReads | vcamera_source/VCamBridge/VCamBridge.m:429-608 | On any buffer the parser finds exactly the packets the bytes spell, with their operands, floats of a late packet 1004 excepted. |
| Ipc.HeadIsStable | vcamera_source/VCamBridge/VCamBridge.m:429-608 | Once a packet is found or the connection rejected, further bytes cannot change what the packet says. |
| Ipc.FindsExactly | vcamera_source/VCamBridge/VCamBridge.m:429-608 | On any bytes a command is found, with a given rest, if and only if a packet for it stands there: 1000, 1001, the eight settings with four bytes, 1004 with 24, login 1014 and re-check 1016 with sizes and credentials. |
| Ipc.WaitsExactly | vcamera_source/VCamBridge/VCamBridge.m:429-608 | The parser waits exactly while a known code's packet is incomplete; any other code, and any impossible size, is rejected as soon as it is there. |
| Ipc.BeautyFloats | vcamera_source/VCamBridge/VCamBridge.m:500-517 | Byte by byte, where the five floats of packet 1004 come from in a buffer of any length. |
| Ipc.CommandsSurviveFragmentation | vcamera_source/VCamBridge/VCamBridge.m:429-608 | Any list of commands, serialised and cut anyhow, is found as exactly that list with nothing left over, and dispatched as exactly that list if every packet 1004 comes in time. |
| Ipc.OthersAreInTime | vcamera_source/VCamBridge/VCamBridge.m:429-608 | Lists without packet 1004 are dispatched exactly under every cut. |
| Ipc.CredentialsExactly | vcamera_source/VCamBridge/VCamBridge.m:546-585 | A login or re-check packet is accepted as its two C strings if and only if each has at most 256 bytes and is valid UTF-8; otherwise it closes the connection. |
| Ipc.PacketPayload | vcamera_source/VCamBridge/VCamBridge.m:358-371 | The packet builder's size field is the length of the credentials it writes. |
| Ipc.ConnectionsAreIndependent | vcamera_source/VCamBridge/VCamBridge.m:108-124 | In any interleaving of connections each one's commands are those of its own bytes alone. |
| Ipc.ConnectionIsFed | vcamera_source/VCamBridge/VCamBridge.m:108-124 | While it stays open, a connection dispatches what its pieces fed to one buffer give. |
| Ipc.StartsAfresh | vcamera_source/VCamBridge/VCamBridge.m:108-124 | A connection that ended or was rejected leaves nothing to the next one on its descriptor. |
| Ipc.VCamBridge.Parse | vcamera_source/VCamBridge/VCamBridge.m:429-608 | The in-place loop dispatches the commands of the buffer, reading the floats of packet 1004 from the memory after the removal, leaves the rest, or removes the connection. |
| Ipc.VCamBridge.OnEvent | vcamera_source/VCamBridge/VCamBridge.m:108-124 | The callback appends to the connection's buffer and parses it, or removes it at its end. |
| Reorder.DisplayOrder | vcamera_source/H264Decoder/H264Decoder.m:94-137 | Over a whole run from reset, frames shown plus the held one are a permutation of the input, stable, and in display order if and only if no frame arrives after two later ones. |
| Reorder.FeedIsBubblePass | vcamera_source/H264Decoder/H264Decoder.m:94-137 | The run is exactly one bubble-sort pass over the arrived frames. |
| Reorder.InOrderExactlyWhenAtMostOneLate | vcamera_source/H264Decoder/H264Decoder.m:57-59 | A bubble-sort pass sorts a sequence if and only if every element has at most one greater predecessor. |
| Reorder.InsertKeepsOrder | vcamera_source/H264Decoder/H264Decoder.m:99-137 | Insertion into a ring of 0 to 4 entries keeps it sorted, hands out its least time and loses only what the overflow branch drops. |
| Reorder.WorstIsDropped | vcamera_source/H264Decoder/H264Decoder.m:105-113 | What a full ring loses is the new frame if none is later, otherwise the latest one in it. |
| Reorder.InsertIntoOne | vcamera_source/H264Decoder/H264Decoder.m:105-113 | Between calls the ring holds at most one frame, so the overflow branch is out of reach and nothing is dropped. |
| Reorder.BubbleIsStable | vcamera_source/H264Decoder/H264Decoder.m:101-103 | Frames with equal times keep their order. |
| Reorder.ReorderRing.InsertFrame | vcamera_source/H264Decoder/H264Decoder.m:94-137 | In place, on a ring of any size: the insertion function, and one retain per entry, the returned entry's retain passing to the caller. |
| Reorder.ReorderRing.DecodeCallback | vcamera_source/H264Decoder/H264Decoder.m:149-192 | Keeps the invariant: shown plus held frames are the pass of the arrived ones, and every retain is held by the ring or released. |
| Reorder.ReorderRing.Reset | vcamera_source/H264Decoder/H264Decoder.m:84-89 | Releases everything: retained and released buffers are then the same multiset. |
| Dedup.AcceptedAreSpaced | vcamera_source/VCamLive/VCamLiveManager.m:356-370 | Over any run, equal accepted keys are more than eight acceptances apart. |
| Dedup.OfferedAreRemembered | vcamera_source/VCamLive/VCamLiveManager.m:356-370 | Every offered key has been accepted at some point. |
| Dedup.KeysTellTimesApart | vcamera_source/VCamLive/VCamLiveManager.m:350-356 | Two frames of one buffer have the same key if and only if they have the same time, wrapping included. |
| Dedup.InWindow | vcamera_source/VCamLive/VCamLiveManager.m:356-370 | A key is in the window if and only if it is among the last eight accepted. |
| Dedup.DedupRing.Admit | vcamera_source/VCamLive/VCamLiveManager.m:350-370 | A frame is rejected if and only if its key is among the last eight accepted; the array always holds those, in order, pairwise distinct. |
| Prefs.WithinHalfAStep | vcamera_source/BINFlash/BINFlashPrefs.m:134-147 | Unpacking after packing returns every setting clamped and within half a step, flags and no-colour exactly. |
| Prefs.UnpackPack | vcamera_source/BINFlash/BINFlashPrefs.m:31-40 | Every field survives its bit position; the word has 64 bits and its dirty bit set. |
| Prefs.BitLayout | vcamera_source/BINFlash/BINFlashPrefs.m:31-53 | Which bits of the word hold which field, by position and width. |
| Prefs.PackUnpack | vcamera_source/BINFlash/BINFlashPrefs.m:116-149 | Packing is the identity on unpacked words, whatever else is in the dictionary. |
| Prefs.QuantiseIsStable | vcamera_source/BINFlash/BINFlashPrefs.m:124-147 | Quantising quantised settings changes nothing. |
| Prefs.NoDrift | vcamera_source/BINFlash/BINFlashPrefs.m:152-171 | After a save, saving nothing changes nothing more. |
| Prefs.SavedIsLoaded | vcamera_source/BINFlash/BINFlashPrefs.m:62-112 | What a save wrote is loaded as the quantised merge. |
| Prefs.ChangesAreSaved | vcamera_source/BINFlash/BINFlashPrefs.m:152-165 | Key by key, what a save stores: a change before the loaded value, quantised if it travels in the word. |
| Prefs.LoadOrder | vcamera_source/BINFlash/BINFlashPrefs.m:75-104 | A load takes each key from the notification state, else from the file, else from the defaults. |
| Prefs.FirstFileIsRead | vcamera_source/BINFlash/BINFlashPrefs.m:90-94 | Only the first property list that exists is read. |
| Prefs.NothingStored | vcamera_source/BINFlash/BINFlashPrefs.m:75-104 | With nothing stored and the top bit clear: the defaults, by value. |
| Prefs.CacheLivesExactly | vcamera_source/BINFlash/BINFlashPrefs.m:65-68 | Cached settings are returned if and only if they are less than 33 ms old. |
| Prefs.PrefsProcess.Load | vcamera_source/BINFlash/BINFlashPrefs.m:62-112 | Returns the cached settings within the cache's lifetime, otherwise what the files and the notification state hold, and caches that. |
| Prefs.LoadsAreRecent | vcamera_source/BINFlash/BINFlashPrefs.m:56-112 | In every run of loads and saves by any processes, every load returns what the store held at some moment less than 33 ms before. |
| Prefs.SavesAreSeen | vcamera_source/BINFlash/BINFlashPrefs.m:62-68 | 33 ms after the last save every process gets what it stored. |
| Prefs.SaverSeesItsOwn | vcamera_source/BINFlash/BINFlashPrefs.m:168-170 | The process that does all the saving always gets exactly what the store holds. |
| Prefs.OthersCanBeBehind | vcamera_source/BINFlash/BINFlashPrefs.m:65-68 | Another process can load the overwritten settings after the save, and does so until its cache expires. |
| Prefs.PrefsProcess.Save | vcamera_source/BINFlash/BINFlashPrefs.m:152-171 | After a save the store holds the quantised merge of what the process loaded and the changes, and the process has no cache. |
| Pixels.PixelMoves | vcamera_source/BINFlash/BINFlashPixelEffect.m:132-166 | Luma never decreases; each chroma byte moves towards the whole part of its target and not past it. |
| Pixels.LumaEffect | vcamera_source/BINFlash/BINFlashPixelEffect.m:120-140 | Over the whole plane: nothing darker, nothing beyond the rim or in the padding changed, every pixel of the unit ellipse blended. |
| Pixels.ChromaEffect | vcamera_source/BINFlash/BINFlashPixelEffect.m:142-168 | The same for both bytes of every chroma sample. |
| Pixels.LumaCovers | vcamera_source/BINFlash/BINFlashPixelEffect.m:120-123 | Every pixel whose centre is in the unit ellipse is in the visited box. |
| Pixels.ChromaCovers | vcamera_source/BINFlash/BINFlashPixelEffect.m:146-150 | And every chroma sample. |
| Pixels.ApplyLuma | vcamera_source/BINFlash/BINFlashPixelEffect.m:125-140 | In place, in bounds: exactly the box gets new luma from its own old bytes. |
| Pixels.ApplyChroma | vcamera_source/BINFlash/BINFlashPixelEffect.m:152-168 | The same on the chroma plane. |
| Packed.PackedEffect | vcamera_source/BINFlash/BINFlashPixelEffect.m:169-289 | On packed buffers: YUV bytes move towards their target and not past it, a colour channel never ends below both its target and its old value; nothing changes beyond the rim, in the padding or in an alpha byte; every pixel of the unit ellipse is blended. |
| Packed.TintMoves | vcamera_source/BINFlash/BINFlashPixelEffect.m:272-286 | Lightening and then tinting a channel never leaves it below both its old value and its target, and does nothing at the rim. |
| Packed.TintNears | vcamera_source/BINFlash/BINFlashPixelEffect.m:274-286 | In the middle of a full flash a channel is within 27 of its target, whatever it was. |
| Packed.ApplyPacked | vcamera_source/BINFlash/BINFlashPixelEffect.m:194-288 | In place, in bounds, with chroma bytes shared by a pair of pixels or four bytes a pixel: exactly the bytes that pixels of the box write get their new value, from their own old one. |
| Flash.ApplyToPixelBuffer | vcamera_source/BINFlash/BINFlashPixelEffect.m:69-292 | For every pixel format: the frame is changed exactly when the flash is lit, the frame has at most four million pixels, there is a colour and, for 32-bit colour, the rows are long enough; then every pixel of the unit ellipse has each channel drawn to that channel of the hue's colour, in the byte where the format's four letters put it, and alpha stays. It says when the face is forgotten. |
| Flash.ColoursAre32 | vcamera_source/BINFlash/BINFlashPixelEffect.m:220-288 | In a 32-bit buffer BGRA, RGBA, ARGB (code 32) or ABGR (other codes) name the bytes of a pixel, first to last; each is tinted with its own channel of the hue. |
| Flash.ColoursAre422 | vcamera_source/BINFlash/BINFlashPixelEffect.m:169-219 | In a 4:2:2 buffer the bytes are Y, Cb, Y, Cr, the chroma drawn to its targets with the even pixel's weight. |
| Flash.FormatsByName | vcamera_source/BINFlash/BINFlashPixelEffect.m:103-170 | The codes taken for biplanar and for packed 4:2:2 are those that spell 420f, 420v, yuvs and yuss. |
| Flash.LitBrightnessIs | vcamera_source/BINFlash/BINFlashPixelEffect.m:33-38 | The lit brightness as a formula of the settings, where they are per cents in range. |
| Flash.LitPartIs | vcamera_source/BINFlash/BINFlashPixelEffect.m:46-47 | The lit part of a period: half up to a speed of 15, then shorter, all of it from 30 on. |
| Flash.SettingsAreRead | vcamera_source/BINFlash/BINFlashFaceRegion.m:40-58 | Region and hue used by the effect are those of the packed settings. |
| Flash.StrobesExactly | vcamera_source/BINFlash/BINFlashPixelEffect.m:40-49 | A strobing flash has its brightness exactly in the lit first part of each of its periods, and none in the rest. |
| Pixels.BlendShares | vcamera_source/BINFlash/BINFlashPixelEffect.m:118-166 | How far a luma or chroma byte is moved, with the limits, as an explicit mixture. |
| Packed.TintShares | vcamera_source/BINFlash/BINFlashPixelEffect.m:251-286 | How far a channel is lightened and then tinted, as an explicit mixture. |
| Pixels.WeightFades | vcamera_source/BINFlash/BINFlashPixelEffect.m:132-134 | The fade is one minus the smooth step from 0.30 to 1.18. |
| Packed.PixelPlace | vcamera_source/BINFlash/BINFlashPixelEffect.m:127-129 | A pixel's distance is that of its middle in the ellipse's own coordinates. |
| Pixels.BoxIs | vcamera_source/BINFlash/BINFlashPixelEffect.m:120-123 | Which columns or rows are visited, luma and chroma. |
| Pixels.TargetsAreBT601 | vcamera_source/BINFlash/BINFlashPixelEffect.m:142-143 | The chroma targets agree with the colour differences of ITU-R BT.601 to within 0.01. |
| Pixels.HueIsSaturated | vcamera_source/BINFlash/BINFlashPixelEffect.m:53-66 | The hue conversion has one full and one empty channel, and both chroma targets are within a byte. |
| Pixels.HueRoundTrip | vcamera_source/UI/VCamColorPickerWindow.m:92-103 | The colour picker's hue formula inverts the effect's hue conversion, also after softening. |
| Pixels.PureHues | vcamera_source/BINFlash/BINFlashPixelEffect.m:53-66 | Red, yellow, green, cyan, blue and magenta are at the six sixths. |
| Pixels.GreyHasNoHue | vcamera_source/UI/VCamColorPickerWindow.m:92-103 | The picker finds no colour exactly in greys. |
| Pixels.FaceRegion | vcamera_source/BINFlash/BINFlashFaceRegion.m:27-100 | For all settings the centre stays in the frame away from its edges, and both radii stay between 0.14 and 0.66 of the smaller side, but are at least eight pixels. |
| Pixels.FaceCentre | vcamera_source/BINFlash/BINFlashFaceRegion.m:47-58 | The centre is where it was put by hand, on the face found, or in the middle. |
| Pixels.FaceRadii | vcamera_source/BINFlash/BINFlashFaceRegion.m:61-77 | Without a face, in frames of at least 58 pixels a side and for region settings of 10 to 100 per cent: the radii as formulas of the smaller side and the setting, exchanged when the picture lies on its side. |
| Pixels.FaceEnlarges | vcamera_source/BINFlash/BINFlashFaceRegion.m:79-90 | For region settings of 10 to 100 per cent, a face found makes the region as large as its own size wants, and never smaller. |
| Pixels.FaceTracker.Compute | vcamera_source/BINFlash/BINFlashFaceRegion.m:32-61 | A change of rotation forgets the face found before it. |

## Left out

- Interleaving.InterleavingIsHarmless: excludes continuation chunks of messages with extended timestamps and type 3 chunks that begin a message, because the reader does not implement them; `InStepExactlyWhenSupported` and `RepeatedHeaderDatesRightExactly` say exactly what happens there.
- Transcript.AllSurviveExactly: says nothing about Set Chunk Size messages, which are absorbed.
- Session.TranscriptIsReceived: excludes later Set Chunk Size messages with another size, because the sender's own chunk size never changes.
- Endpoints.RTMPEndpoint.ReadMessage: does not describe the object after a failed read; calls repeated after one are not modelled.
- Session.ConversationIsHeard: ends where the readable bytes do, and the user never stops the server.
- Ipc.VCamBridge.Parse: does not model what the dispatched commands do to the camera and the RTMP server; they are recorded in order.
- Prefs.PrefsProcess.Save: assumes file and notification calls that succeed and do not interleave with another process's, and settings that are numbers, flags or objects without either accessor; strings that parse as numbers are not modelled.
- Flash.ApplyToPixelBuffer: requires frames of at least two by two pixels and planes as long as their rows say, whole pixel pairs in 4:2:2; the throttled calls of the face detection are not modelled.
- The handshake, which only copies fixed blocks of bytes.
- The byte counter and the unused transaction id of RTMPServerSession, which nothing reads.
- Closing of connections beyond removal from the table; sockets, run loops, threads and the accept loop.
- VideoToolbox and CoreVideo calls, Vision face detection, and the landmark update of the face position.
- The colour picker's window clamping and pixel averaging in front of its hue formula.
- AMFValue's lookups by key, which no decoder or encoder path uses.
- Rounding of doubles in pixels, hues and preferences.
- Encoded strings whose Unicode content matters: strings are byte sequences.
