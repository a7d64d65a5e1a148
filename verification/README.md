# TetherDisplay: verified core

TetherDisplay streams a Windows display to an iPad over a USB tunnel. This project models the parts of
it that carry the protocol, in Dafny, and proves what they promise.

- `Bytes`, `Text`: bytes, little-endian fields, substring search and decimal numbers.
- `Wire`, `WireCodec`, `WireLayout`: the messages of the wire protocol, as functions, as the reader and writer
  classes that compute them, and in numbers, byte by byte. `FrameParsing`: the incremental parser with its
  cursor and its compaction.
- `Records`, `ByteChannels`, `Crypto`, `Pairing`, `IdentityStore`, `SecureByteChannels`: the host's encrypted
  channel, from length-prefixed records to pairing with a pinned peer. `SecureTransports`: the iPad's
  buffering record reader. `ForgedRecords`, `IllSizedRecords`: what reading does
  at a record the peer did not seal, and behind one of a bad length.
- `EndToEnd`: all layers together. `Handshake`: agreement and the history of the pin, against a network
  that delivers anything. `PairedStreams`: pairing on both sides and then messages, as one connection.
- `Session`, `SessionHistory`, `SessionWire`, `SessionLiveness`: the live session as interleaved threads.
- `AnnexB`, `Plist`, `HostConfig`, `ModeSelect`: the bitstream splitter and rewriter, the property lists of
  the USB multiplexer, the configuration file with the rate plan made from it, and the choice of a
  display mode.

Cryptography is ideal and passed as a value of type `Crypto.Primitives`: the n-th record of a stream opens
if and only if it is the n-th one the peer sealed, sealing adds 17 bytes, and session keys of two roles
are crossed. A transport (`ByteChannels.ByteChannel`, `SecureTransports.Connection`) splits reads as it likes and
may fail; `reliable` says that it does not. In the session a step is one access to shared state. A write
may wait for as long as the peer takes nothing, and a read for as long as it sends nothing; closing the
channel wakes both (windows-host/core/include/td/core/byte_channel.hpp:19). A channel whose write failed or
that was closed keeps failing, and a read on a closed channel ends once the bytes that came have been read.
Stopping the capture waits for the callback in flight, as windows-host/capture/src/wgc_capture.cpp:174-182
does; other calls of capture and encoder return.

Where the code falls short of what one could expect, the exact limits are proved:

- `Wire.SurvivesIffEncodable`: messages of another version, over-long reasons and oversized payloads do not
  come back; they are contracts of the callers.
- `Handshake.AgreementIff`: a session that accepts an honest peer has a partner if and only if the hello it read
  is not of its own identity; `Handshake.OwnIdentityHasNoPartner` gives the run for a hello that is.
- `Plist.ProgramNameReadsBack`: a program name is not escaped; it reads back unless it holds its closing tag.
- `SessionLiveness.StoppedSessionReturnsIff`: `Run` of a session that stopped running returns under every fair
  schedule if and only if the channel was closed, or its reader is not waiting in `Recv` with nothing come and
  either a write has failed or no thread has anything to send. `SessionLiveness.SilentPeerHangsRun` and
  `SessionLiveness.UndrainedPeerHangsRun` reach the two kinds of states in which it may not.
- `IllSizedRecords.ReadTwice`: a record of a bad length makes `Recv` return 0 without latching a failure
  (windows-host/crypto/src/secure_byte_channel.cpp:103). Over a reliable transport the next `Recv` returns
  plaintext if and only if the bytes behind that record's header hold some; `IllSizedRecords.ReadOn` says when
  any later one does, `IllSizedRecords.ReadsBehindBadLength` is an input. What is returned is still a prefix of
  what the peer sealed.
- `ModeSelect.ExactIff`: 64-bit arithmetic on areas is exact if and only if the larger width times the larger
  height is below 2^63.

## Model

| member | source | states |
|---|---|---|
| `WireCodec.ByteWriter.U16` | windows-host/transport/protocol/src/wire.cpp:33-36 | appends the two little-endian bytes of the value (the shifts and masks equal the little-endian specification that reads back) |
| `WireCodec.ByteWriter.U32` | windows-host/transport/protocol/src/wire.cpp:37-39 | the shift loop appends the four little-endian bytes |
| `WireCodec.ByteWriter.U64` | windows-host/transport/protocol/src/wire.cpp:40-42 | the shift loop appends the eight little-endian bytes |
| `WireCodec.ByteReader.Ensure` | windows-host/transport/protocol/src/wire.cpp:91-98 | the error latches at the first read past the end and never clears |
| `WireCodec.ByteReader.U16` | windows-host/transport/protocol/src/wire.cpp:59-65 | without error: the little-endian field at the cursor, which moves past it; with error: zero, and nothing moves |
| `WireCodec.ByteReader.U32` | windows-host/transport/protocol/src/wire.cpp:66-72 | the same for four bytes, by the shift-and-or loop |
| `WireCodec.ByteReader.U64` | windows-host/transport/protocol/src/wire.cpp:73-79 | the same for eight bytes |
| `WireCodec.ByteReader.Take` | windows-host/transport/protocol/src/wire.cpp:80-85 | takes exactly the next bytes, or latches the error and takes none |
| `WireCodec.BodyOf` | windows-host/transport/protocol/src/wire.cpp:127-161 | channel, type and payload of every message are those of the wire table; an over-long reason is clamped to 65535 bytes |
| `WireCodec.EncodeFrame` | windows-host/transport/protocol/src/wire.cpp:178-196 | writes the length, channel, type, zero flags and payload of the frame |
| `WireCodec.EncodeMessage` | windows-host/transport/protocol/src/wire.cpp:198-202 | refines the pure `Encode` |
| `WireCodec.DecodeMessage` | windows-host/transport/protocol/src/wire.cpp:204-282 | the latched-error reader gives, for every frame, the verdict of the pure `Decode`: the message or the same error in the same order of checks |
| `Wire.DecodeEncode` | windows-host/transport/protocol/src/wire.cpp:106-161 | decoding the frame of an encodable message gives the message back |
| `Wire.EncodeDecode` | windows-host/transport/protocol/src/wire.cpp:204-282 | a frame that decodes is exactly the frame its message encodes to, and that message is encodable |
| `Wire.SurvivesIffEncodable` | windows-host/transport/protocol/src/wire.cpp:198-324 | a message survives encoding, parsing and decoding, whatever follows it, if and only if it has protocol version 1, a reason of at most 65535 bytes and a payload of at most 16 MiB |
| `Wire.AcceptedBytesAreCanonical` | windows-host/transport/protocol/src/wire.cpp:204-324 | bytes that the parser and the decoder accept re-encode to exactly those bytes |
| `Wire.ParsePrinted` | windows-host/transport/protocol/src/wire.cpp:296-324 | parsing a written frame gives it back, whatever bytes follow |
| `Wire.PrintParsed` | windows-host/transport/protocol/src/wire.cpp:296-324 | a parsed frame, written again, is exactly the bytes consumed |
| `Wire.VerdictIsFinal` | windows-host/transport/protocol/src/wire.cpp:296-324 | a frame or a hard error does not depend on bytes that come later |
| `Wire.FramesOfPrinted` | windows-host/transport/protocol/src/wire.cpp:296-324 | written frames come back in order, then the rest is parsed as if alone |
| `Wire.FramesPartition` | windows-host/transport/protocol/src/wire.cpp:296-324 | the frames of any stream, written again, followed by the remainder, are the stream |
| `Wire.StreamRoundTrip` | windows-host/transport/protocol/src/wire.cpp:198-324 | the messages of a concatenation of encoded messages are those messages, in order |
| `WireLayout.CapsLayout` | windows-host/transport/protocol/src/wire.cpp:127-141 | every byte of HELLO, WELCOME and FORMAT_CHANGE |
| `WireLayout.SmallLayout` | windows-host/transport/protocol/src/wire.cpp:146-152 | every byte of PING, PONG and KEYFRAME_REQUEST |
| `WireLayout.ReasonLayout` | windows-host/transport/protocol/src/wire.cpp:119-125 | every byte of ERROR and DISCONNECT, the reason cut to 65535 bytes |
| `WireLayout.VideoLayout` | windows-host/transport/protocol/src/wire.cpp:153-156 | every byte of VIDEO_FRAME |
| `WireLayout.SurvivesIff` | windows-host/transport/protocol/include/td/protocol/wire.hpp:16-46 | the exact condition for survival in numbers: version 1, reasons of at most 65535 bytes, payloads of at most 16777216 |
| `WireLayout.ParserVerdicts` | windows-host/transport/protocol/src/wire.cpp:296-324 | every verdict of the parser in terms of the bytes: what is refused from the length alone, what needs the whole frame, and the frame taken |
| `WireLayout.DecoderVerdicts` | windows-host/transport/protocol/src/wire.cpp:204-282 | every error of the decoder, and in which order they are found |
| `FrameParsing.FrameParser.Feed` | windows-host/transport/protocol/src/wire.cpp:284-294 | appends with both compaction branches: cleared when all is consumed, erased to the cursor when that passed 64 KiB |
| `FrameParsing.FrameParser.Next` | windows-host/transport/protocol/src/wire.cpp:296-324 | the verdict of the pure parser on the unread bytes; the cursor moves past the frame, or nothing changes |
| `FrameParsing.FeedKeepsUnread` | windows-host/transport/protocol/src/wire.cpp:284-294 | neither compaction branch changes the unread bytes; afterwards the dead prefix is at most 65536 bytes |
| `FrameParsing.FedIsYieldedThenUnread` | windows-host/transport/protocol/src/wire.cpp:284-324 | in every run of `feed` and `next`, the bytes fed are the frames yielded, written again, and then the bytes unread |
| `FrameParsing.RunRefinesPureParser` | windows-host/transport/protocol/src/wire.cpp:284-324 | in every run, the frames yielded so far followed by those still to come are the frames of the whole stream fed |
| `FrameParsing.DrainedRunsAgree` | windows-host/transport/protocol/src/wire.cpp:284-324 | two drained runs fed the same bytes, cut differently, yielded the same frames, hold the same bytes and give the same verdict |
| `FrameParsing.HardErrorIsTerminal` | windows-host/transport/protocol/src/wire.cpp:305-315 | after a hard error every later run of `feed` and `next` gives that same error and no frame |
| `FrameParsing.DrainedBufferIsBounded` | windows-host/transport/protocol/src/wire.cpp:284-307 | once drained, fewer than 16 MiB + 7 bytes stay buffered |
| `Records.ReadWritten` | windows-host/crypto/src/secure_byte_channel.cpp:32-51 | a written record is read back, whatever follows, if and only if it is not empty and at most 17 MiB |
| `Records.WrittenRead` | windows-host/crypto/src/secure_byte_channel.cpp:32-51 | a record read, written again, is exactly the bytes consumed |
| `Records.RecordIsFinal` | windows-host/crypto/src/secure_byte_channel.cpp:32-41 | the verdict on a record does not depend on later bytes |
| `Records.RecordsOfWritten` | windows-host/crypto/src/secure_byte_channel.cpp:32-51 | written records come back in order |
| `Records.RecordInBytes` | windows-host/crypto/src/secure_byte_channel.cpp:43-51 | a record in bytes, and the 17825792 it may hold |
| `Records.RecordVerdicts` | windows-host/crypto/src/secure_byte_channel.cpp:32-41 | every verdict on the front of a stream in terms of its bytes |
| `SecureByteChannels.SecureByteChannel.RecvExact` | windows-host/crypto/src/secure_byte_channel.cpp:22-30 | exactly the next bytes, however the transport splits them; over a reliable transport it fails only if too few remain |
| `SecureByteChannels.SecureByteChannel.ReadFramed` | windows-host/crypto/src/secure_byte_channel.cpp:32-41 | exactly the next record of the stream; over a reliable transport it fails only if there is none, and then leaves the bytes behind the header of an ill-sized record, or nothing |
| `SecureByteChannels.SecureByteChannel.WriteFramed` | windows-host/crypto/src/secure_byte_channel.cpp:43-51 | on success the record, and nothing else, was appended; on failure a part of it |
| `SecureByteChannels.SecureByteChannel.SendAll` | windows-host/crypto/src/secure_byte_channel.cpp:92-95 | one sealed record per call with the next number, or a part of it on failure; nothing is sent before the channel is established or after it broke |
| `SecureByteChannels.SecureByteChannel.Refill` | windows-host/crypto/src/secure_byte_channel.cpp:101-109 | one turn of the loop succeeds exactly on a record that opens, consumes it and keeps what can still be read; a record that does not open latches the failure |
| `SecureByteChannels.SecureByteChannel.Recv` | windows-host/crypto/src/secure_byte_channel.cpp:97-114 | for any inbound bytes and buffer size: what was returned so far is a prefix of what the peer sealed; -1 exactly for a broken or missing channel, and a broken one returns nothing ever again; a read takes exactly the front of what can be read, and the record-skipping loop ends. Over a reliable transport what can be read is what is left over and the plaintexts of the genuine records; then -1 if a forged record follows, 0 if none does; and after 0 later calls can read what the bytes behind an ill-sized header hold |
| `SecureByteChannels.ReadingStopsAt` | windows-host/crypto/src/secure_byte_channel.cpp:97-114 | the first record that is not what the peer sealed next ends what can be read, whatever follows |
| `ForgedRecords.ForgedRecordEndsReading` | windows-host/crypto/src/secure_byte_channel.cpp:105 | a record that does not open ends what can be read, whatever follows it |
| `ForgedRecords.ReadAll` | windows-host/crypto/src/secure_byte_channel.cpp:97-114 | reads until nothing comes: exactly the plaintexts of the genuine records, and whether a forged one followed |
| `ForgedRecords.StopsAtForgedRecord` | windows-host/crypto/src/secure_byte_channel.cpp:105 | a concrete input: a forged record before a genuine one; both reads return -1 |
| `IllSizedRecords.ReadsOnIff` | windows-host/crypto/src/secure_byte_channel.cpp:38 | where reading stopped unbroken it can go on if and only if the record there is ill-sized and the bytes behind its header hold plaintext |
| `IllSizedRecords.ReadTwice` | windows-host/crypto/src/secure_byte_channel.cpp:97-114 | two reads in a row: the first returns 0 exactly if nothing can be read and reading stops at a missing or ill-sized record; then the second returns plaintext if and only if the record is ill-sized and the bytes behind its header hold some |
| `IllSizedRecords.ReadOn` | windows-host/crypto/src/secure_byte_channel.cpp:97-114 | reads repeated while they return 0 come to plaintext if and only if some could be read or reading recovers: behind one or several ill-sized headers in a row there is some |
| `IllSizedRecords.ReadsBehindBadLength` | windows-host/crypto/src/secure_byte_channel.cpp:103 | a concrete input: a zero length and then the first record of the peer; the first read returns 0, the second the plaintext |
| `SecureTransports.SecureTransport.SendFramed` | ios-client/Security/SecureTransport.swift:74-78 | the same bytes as the host's record writer, in one write |
| `SecureTransports.SecureTransport.ExtractFrame` | ios-client/Security/SecureTransport.swift:84-94 | the verdict of the host's record reader on the buffer, which loses exactly the record |
| `SecureTransports.SecureTransport.ReadFrame` | ios-client/Security/SecureTransport.swift:97-113 | the next record of buffered and arriving bytes, whatever pieces arrive; over a reliable connection it fails only if there is none |
| `SecureTransports.HostReadsAll` | windows-host/crypto/src/secure_byte_channel.cpp:22-41 | every record the host reads before it stops: the records of the stream, all of them over a reliable transport |
| `SecureTransports.PadReadsAll` | ios-client/Security/SecureTransport.swift:84-113 | the iPad reads the same function of the stream, so both stop at the same record under every chunking |
| `EndToEnd.SealedMessageIsSendable` | windows-host/crypto/src/secure_byte_channel.cpp:8 | 16777216 + 7 bytes of framing + 17 bytes of AEAD fit the record cap of 17825792: a sealed encodable message is always sendable |
| `EndToEnd.SealedOpens` | windows-host/crypto/src/secure_byte_channel.cpp:92-114 | the peer's records, undisturbed, open to everything it sealed |
| `EndToEnd.CutStreamYieldsPrefix` | windows-host/core/src/streaming_session.cpp:50-74 | a stream of encoded messages cut anywhere yields a prefix of the messages |
| `EndToEnd.NeverBad` | windows-host/core/src/streaming_session.cpp:60-62 | no cut of a stream of encoded messages looks corrupt to the parser |
| `EndToEnd.Transparent` | windows-host/core/src/streaming_session.cpp:23-27 | encode, seal, frame, then unframe, open, parse, decode is the identity on every list of encodable messages |
| `EndToEnd.SendMessages` | windows-host/core/src/streaming_session.cpp:23-27 | over any transport: writes one sealed record per message, in order, and stops at the first send that fails; written are the records of those sent and at most a part of the next; over a reliable transport all are sent |
| `EndToEnd.ReceiveOnce` | windows-host/core/src/streaming_session.cpp:55-74 | one read and every frame it completed, up to a DISCONNECT; the messages logged are those of the frames taken from the plaintext returned |
| `EndToEnd.ReceiveMessages` | windows-host/core/src/streaming_session.cpp:50-74 | the whole receiver over any transport: the messages received are a prefix of those sent, at most up to the first DISCONNECT; if the transport is reliable and brings the peer's records they are all of them up to there, however the bytes were split |
| `PairedStreams.PairWith` | windows-host/crypto/src/secure_byte_channel.cpp:53-90 | pairing with an honest peer, pinned or new, over a transport that brings its answer: it succeeds unless a first pin cannot be saved; both streams are then at their start with crossed keys and exchanged headers, exactly this side's three records were sent, and what follows the answer is still to be read |
| `PairedStreams.PairAndExchange` | windows-host/crypto/src/secure_byte_channel.cpp:53-114 | one side of a connection: it pairs, sends its messages and receives the other's up to the first DISCONNECT, and sends exactly its three records and its sealed messages |
| `PairedStreams.PairAndStream` | windows-host/crypto/src/secure_byte_channel.cpp:53-114 | the whole connection both ways: everything one side wrote is carried to the other; both pair, each receives exactly the other's messages up to the first DISCONNECT, and what the second wrote is exactly what the first was given to read |
| `PairedStreams.ConnectionIsPossible` | windows-host/crypto/src/secure_byte_channel.cpp:53-114 | the premises of the previous row can be met for any messages either way |
| `Pairing.HelloReadBack` | windows-host/crypto/src/secure_channel.cpp:85-100 | the ephemeral and identity keys sent in a hello are those the peer takes from it |
| `Pairing.TranscriptIsInjective` | windows-host/crypto/src/secure_channel.cpp:102-116 | a transcript determines both identities and both ephemerals |
| `Pairing.TranscriptInParts` | windows-host/crypto/src/secure_channel.cpp:10-12 | the label in text, and at which positions the four keys are signed |
| `Pairing.HelloInParts` | windows-host/crypto/src/secure_channel.cpp:85-100 | the positions of the keys in a hello |
| `Pairing.Pairing.ConsumePeerHello` | windows-host/crypto/src/secure_channel.cpp:93-100 | only a hello of the right size is taken; then exactly the peer's keys change |
| `Pairing.Pairing.ConsumePeerConfirm` | windows-host/crypto/src/secure_channel.cpp:127-140 | a protocol error exactly without a hello or for a wrong size, a mismatch exactly for another identity than the pinned one, a bad signature exactly if the pin allows the identity and it did not sign; confirmed only after a verified signature |
| `Pairing.Pairing.MakeChannel` | windows-host/crypto/src/secure_channel.cpp:142-151 | the role's session keys, or an invalid channel for a degenerate peer key |
| `Pairing.SecureChannel.Encrypt` | windows-host/crypto/src/secure_channel.cpp:56-64 | the next record of the outgoing stream |
| `Pairing.SecureChannel.Decrypt` | windows-host/crypto/src/secure_channel.cpp:66-77 | opens exactly the next record of the peer; a failure does not advance |
| `SecureByteChannels.SecureByteChannel.Establish` | windows-host/crypto/src/secure_byte_channel.cpp:53-90 | success only if the peer passed the check against the pin found and the pin now holds the peer; then both streams are at their start, with the keys of the role, a new outgoing header and the third record as the incoming one, exactly three records were read and three written; the pin changes at most from none to the verified identity; over a reliable transport the result is exactly that of the table below, up to a store write that fails |
| `SecureByteChannels.OutcomeTable` | windows-host/crypto/src/secure_byte_channel.cpp:53-90 | the result as a table over the records received: rejected exactly for another identity than the pinned one, a bad signature exactly if the pin allows it, success, input error and protocol error by number, size and check of the records |
| `SecureByteChannels.SecureByteChannel.ExchangeConfirm` | windows-host/crypto/src/secure_byte_channel.cpp:64-78 | round 2 alone: pin, signature and first-use saving; a peer rejected leaves the store as it was |
| `SecureByteChannels.SecureByteChannel.OpenStreams` | windows-host/crypto/src/secure_byte_channel.cpp:80-89 | round 3 alone: the channel made from the session keys and the headers of both streams |
| `Handshake.HonestPairingSucceeds` | windows-host/crypto/src/secure_byte_channel.cpp:53-90 | an honest peer in the other role, pinned or unknown, whose bytes arrive, is accepted, and the keys of both sides are crossed |
| `Handshake.StepKeepsSound` | windows-host/crypto/src/secure_channel.cpp:118-140 | every step of sessions and network keeps: honest keys signed only transcripts of their own sessions |
| `Handshake.RunsAreSound` | windows-host/crypto/src/secure_channel.cpp:118-140 | so it holds after every run against a network that delivers anything |
| `Handshake.SameTranscriptMeansPartners` | windows-host/crypto/src/secure_channel.cpp:102-116 | equal transcripts of two sessions with distinct identities mean opposite roles, each other's keys and crossed session keys |
| `Handshake.Agreement` | windows-host/crypto/src/secure_channel.cpp:127-140 | in every run, a session that accepted an honest peer has a partner session of that peer that signed the very same transcript: same identities, same ephemerals, crossed keys |
| `Handshake.InjectiveAgreement` | windows-host/crypto/src/secure_channel.cpp:127-140 | with ephemerals used once the partner session is the only one, and no two sessions share a partner |
| `Handshake.OwnIdentityHasNoPartner` | windows-host/crypto/src/secure_channel.cpp:127-140 | a session that reads a hello of its own identity, with whatever ephemeral, accepts its own signature, pinned or not, and has no partner |
| `Handshake.AgreementIff` | windows-host/crypto/src/secure_channel.cpp:93-140 | every possible run in which a session that read a given hello accepts an honest peer gives it a partner, if and only if the hello is not of its own identity |
| `Handshake.PinNeverChanges` | windows-host/crypto/src/secure_byte_channel.cpp:76-78 | in any history of pairing steps, such as the one `ServeConnections` returns, once there is a pin it never changes |
| `Handshake.PinWasVerified` | windows-host/crypto/src/secure_byte_channel.cpp:69-78 | in such a history exactly one step put the pin there, the one that verified that identity's signature on its own transcript |
| `Handshake.ServeConnections` | windows-host/crypto/src/secure_byte_channel.cpp:53-90 | any series of connections with one store, against any peers: returns the pins and the sessions as such a history; the stored identity stays, a pin that was there stays, a pin that appeared was put there by exactly one of these connections, which verified its signature, and every accepted peer is the pinned one |
| `IdentityStore.ParsePrint` | windows-host/crypto/src/identity_store.cpp:25-52 | a record written is read back |
| `IdentityStore.FileLayout` | windows-host/crypto/src/identity_store.cpp:13-38 | what a file holds, in positions; a missing file or one of another size holds nothing |
| `IdentityStore.WrittenLayout` | windows-host/crypto/src/identity_store.cpp:40-52 | what is written, in positions |
| `IdentityStore.FileIdentityStore.SaveSelf` | windows-host/crypto/src/identity_store.cpp:69-74 | the stored identity becomes the new one and the pin stays, whatever the file held; a reliable store does not fail |
| `IdentityStore.FileIdentityStore.SavePeer` | windows-host/crypto/src/identity_store.cpp:82-87 | the pin becomes the peer and the stored identity stays, whatever the file held; a failed write changes neither, a reliable store does not fail |
| `IdentityStore.LoadOrCreateIdentity` | windows-host/crypto/src/identity_store.cpp:56-61 | a stored identity is kept; otherwise the generated one is used and saved, unless the store fails; the pin stays |
| `Session.StepKeepsOrder` | windows-host/core/src/streaming_session.cpp:50-104 | every step of every thread keeps: the mutex is held by exactly the thread that writes; the reader and the capture run only between their start and their join; the encoder is called only once it is initialized |
| `Session.FrameIsKept` | windows-host/core/src/streaming_session.cpp:29-48 | a frame keeps its capture time and the packets of its encode call up to its last send |
| `Session.ActionTable` | windows-host/core/src/control_plane.cpp:10-31 | which message asks for a keyframe, a pong, a format, an end, and that no other does |
| `SessionHistory.RunsKeepHistory` | windows-host/core/src/streaming_session.cpp:23-104 | the invariant behind the next four rows, after every interleaving of `Run`, reader, capture callback, `Stop` and network |
| `SessionHistory.LogOfEveryRun` | windows-host/core/src/streaming_session.cpp:23-95 | under every interleaving the outgoing log is HELLO with both codecs and the largest bitrate, WELCOME with the codec and the target bitrate, both version 1 with size and rate of the configuration modulo 2^16, then video frames and pongs; the pongs are the tokens of the pings handled, in order, none missing while the channel works and no reply is under way |
| `SessionHistory.FramesOfEveryRun` | windows-host/core/src/streaming_session.cpp:11-48 | under every interleaving the video frames sent carry the packets handed out by the encoder, in order and none left out, with codec, bytes, keyframe mark and time in microseconds, numbered from 0 modulo 2^32; all of them were sent while the channel works and no frame is in flight |
| `SessionHistory.HandledIsReceived` | windows-host/core/src/streaming_session.cpp:50-74 | under every interleaving and every size of reads, the messages handled are a prefix of the messages in the bytes received, at most up to the first DISCONNECT, and exactly those up to there once one was handled; whenever the reader of a running session waits for bytes it has handled all of them, and the rest is no corrupt frame |
| `SessionHistory.NothingIsLost` | windows-host/core/src/streaming_session.cpp:55-58 | under every interleaving the bytes received and those still to come are those the network brought, in order |
| `SessionHistory.KeyframesOfEveryRun` | windows-host/core/src/streaming_session.cpp:42-47 | an encode call is forced if and only if it is the first or a keyframe request was handled since the last; forced calls are at most the requests handled plus one |
| `SessionHistory.ForcedIsBounded` | windows-host/core/include/td/core/streaming_session.hpp:51 | the counting behind the bound, for any history in which frames are forced exactly when wanted |
| `SessionWire.RunsKeepWire` | windows-host/core/src/streaming_session.cpp:23-27 | under every interleaving the bytes written are the whole messages of the log, then less than the whole of one message, the one being written under the mutex: no two messages interleave |
| `SessionWire.PeerReadsTheLog` | windows-host/core/src/streaming_session.cpp:23-27 | so a peer that parses the bytes written so far reads exactly the log |
| `SessionLiveness.StepProgress` | windows-host/core/src/streaming_session.cpp:50-109 | once the channel is closed, or the session stopped running and no thread waits for the peer, no step of any thread raises the measure (boot, running, position of `Run`, bytes left and position of the reader, packets left and position of the capture), and a step of the thread named helper lowers it |
| `SessionLiveness.StepKeepsEnding` | windows-host/core/src/streaming_session.cpp:50-109 | that condition stays, whatever step is taken |
| `SessionLiveness.EndsBy` | windows-host/core/src/streaming_session.cpp:97-109 | the descent: from that condition every fair run reaches the end of `Run` |
| `SessionLiveness.StopEndsTheSession` | windows-host/core/src/streaming_session.cpp:77-109 | from every reachable state, `Stop` racing with the start of `Run` included, once the channel is closed every fair run returns from `Run` with the reader ended, no frame in flight and the mutex free |
| `SessionLiveness.StopCloses` | windows-host/core/src/streaming_session.cpp:106-109 | a call of `Stop` clears the flag and then closes the channel, whatever the other threads do in between |
| `SessionLiveness.StoppedSessionReturnsIff` | windows-host/core/src/streaming_session.cpp:23-104 | after every run that left the session stopped, for whatever reason: all fair continuations return from `Run` if and only if the channel was closed, or the reader is not waiting in `Recv` with nothing come and either a write has failed or no thread has anything to send |
| `SessionLiveness.SilentPeerHangsRun` | windows-host/core/src/streaming_session.cpp:97-102 | such a waiting reader is reachable: after a failed capture start `Run` stays in the join for as long as the peer is silent, whatever is scheduled |
| `SessionLiveness.UndrainedPeerHangsRun` | windows-host/core/src/streaming_session.cpp:23-27 | so is a waiting write: when a receive fails while the capture callback writes, `Run` stays in the stop of the capture for as long as the peer takes nothing, whatever it sends and whatever is scheduled |
| `AnnexB.SplitNalUnits` | ios-client/Decode/HEVCDecoder.swift:145-168 | the scanning loop returns, for every buffer, the non-empty payloads between start codes |
| `AnnexB.UnitsPartition` | ios-client/Decode/HEVCDecoder.swift:145-168 | start codes and units, written again, are the stream behind its first start code |
| `AnnexB.UnitsAreWellFormed` | ios-client/Decode/HEVCDecoder.swift:145-168 | no unit holds a start code, and none before a short start code ends in a zero byte |
| `AnnexB.SplitDecomposes` | ios-client/Decode/HEVCDecoder.swift:145-168 | every buffer is a prefix without start code followed by start codes and units, and the split returns the non-empty units in order |
| `AnnexB.UnitsOfJoined` | ios-client/Decode/HEVCDecoder.swift:145-168 | joining units with any mix of 3- and 4-byte start codes and splitting gives the same units and codes if and only if they are well-formed |
| `AnnexB.SplitOfJoined` | ios-client/Decode/HEVCDecoder.swift:145-168 | joining well-formed NAL units and splitting returns the same NAL units |
| `AnnexB.Rewrite` | ios-client/Decode/HEVCDecoder.swift:40-64 | the last units of type 32, 33 and 34, each missing exactly if there is none; the sample reads back to exactly those units, in order, whose first byte has type at most 31, told by the bits of that byte |
| `AnnexB.ReadPrefixed` | ios-client/Decode/HEVCDecoder.swift:58-64 | the 4-byte big-endian lengths read back exactly the units written |
| `AnnexB.SampleInBytes` | ios-client/Decode/HEVCDecoder.swift:59-64 | each unit behind four length bytes, most significant first |
| `AnnexB.CodesInBytes` | ios-client/Decode/HEVCDecoder.swift:148-152 | the two start codes in bytes |
| `AnnexB.SampleReadsBack` | ios-client/Decode/HEVCDecoder.swift:40-64 | reading the sample back gives exactly the slice units of the split access unit, those whose first byte has its second highest bit clear (type at most 31), at increasing positions and byte-identical, for every access unit below 4 GiB |
| `AnnexB.SampleHoldsTheSlices` | ios-client/Decode/HEVCDecoder.swift:40-64 | for an access unit joined from well-formed units: exactly its slice units, told by the same bit |
| `Text.FindIsFirst` | windows-host/transport/usbmux/src/usbmux_messages.cpp:38-55 | substring search: the first occurrence, or none if and only if there is none |
| `Text.SignedReadBack` | windows-host/transport/usbmux/src/usbmux_messages.cpp:85-94 | a printed integer is parsed back |
| `Text.SignedIff` | windows-host/transport/usbmux/src/usbmux_messages.cpp:85-94 | exactly which texts are read as an integer, and as which |
| `Plist.DocumentLookup` | windows-host/transport/usbmux/src/usbmux_messages.cpp:33-58 | in every flat document the lookup returns exactly the first matching key's value when the type matches, and nothing when that key has the other type or is missing |
| `Plist.FoundInDocument` | windows-host/transport/usbmux/src/usbmux_messages.cpp:33-58 | a value in the flat beginning of a document is found whatever entries follow, flat or not |
| `Plist.ConnectReadsBack` | windows-host/transport/usbmux/src/usbmux_messages.cpp:70-94 | message type, device id, port with its bytes exchanged, bundle and client version read back from the connect request, for all ids, ports and program names |
| `Plist.ListenReadsBack` | windows-host/transport/usbmux/src/usbmux_messages.cpp:62-68 | message type of the listen request, for all program names |
| `Plist.EntryText` | windows-host/transport/usbmux/src/usbmux_messages.cpp:21-26 | an entry in full |
| `Plist.DocumentText` | windows-host/transport/usbmux/src/usbmux_messages.cpp:11-16 | what stands before and behind the entries |
| `Plist.SwappedBytes` | windows-host/transport/usbmux/include/td/usbmux/usbmux_protocol.hpp:45-47 | the two bytes of the port are exchanged: 2345 becomes 10505 |
| `Plist.ProgramNameReadsBack` | windows-host/transport/usbmux/src/usbmux_messages.cpp:62-68 | the program name, which is not escaped, reads back if and only if it does not hold the closing tag |
| `Plist.AttachedReadsBack` | windows-host/transport/usbmux/src/usbmux_messages.cpp:106-115 | device id, serial and connection type of an attached message are read back |
| `Plist.AttachedIff` | windows-host/transport/usbmux/src/usbmux_messages.cpp:96-115 | a flat document reports a device exactly if its message type is Attached and its device id an integer; a missing text is empty |
| `Plist.NarrowedId` | windows-host/transport/usbmux/src/usbmux_messages.cpp:111 | the device id is narrowed to 32 bits with a sign |
| `HostConfig.ParseConfig` | windows-host/core/src/config.cpp:38-63 | the line loop computes the specification: lines, comment, key and value, one setting after another, then the clamp |
| `HostConfig.ClampIsProjection` | windows-host/core/src/config.cpp:30-36 | clamping gives a config within bounds and changes exactly those that are not |
| `HostConfig.ClampInNumbers` | windows-host/core/src/config.cpp:30-36 | where each out-of-range value goes |
| `HostConfig.LinesOfUnlines` | windows-host/core/src/config.cpp:41-42 | lines written with line feeds are read back as the same lines |
| `HostConfig.TrimSplits` | windows-host/core/src/config.cpp:14-19 | every text is blanks, what trimming leaves, and blanks |
| `HostConfig.PaddedLine` | windows-host/core/src/config.cpp:43-48 | blanks around key and value and a trailing comment change nothing |
| `HostConfig.OtherLine` | windows-host/core/src/config.cpp:45-46 | a line without an equals sign before its comment changes nothing |
| `HostConfig.KeyTakes` | windows-host/core/src/config.cpp:49-60 | what each key does with any number, with a value that is none, and that other keys do nothing |
| `HostConfig.EmptyText` | windows-host/core/include/td/core/config.hpp:16-23 | an empty text gives the defaults |
| `HostConfig.SerializedText` | windows-host/core/src/config.cpp:65-74 | the text written, line by line |
| `HostConfig.SettingsApply` | windows-host/core/src/config.cpp:49-59 | the settings written overwrite every field, whatever was there |
| `HostConfig.ParseOfSerialized` | windows-host/core/src/config.cpp:38-74 | parsing a serialized config gives the clamped config, for every config |
| `HostConfig.RoundTripIffSafe` | windows-host/core/src/config.cpp:38-74 | the round trip is the identity if and only if the config is within bounds |
| `HostConfig.LoadedIsSafeAndStable` | windows-host/core/src/config.cpp:38-74 | for every text the parsed config is within bounds and survives another save and load unchanged |
| `HostConfig.SafePlan` | windows-host/encode/src/rate_control.cpp:29-49 | a config within bounds keeps its own target and maximum; the buffer and the initial delay are one frame's bits, rounded down, or one second's; nothing is lost in 32 bits |
| `HostConfig.PlanIsTight` | windows-host/encode/src/rate_control.cpp:32-35 | no plan exceeds target, maximum or ceiling, and none gives anything away |
| `HostConfig.PlanBuffer` | windows-host/encode/src/rate_control.cpp:37-44 | the buffer of any plan: the bits of a second, or of a frame rounded down with a rate of 0 counted as 1, narrowed to 32 bits |
| `HostConfig.LoadedConfigIsPlannedAsIs` | windows-host/encode/src/rate_control.cpp:29-49 | so does every config parsed from any text |
| `ModeSelect.BetterIsStrictWeakOrder` | windows-host/vdisplay/src/mode_select.cpp:39-50 | one lexicographic order extends the tier-3 comparison, and is a strict weak order |
| `ModeSelect.PickBestMode` | windows-host/vdisplay/src/mode_select.cpp:54-81 | nothing exactly for the empty list; the desired mode if it is there; else of its resolution the nearest refresh rate, the higher of two as near; else the right proportions, then the closest number of pixels, then the higher refresh rate, the first of equals; which is the first best of one order |
| `ModeSelect.NearestRefresh` | windows-host/vdisplay/src/mode_select.cpp:63-73 | the second scan finds the first best among the modes of the right resolution, or reports that there is none |
| `ModeSelect.ClosestFit` | windows-host/vdisplay/src/mode_select.cpp:75-80 | the third scan finds the first best |
| `ModeSelect.FirstBestIsUnique` | windows-host/vdisplay/src/mode_select.cpp:54-81 | the first best is one position |
| `ModeSelect.RightResolutionMakesOrderIrrelevant` | windows-host/vdisplay/src/mode_select.cpp:63-73 | if some mode has the right resolution the answer does not depend on the order of the list |
| `ModeSelect.OrderIrrelevantIffOneBest` | windows-host/vdisplay/src/mode_select.cpp:75-80 | in general it does not if and only if there is one best mode |
| `ModeSelect.ExactIff` | windows-host/vdisplay/src/mode_select.cpp:24-48 | every 64-bit product and difference is exact if and only if the larger width times the larger height is below 2^63 |
| `ModeSelect.NoOverflow` | windows-host/vdisplay/src/mode_select.cpp:24-48 | so it is for all dimensions up to 2^31, and not for the largest ones |

## Left out

- Real cryptography, key generation and random ephemerals: library calls; ideal values are parameters.
- Sockets, the USB multiplexer client, Credential Manager, Keychain and file system calls: input and output.
- Atomicity of the identity file: a write happens as a whole or not at all; a store that says `reliable` does not
  fail one.
- Capture, encoder, decoder and renderer: foreign calls; when a frame comes, what packets an encode call emits
  and whether they are keyframes are choices of the environment.
- `OnFrame` copies the frame size into the configuration; nothing sent afterwards shows it.
- Session.StepKeepsOrder: the session is a state machine over its steps, not a class with methods, because its
  threads interleave inside the methods; a session is run once, and memory is sequentially consistent.
- SessionWire.PeerReadsTheLog: assumes packets of at most 16 MiB less 15 bytes, which `encode_frame` asserts.
- Session.SendStepMoves: a message is written in two pieces, cut anywhere, since more pieces add no new order.
- SessionLiveness.StopEndsTheSession: starts once `Close` has been called; a fair scheduler reaches that point.
- WireCodec.EncodeFrame: the assertion on the payload size is a contract of the callers; beyond it the length
  field wraps as in the code.
- EndToEnd.SendMessages: the session sends WELCOME even if HELLO failed; `Session` has that, this loop stops.
- PairedStreams.PairAndStream: one side runs after the other, and each sends before it receives; both pair as the
  host does.
- SecureByteChannels.SecureByteChannel.Recv: where a failed read stands on a transport that is not reliable.
- Handshake.Agreement: roles are fixed per session, and honest keys sign only transcripts, as `Confirm` does.
- AnnexB.SampleReadsBack: access units below 4 GiB; the code traps on a longer unit.
- Plist: documents that are not flat, beyond `Plist.FoundInDocument`; the parser makes no promise about them.
- HostConfig: `SaveConfig` and `LoadConfig` are the same text through a file.
- ModeSelect.ExactIff: what the code computes where the arithmetic is not exact.
- The order of the iPad's `establish`: it sends the same three records; its callbacks add only plumbing.
- `ios-client/Transport/WireProtocol.swift`: a second codec like the host's, with repair of ill-formed text.
- `negotiate` and the priorities of channels in docs/PROTOCOL.md: described there, not implemented.
- `BitrateController`, the multiplexer header, status names and adapter choice: easy members.
- Trays, views, sandboxes and tools: user interface and drivers.
