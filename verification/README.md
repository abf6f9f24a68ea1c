# PhantomProxy transport model

PhantomProxy is an MTProto proxy that hides in TLS. A client speaks fake TLS to a front proxy, the front may pass
the stream through an encrypted PHRP tunnel to a back proxy, and the proxy that faces Telegram either dials a data
centre directly or speaks the middle-proxy protocol. Every one of these layers buffers, cuts, pads, counts or
encrypts, and every one must still be a plain reliable byte pipe. This project models the layers in Dafny and
proves that they are, first one by one and then stacked, together with the time-dependent gatekeepers in front of
them. `dafny verify dfyconfig.toml` checks all of it.

How the source is represented:

- A TCP connection is a byte sequence still to be read and a byte sequence written. Every read may return any
  non-empty prefix, so a statement about a read holds for every chunking. Writes do not fail.
- Objects whose methods update fields are classes with the same fields. Each has a ghost function for the stream it
  will still deliver (`Readable`, `Incoming`, `Plain`, `Download`, `Upcoming`), and its methods are specified by
  what they take from or add to that stream.
- AES, HMAC, SHA-256 and GCM are function values. The only laws are that block decryption inverts encryption
  (`Cbc.Cipher`), that `Open` inverts `Seal` and `Seal` adds 16 bytes (`RelayTunnel.Aead`), and that the results
  have their lengths. The types that carry the laws have witnesses. Random draws are parameters.
- Go's integer conversions and wrap-arounds are written out (`Bytes.Int16`, `Bytes.Int32`, `Bytes.Uint32`,
  the 64-bit frame counter). `len` results and byte counters are unbounded.
- Times are nanoseconds of a clock that does not go back. Every mutex-protected call is one step with one clock
  reading; the replay check and the later time check of one hello have a reading each.

The main results are `WholePath.ClientToServerAndBack` and `WholePath.BothWaysAtOnce` (all layers stacked), `MiddleHandshake.Session`,
`MiddleProxy.Upload`, `MiddleProxy.Download`, `MiddleProxy.Duplex`, `FakeTls.Tunnel`, `RelayTunnel.Tunnel`, `Cbc.CbcConn.ReadMany`,
`Frames.WrittenFramesReadBack`, `Crc32.BurstDetected`, `Intermediate.SplitDoesNotMatter`, `Records.RecordConn.Write`,
`Admission.Gate.LetsInAtMostOnce`, `Admission.SecondTimeExactlyWhen`, `Replay.ReplayCache.Check`,
`Blacklist.TruthfulExactlyOffTheEdge`, `HelloWalkers.WalkersAgree`,
`HelloWalkers.StampedHelloChecks` and `Splice.RejectAndSplice`.

Where the code does not do what it seems meant to do, the model follows the code, and a lemma marks the place:

- `ConnFromHeader` starts its decrypting stream 64 bytes behind the sender (`Obfuscated2.ConnFromHeaderLags`); a
  message survives exactly when the key stream repeats after 64 bytes (`Obfuscated2.LaggingReaderRecovers`).
- `Handshake` compares the secret with nil and `outgoingHeader` its length with zero; for an empty, non-nil secret the
  handshake comes out right exactly where SHA-256 has two fixed points, one for each direction's key
  (`Obfuscated2.EmptySecretDisagrees`).
- The blacklist forgets a probe that arrives at the very instant a block ends, unless `IsBlocked` was asked about the
  address at that instant before (`Blacklist.EdgeProbeIsForgotten`). What it keeps is specified for all histories. From
  every point of a history on, later answers are as promised if and only if the threshold is one or no such probe came
  (`Blacklist.TruthfulExactlyOffTheEdge`).
- A ClientHello can be let in twice when its stamp is ahead of the clock, or within the last fraction of a second of
  both windows (`Admission.AheadIsLetInTwice`, `Admission.SubSecondIsLetInTwice`). `Admission.PresentTwice` says exactly
  when a gate does so, and `Admission.SecondTimeExactlyWhen` and `Admission.SecondTimeInWholeSeconds` for which hellos
  and clocks it can, whoever the users are.
- `acceptBack` gives the last six bytes of the relay handshake 200 ms. If they are late, those that came are dropped and
  the rest is taken for frames; the tunnel opens as meant exactly when all six come in time
  (`RelayTunnel.HandshakeReadsBack`).
- `hasExtension` reports the type of a cut-off last extension that `parseExtensions` does not list
  (`HelloWalkers.WalkersAgreeUpToCutOff`).
- The frame nonces of the relay tunnel are a counter that is meant to be free of collisions. They are for one sender
  (`RelayTunnel.NoncesDistinct`), but both ends share the key and count from one, so equally numbered frames of the two
  directions have the same nonce (`RelayTunnel.NoncesCollideAcross`).
- `readFrame` reads the checksum and never compares it; any four bytes will do in its place
  (`Frames.ChecksumIsIgnored`).

## Model

| member | source | states |
|---|---|---|
| Net.TcpConn.ReadFull | internal/middleproxy/crypto.go:126-136 | exactly k bytes in order whatever the chunking, or the end of the stream |
| Net.TcpConn.ReadFullBefore | internal/relay/tunnel.go:150-156 | the same under a deadline; what was read by then is gone |
| Cbc.AlignedCipherReadSize | internal/middleproxy/crypto.go:85-93 | the least positive multiple of 16 that covers the need |
| Cbc.DecryptInvertsEncrypt | internal/middleproxy/crypto.go:57-83 | CBC decryption inverts encryption on every aligned text, from the block law alone |
| Cbc.DecryptAppend | internal/middleproxy/crypto.go:95-108 | decrypting piece by piece with the chaining value carried over is decrypting at once |
| Cbc.EncryptRunIsStream | internal/middleproxy/crypto.go:73-83 | any split of the plaintext into aligned writes gives one ciphertext that decrypts to the concatenation |
| Cbc.EncryptBlockwise | internal/middleproxy/crypto.go:68-78 | every ciphertext block is the block cipher of the plaintext block xored with the ciphertext block before it, or the iv |
| Cbc.DecryptBlockwise | internal/middleproxy/crypto.go:69-104 | every plaintext block is the deciphered block xored with the ciphertext block before it, or the iv |
| Cbc.CbcConn.Write | internal/middleproxy/crypto.go:73-83 | refuses partial blocks and changes nothing then; otherwise what it sends is the chained encryption, block by block |
| Cbc.CbcConn.ReadableIsDeciphered | internal/middleproxy/crypto.go:95-108 | what reads deliver is the incoming ciphertext deciphered block by block |
| Cbc.CbcConn.EnsurePlain | internal/middleproxy/crypto.go:95-108 | keeps the readable stream, buffers enough, never a block more than needed, fails exactly when the stream is short |
| Cbc.CbcConn.Read | internal/middleproxy/crypto.go:110-120 | delivers exactly the next n bytes of plaintext or reports the end; less than a block stays buffered |
| Cbc.CbcConn.ReadMany | internal/middleproxy/crypto.go:95-120 | any run of reads delivers the plaintext in order and consumes exactly the total rounded up to 16 bytes of ciphertext |
| Crc32.Crc32IEEE | internal/middleproxy/crypto.go:209-222 | the double loop computes the shift-register checksum |
| Crc32.GeneratorExponents | internal/middleproxy/crypto.go:215 | the constant is the generator of section 3.2.9 of IEEE 802.3, reflected |
| Crc32.ChecksumIsRemainder | internal/middleproxy/crypto.go:209-222 | the complement of the checksum is the remainder of the message, its first 32 bits complemented, modulo the generator, and nothing else is |
| Crc32.ShiftDifference | internal/middleproxy/crypto.go:213-218 | one register step is linear and injective on differences |
| Crc32.RegisterFeeds | internal/middleproxy/crypto.go:209-222 | a message runs through the register bit by bit, the lowest bit of each byte first |
| Crc32.RegisterInjective | internal/middleproxy/crypto.go:209-222 | equal registers after the same bytes were equal before |
| Crc32.BurstDetected | internal/middleproxy/crypto.go:209-222 | messages of equal length that differ only within 32 consecutive bits, at any bit offset, have different checksums |
| Crc32.ByteBurstDetected | internal/middleproxy/crypto.go:209-222 | in particular those that differ only within four consecutive bytes |
| Frames.FramePadding | internal/middleproxy/crypto.go:196-207 | the filler word repeated up to the block boundary |
| Frames.PaddingIsFillers | internal/middleproxy/crypto.go:196-207 | behind an aligned message the pad is a whole number of filler words |
| Frames.WriteFrame | internal/middleproxy/crypto.go:138-154 | appends length, number, message, checksum and padding, raw or encrypted, and is never refused for alignment |
| Frames.FrameBytes | internal/middleproxy/crypto.go:138-154 | a written frame byte by byte, with the checksum over everything before it and filler words up to a multiple of 16 |
| Frames.ReadFrame | internal/middleproxy/crypto.go:156-194 | outcome, stepped number and remaining stream of one read, over the raw or the decrypted stream, for every stream |
| Frames.ReadBody | internal/middleproxy/crypto.go:167-192 | the same once the length word is read: wrong number, bad length, end, or message |
| Frames.WrongNumberIsRefused | internal/middleproxy/crypto.go:167-174 | a frame under another number is refused and the number is not stepped |
| Frames.ShortLengthIsRefused | internal/middleproxy/crypto.go:175-180 | a length below 12 other than the filler's is refused after the number was stepped |
| Frames.CutOffFrameIsEnd | internal/middleproxy/crypto.go:156-192 | any part of a frame short of the whole is the end of the stream |
| Frames.SkipsFillers | internal/middleproxy/crypto.go:162-165 | any number of filler words in front of a stream is skipped |
| Frames.ReadsBack | internal/middleproxy/crypto.go:156-194 | a written frame is never taken for filler, yields its message, and leaves the reader right behind it |
| Frames.ChecksumIsIgnored | internal/middleproxy/crypto.go:186-192 | the same whatever four bytes stand in the place of the checksum |
| Frames.TooLongIsRefused | internal/middleproxy/crypto.go:177-180 | a message whose length word turns negative is refused as a bad length |
| Frames.FrameStreamReadsBack | internal/middleproxy/crypto.go:156-194 | every list of frames with any fillers between is read back in order, then the end |
| Frames.WrittenFramesReadBack | internal/middleproxy/crypto.go:138-207 | repeated readFrame over the output of writeFrame returns every list of aligned messages in order |
| Intermediate.NextPacket | internal/middleproxy/intermediate.go:87-100 | a packet found accounts for every byte of the buffer and has 1 to 2^20 bytes |
| Intermediate.NextPacketMeans | internal/middleproxy/intermediate.go:87-100 | the verdict on every buffer byte by byte: 31 bits of length, low byte first, good from 1 to 1048576 |
| Intermediate.ReassembleInPieces | internal/middleproxy/intermediate.go:25-49 | feeding a stream in two pieces equals feeding it at once, and a bad stream stays bad |
| Intermediate.SplitDoesNotMatter | internal/middleproxy/intermediate.go:25-49 | for every split into writes, payloads forwarded and bytes kept are those of the one-shot parse |
| Intermediate.BadStreamForwardsNothing | internal/middleproxy/intermediate.go:33-42 | after a malformed or unaligned packet no later write forwards anything, and the stream stays one on which every write fails |
| Intermediate.PayloadsAreAligned | internal/middleproxy/intermediate.go:40-46 | only payloads of 1 to 2^20 bytes and a multiple of 4 are forwarded |
| Intermediate.SerializedReassembles | internal/middleproxy/intermediate.go:87-100 | a stream of whole packets, flag bit set or not, is taken apart into exactly their payloads |
| ProxyRpc.BuildProxyReq | internal/middleproxy/relay.go:142-179 | the header has 56 or 84 bytes, so an aligned payload gives an aligned request |
| ProxyRpc.Flags | internal/middleproxy/relay.go:152-159 | the tag flag is set exactly with a 16-byte tag, the unencrypted flag exactly for eight leading zeros |
| ProxyRpc.FixedFlags | internal/middleproxy/relay.go:143-152 | the four fixed flags are set in every request |
| ProxyRpc.RequestBytes | internal/middleproxy/relay.go:142-179 | a request byte by byte: tag, flag bits, id, both addresses, tag block, payload |
| ProxyRpc.AddressBytes | internal/middleproxy/relay.go:181-195 | an address block byte by byte |
| ProxyRpc.RequestReadsBack | internal/middleproxy/relay.go:142-179 | a server recovers flags, connection id, both addresses, tag and payload |
| ProxyRpc.IpPortReadsBack | internal/middleproxy/relay.go:181-195 | IPv4 and IPv6 addresses and ports survive the 20-byte block |
| ProxyRpc.EventReadsBack | internal/middleproxy/relay.go:122-140 | answers yield their data, everything tagged otherwise is skipped |
| ProxyRpc.AnswerBytes | internal/middleproxy/relay.go:122-140 | what every frame means by its first four bytes |
| ProxyRpc.CloseReadsBack | internal/middleproxy/relay.go:134-135 | the close frame means end of file |
| MiddleProxy.ProxyConn.SendPayload | internal/middleproxy/relay.go:87-97 | frames and encrypts one request under the next number, or refuses and changes nothing |
| MiddleProxy.ProxyConn.Write | internal/middleproxy/relay.go:74-85 | the same with empty writes accepted and unaligned ones refused |
| MiddleProxy.ProxyConn.ReadPayload | internal/middleproxy/relay.go:41-59 | the buffered payload, or the next non-empty answer with acks and unknown frames skipped, or the reason for the end |
| MiddleProxy.IntermediateConn.Write | internal/middleproxy/intermediate.go:25-49 | forwards exactly the complete packets of the stream so far through all layers, keeps the rest, fails exactly on a bad stream |
| MiddleProxy.IntermediateConn.Read | internal/middleproxy/intermediate.go:51-65 | delivers the front of the client's stream, never nothing while there is some, and fails exactly at its end |
| MiddleProxy.SentPayloadsArrive | internal/middleproxy/relay.go:87-97 | a server that decrypts, deframes and strips headers gets every list of aligned payloads in order |
| MiddleProxy.IntermediateConn.WriteMore | internal/middleproxy/intermediate.go:25-49 | a write that continues any stream forwards exactly what the longer stream forwards, and fails exactly when that is bad |
| MiddleProxy.IntermediateConn.WriteStream | internal/middleproxy/intermediate.go:25-49 | for every byte stream and every split: which writes fail; after the first failure every non-empty write fails and nothing more is forwarded |
| MiddleProxy.Upload | internal/middleproxy/intermediate.go:25-49 | for all packets and all splits into writes: every write succeeds and the server gets exactly the payloads, consecutively numbered |
| MiddleProxy.TakePayloadIsFirst | internal/middleproxy/relay.go:41-59 | what readPayload takes is the first framed payload of the client's stream |
| MiddleProxy.FramedBytes | internal/middleproxy/intermediate.go:57-60 | a payload goes to the client behind its length, low byte first |
| MiddleProxy.AnswersArrive | internal/middleproxy/relay.go:122-140 | the client's stream is the non-empty answers, each behind its length, then EOF at the close frame |
| MiddleProxy.Download | internal/middleproxy/intermediate.go:51-65 | for all server events, fillers and read sizes: a prefix of the answers, EOF only after all of them; enough reads bring all of them, one more the EOF |
| MiddleProxy.Duplex | internal/proxy/server.go:406-432 | both of these for every interleaving of the writes and reads of the two copying directions |
| MiddleHandshake.NonceMessageFields | internal/middleproxy/handshake.go:121-126 | tag, key selector, crypto tag, time and nonce stand where the answer check and the server look for them |
| MiddleHandshake.HandshakePayloadFields | internal/middleproxy/handshake.go:200-211 | both endpoints, process id and time stand at their offsets in the 32 bytes |
| MiddleHandshake.RightAnswers | internal/middleproxy/handshake.go:139-196 | which two answers are right, by their bytes |
| MiddleHandshake.NeedsIpv4 | internal/middleproxy/handshake.go:147-151 | without IPv4 addresses there is no handshake |
| MiddleHandshake.Handshake | internal/middleproxy/handshake.go:111-198 | succeeds exactly when both answers are right; both counters are then 0 and the reader stands behind the server's frame |
| MiddleHandshake.IntroducedBytes | internal/middleproxy/handshake.go:121-186 | what the proxy has sent by then: its nonce message in the clear under number -2, its handshake message encrypted under -1 |
| MiddleHandshake.HonestServerNegotiates | internal/middleproxy/handshake.go:135-196 | against an honest server the plaintext continues right behind its handshake frame |
| MiddleHandshake.DialEndpoint | internal/middleproxy/handshake.go:88-100 | a connection comes back exactly when the handshake succeeds, with empty buffers and numbers at 0 |
| MiddleHandshake.Session | internal/middleproxy/handshake.go:66-198 | a whole session, calls in any order: requests arrive numbered from 0 with the client's payloads, and enough reads bring all of the answers and the EOF |
| Obfuscated2.CryptAppend | internal/obfuscated2/handshake.go:23-35 | a key stream used in several calls is the key stream used once |
| Obfuscated2.CryptTwice | internal/obfuscated2/handshake.go:23-35 | the same stream at the same position undoes itself |
| Obfuscated2.Reverse | internal/obfuscated2/handshake.go:58-61 | the loop reverses the header |
| Obfuscated2.OutgoingHeader | internal/obfuscated2/handshake.go:110-161 | uses the first acceptable draw and none before it; fails when there is none |
| Obfuscated2.HeaderKeepsDraw | internal/obfuscated2/handshake.go:113-128 | all but the last eight bytes go out as drawn, so no header begins like TLS or another excluded protocol |
| Obfuscated2.HandshakeAgrees | internal/obfuscated2/handshake.go:52-98 | the server recovers every int16 id, and the streams match crosswise at positions 64 and 0 |
| Obfuscated2.AcceptMeans | internal/obfuscated2/handshake.go:52-98 | acceptance, id and both streams in terms of the header's bytes, the key stream and the hash of key and secret |
| Obfuscated2.MakeHeaderMeans | internal/obfuscated2/handshake.go:110-161 | the sent header and both streams in terms of the random draw |
| Obfuscated2.ParsersAgree | internal/obfuscated2/header.go:10-35 | TryParseHeader accepts exactly what Handshake accepts, with the same id |
| Obfuscated2.ParserNeedsSecret | internal/obfuscated2/header.go:10-15 | the dd-mode parser takes nothing without a secret and nothing but 64 bytes |
| Obfuscated2.EmptySecretDisagrees | internal/obfuscated2/handshake.go:141-151 | with an empty non-nil secret the handshake agrees exactly at two fixed points of the hash |
| Obfuscated2.ConnFromHeaderLags | internal/obfuscated2/header.go:37-62 | same id and keys, but the decrypting stream is 64 bytes behind the sender |
| Obfuscated2.LaggingReaderRecovers | internal/obfuscated2/header.go:57-61 | such a reader recovers a message exactly when the key stream repeats 64 bytes later |
| Records.Normalize | internal/faketls/client.go:34-48 | any integers become 1 <= min <= max <= 16384 with the defaults 512 and 4096; admissible ones stay |
| Records.ChunkSize | internal/faketls/client.go:50-64 | between the minimum, or what remains, and the maximum |
| Records.EverySizeIsDrawn | internal/faketls/client.go:50-64 | every size between the limits that leaves bytes behind it is what some draw gives |
| Records.ChunkSizeWithMax | internal/faketls/record.go:168-178 | the same under an extra limit |
| Records.OutboundChunkSize | internal/faketls/record.go:109-125 | progress and size bound for every policy and draw, and the ramp limit while ramping |
| Records.OutboundSizeOfDraw | internal/faketls/record.go:109-125 | outside the ramp, or below its limit in it, the draw is what the size has above the minimum |
| Records.NextSizeIsAny | internal/faketls/record.go:109-125 | some random number gives the next record any such size |
| Records.CutShape | internal/faketls/record.go:86-107 | the records made of a string hold exactly it, and only the last is below the minimum or 1369 |
| Records.ChunksBound | internal/faketls/record.go:149-150 | bytes written are at most 16384 per record written |
| Records.RampIsEightRecords | internal/faketls/record.go:115-121 | the ramp is exactly the first eight records; the byte limit never ends it |
| Records.AppStreamReadsBack | internal/faketls/record.go:42-62 | reading a list of records yields their application data, whatever other records are among them |
| Records.RecordBytes | internal/faketls/record.go:137-145 | a record byte by byte |
| Records.AppStreamBytes | internal/faketls/record.go:42-56 | what is read off any stream byte by byte; only kind 0x17 counts |
| Records.RecordConn.Read | internal/faketls/record.go:37-63 | delivers the front of the application data, as much as fits of one record, skips other records, ends only when there is none |
| Records.RecordConn.WriteRecord | internal/faketls/record.go:133-152 | one record of any chunk up to 16384 bytes, counted; larger ones refused untouched; non-empty chunks within the ramp limit keep the invariant |
| Records.RecordConn.WriteChunks | internal/faketls/record.go:86-107 | the loop makes exactly the records that policy, counters and random numbers give |
| Records.RecordConn.Write | internal/faketls/record.go:66-107 | writes everything for every policy and all random numbers: the split byte once per connection and first, then exactly those records |
| Records.RecordConn.WrittenInLimits | internal/faketls/record.go:15-19 | in every reachable state records have 1 to 16384 bytes and with DRS the first eight keep the ramp limit |
| FakeTls.Conn.Read | internal/obfuscated2/handshake.go:23-29 | delivers the front of the decrypted stream and advances the stream by what it delivered |
| FakeTls.Conn.Write | internal/obfuscated2/handshake.go:31-35 | the application data on the wire grows by exactly the encryption of the input |
| FakeTls.Conn.WriteAll | internal/obfuscated2/handshake.go:31-35 | any run of writes is one continuous encryption of the concatenation |
| FakeTls.Conn.ReadAll | internal/obfuscated2/handshake.go:23-29 | any run of reads delivers a prefix, all of it when the end is reported, and the end when there are enough reads |
| FakeTls.Conn.ReadToEnd | internal/proxy/server.go:406-417 | reading until the end, with any buffer sizes, takes exactly the decrypted stream |
| FakeTls.Handshake | internal/obfuscated2/handshake.go:52-98 | succeeds exactly on 64 bytes that decrypt to the connection type, and stands at the byte behind them |
| FakeTls.InsertionKeepsAppData | internal/faketls/record.go:54-56 | inserting a record of another kind anywhere leaves the application data as it was |
| FakeTls.AnyRecordsMayArrive | internal/faketls/record.go:42-62 | the wires of the tunnel include every list of records with the sender's application data |
| FakeTls.Open | internal/proxy/server.go:226-230 | for every draw, id, secret, policy and wire the server recovers the id and will read exactly the client's plaintext |
| FakeTls.Tunnel | internal/proxy/server.go:226-232 | both directions arrive unchanged and whole for every policy, random draw, inserted record and chunking |
| FakeTls.Converse | internal/obfuscated2/handshake.go:23-35 | however writes and reads on one end take turns, each direction is as if it were alone |
| FakeTls.TunnelBothWays | internal/proxy/server.go:406-432 | the tunnel with both directions at once, in any turns at both ends |
| RelayTunnel.Sealed | internal/relay/tunnel.go:261-268 | every emitted frame has 28 bytes more than its payload and passes the reader's size checks |
| RelayTunnel.FrameBytes | internal/relay/tunnel.go:261-274 | a frame byte by byte: length, counter nonce, sealed payload |
| RelayTunnel.FirstFrameMeans | internal/relay/tunnel.go:209-223 | which frames a reader admits, by their length bytes |
| RelayTunnel.FramesReadBack | internal/relay/tunnel.go:207-233 | a run of frames opens to the concatenated payloads and then to what follows |
| RelayTunnel.NoncesDistinct | internal/relay/tunnel.go:262-264 | below 2^64 frames no two nonces on one sender's wire are equal |
| RelayTunnel.NoncesCollideAcross | internal/relay/tunnel.go:188-204 | frames of the two directions have the same nonce exactly when they have the same number |
| RelayTunnel.FrameConn.Read | internal/relay/tunnel.go:207-233 | delivers the front of the opened stream, as much as fits of one frame, never nothing while there is some, and fails exactly at its end |
| RelayTunnel.FrameConn.WriteFrame | internal/relay/tunnel.go:261-274 | one frame of any payload under the next counter value modulo 2^64; payloads of 1 to 65504 bytes keep the invariant |
| RelayTunnel.FrameConn.Write | internal/relay/tunnel.go:235-252 | writes everything in frames of 65504 bytes and a last one with the rest |
| RelayTunnel.HandshakeReadsBack | internal/relay/tunnel.go:61-78 | id, IPv4 address and 16-bit port survive the 60 bytes and the back stands at the first frame, exactly when the tail comes in time |
| RelayTunnel.HandshakeFields | internal/relay/tunnel.go:57-80 | the handshake byte by byte |
| RelayTunnel.AcceptsMeans | internal/relay/tunnel.go:131-156 | which handshakes are accepted, and what is read out of them |
| RelayTunnel.DialFront | internal/relay/tunnel.go:41-91 | refuses exactly an empty key; otherwise the handshake is sent and the counter is fresh |
| RelayTunnel.AcceptBack | internal/relay/tunnel.go:131-163 | accepts exactly the right magic and tag, with the metadata if the tail comes in time; a late tail is cut off where the deadline fell |
| RelayTunnel.Open | internal/relay/tunnel.go:41-163 | the back recovers the metadata and will read exactly the front's stream |
| RelayTunnel.ReadAll | internal/relay/tunnel.go:207-233 | any run of reads delivers a prefix; enough reads bring all of it, one more the end |
| RelayTunnel.ReadToEnd | internal/proxy/server.go:406-417 | reading until the end, with any buffer sizes, takes exactly the opened stream |
| RelayTunnel.Tunnel | internal/relay/tunnel.go:207-274 | both directions arrive unchanged and whole for every chunking |
| RelayTunnel.Converse | internal/relay/tunnel.go:207-252 | however writes and reads on one end take turns, each direction is as if it were alone |
| RelayTunnel.TunnelBothWays | internal/proxy/server.go:406-432 | the tunnel with both directions at once, in any turns at both ends |
| ClientHello.RandomIsInRaw | internal/faketls/client_hello.go:105-157 | whatever parses, Random is bytes 11 to 42 of Raw and Raw is the front of the stream |
| ClientHello.ParseRefuses | internal/faketls/client_hello.go:105-135 | which streams parsing refuses and why, byte by byte |
| ClientHello.StampInPlace | internal/faketls/client.go:174-191 | the buffer afterwards holds the stamped record; too short a record is refused untouched |
| ClientHello.ZeroedBytes | internal/faketls/client.go:174-180 | the digest is taken with exactly bytes 11 to 42 set to zero |
| ClientHello.StampBytes | internal/faketls/client.go:178-189 | a stamped record byte by byte: digest, and the time in its last four bytes, low byte first |
| ClientHello.ValidateClientHello | internal/faketls/client_hello.go:192-226 | the loops compute the verdict on digest and time |
| ClientHello.DigestMeansStamped | internal/faketls/client_hello.go:203-216 | the digest check passes with time ts exactly for the random stamped with ts |
| ClientHello.ValidateMeansStamped | internal/faketls/client_hello.go:192-226 | validation accepts exactly the randoms stamped with this key within 120 seconds of now |
| ClientHello.StampValidates | internal/faketls/client.go:178-189 | a stamped record validates exactly when the two times differ by at most 120 seconds |
| HelloWalkers.ParseSni | internal/faketls/client_hello.go:159-190 | the cursor loop computes the walk, with its two kinds of break |
| HelloWalkers.ScanNames | internal/faketls/client_hello.go:174-185 | the inner loop finds the first host_name it can reach |
| HelloWalkers.HostIsFirstOfTypeZero | internal/faketls/client_hello.go:174-185 | the host_name is the first name of type 0 |
| HelloWalkers.ParseUint16List | internal/faketls/fingerprint.go:248-254 | the loop takes the words off the list, an odd byte ignored |
| HelloWalkers.WordsReadBack | internal/faketls/fingerprint.go:248-254 | the words of an encoded list are the list |
| HelloWalkers.ParseExtensions | internal/faketls/fingerprint.go:256-284 | the loop computes types, curves and point formats, also where an inner length reaches into the next extension |
| HelloWalkers.ListingTypes | internal/faketls/fingerprint.go:256-284 | whatever it collects, its types are those of the whole extensions |
| HelloWalkers.ListingReadsBack | internal/faketls/fingerprint.go:256-284 | on encoded extensions it collects their types, the last list of groups and all point formats |
| HelloWalkers.GroupsReadBack | internal/faketls/fingerprint.go:268-281 | groups are those of extension 10 and point formats those of extension 11 |
| HelloWalkers.HasExtensionIn | internal/faketls/client_hello_policy.go:88-98 | the loop computes its walk, also past the end of the block |
| HelloWalkers.WalkersAgreeUpToCutOff | internal/faketls/client_hello_policy.go:88-98 | on every byte string the two walkers differ exactly in the type of a cut-off last extension |
| HelloWalkers.ExtensionsReadBack | internal/faketls/client_hello.go:159-190 | on encoded extensions the walkers return the types in order and the first host_name |
| HelloWalkers.BlockFound | internal/faketls/client_hello.go:59-103 | the shared cursor steps find exactly the extension block of a well-formed hello |
| HelloWalkers.MessageMeans | internal/faketls/client_hello.go:59-73 | where the walkers find the message in a record, byte by byte |
| HelloWalkers.HelloReadsBack | internal/faketls/client_hello.go:105-157 | parsing a well-formed hello returns its random, session id and first cipher suite |
| HelloWalkers.WalkersAgree | internal/faketls/fingerprint.go:194-216 | on every well-formed hello SNI and extractSNI return the host_name, and hasExtension holds exactly for listed types |
| HelloWalkers.StampedHelloChecks | internal/faketls/client.go:168-191 | a stamped well-formed hello parses with its stamped random and validates exactly within 120 seconds |
| Replay.ReplayCache.constructor | internal/faketls/replay.go:20-32 | non-positive limits become 10000 entries and two minutes |
| Replay.ReplayCache.DropExpired | internal/faketls/replay.go:63-67 | exactly the live entries stay |
| Replay.ReplayCache.DropExcess | internal/faketls/replay.go:68-73 | exactly max entries stay, any of them, or all of them when there were no more |
| Replay.ReplayCache.Check | internal/faketls/replay.go:35-53 | a hit means the key was let through at most ttl ago, the converse without overflow; size at most max+1; hits counts the true answers |
| Admission.Gate.Match | internal/user/manager.go:149-169 | true exactly when the fingerprint is allowed and some user is enabled, on fake TLS, for no other host, with a key that stamps this random within 120 seconds of now |
| Admission.UserMatchesMeans | internal/faketls/client.go:106-111 | the same of one user |
| Admission.WrongHostIsRefused | internal/faketls/client.go:107-109 | a hello that names a host is refused where every user is for another one |
| Admission.EchIsRefused | internal/faketls/client_hello_policy.go:102-113 | under the rejecting policy a hello with extension 0xfe0d is refused |
| Admission.Gate.Present | internal/proxy/server.go:191-216 | let in exactly when it is no hit, the policies allow it and a user matches; the log stays the cache's history |
| Admission.HitMeansSameRandom | internal/faketls/replay.go:35-53 | where the hash does not collide, a hit means this very random was let through within the ttl |
| Admission.SecondSitsOnEdge | internal/faketls/client_hello.go:216-223 | a second acceptance of a hello not ahead of the clock needs exactly 120 Unix seconds and more than the ttl |
| Admission.AtMostOnce | internal/proxy/server.go:198-216 | without overflow, on whole seconds, a hello not ahead of the clock at first is let in at most once |
| Admission.AtMostOnceOnAnyClock | internal/proxy/server.go:198-216 | on any clock the same for a hello whose second is over at first |
| Admission.Gate.LetsInAtMostOnce | internal/proxy/server.go:198-216 | the first of these of every reachable state of a gate |
| Admission.Gate.LetsInAtMostOnceOnAnyClock | internal/proxy/server.go:198-216 | the second of these of every reachable state of a gate |
| Admission.PresentTwice | internal/faketls/replay.go:35-74 | a new gate lets a hello in twice exactly when it is valid both times and more than the ttl apart |
| Admission.MatchIsWindow | internal/faketls/client.go:106-111 | a user matches exactly within 120 seconds of the time its key reads out of the hello |
| Admission.StampedIsValid | internal/faketls/client.go:106-111 | a stamped hello parsed from a stream that is welcome to a user is valid within 120 seconds, and with no other user only then |
| Admission.SecondTimeExactlyWhen | internal/faketls/client_hello.go:216-223 | for any users and any hello: one let in can be let in again exactly when some user's key reads a second out of it that is not over |
| Admission.SecondTimeInWholeSeconds | internal/faketls/client_hello.go:216-223 | on a clock of whole seconds exactly when it reads a time that is ahead |
| Admission.AheadIsLetInTwice | internal/faketls/client_hello.go:216-223 | every stamp ahead by up to 120 seconds is let in twice by a new gate, whoever else its users are |
| Admission.SubSecondIsLetInTwice | internal/runtime/runtime.go:39 | every valid stamp whose second is not over is let in twice by a new gate, whoever else its users are |
| Blacklist.NewBlacklist | internal/probe/blacklist.go:20-37 | no blacklist without a positive threshold; otherwise defaults of 3600 and 600 seconds and an empty state |
| Blacklist.PruneInPlace | internal/probe/blacklist.go:73-78 | the loop that overwrites the slice it reads is a pure filter |
| Blacklist.ReachesMeans | internal/probe/blacklist.go:72-85 | the threshold is reached exactly when the probe and those less than a window older are that many |
| Blacklist.Blacklist.PurgeExpired | internal/probe/blacklist.go:90-98 | forgets exactly the addresses whose block ended before now |
| Blacklist.Blacklist.IsBlocked | internal/probe/blacklist.go:40-55 | the answer and the kept state for every history, and the promised answer unless a probe on the edge was forgotten |
| Blacklist.Blacklist.RecordProbe | internal/probe/blacklist.go:58-88 | for every history true exactly when blocked or enough kept probes lie in the window, and as promised unless a probe on the edge was forgotten |
| Blacklist.AnswersAsPromised | internal/probe/blacklist.go:57-88 | off the edge, or with threshold one: a block is reported exactly when one is unexpired or the probes since the last one reach the threshold in the window |
| Blacklist.TruthfulExactlyOffTheEdge | internal/probe/blacklist.go:40-98 | from every point of a history on, all later answers are as promised if and only if the threshold is one or no probe was on the edge |
| Blacklist.EdgeProbeMisleads | internal/probe/blacklist.go:90-98 | for every history at the edge and every threshold from two on, a continuation whose next probe should block and does not |
| Blacklist.Blacklist.StoredTimes | internal/probe/blacklist.go:72-85 | stored times are sorted and fewer than the threshold; a blocked address has none except at the end of its block |
| Blacklist.EdgeProbeIsForgotten | internal/probe/blacklist.go:58-98 | the same run on a blacklist in any state at the edge |
| Blacklist.EdgeIsReached | internal/probe/blacklist.go:58-98 | a new blacklist reaches such a state, for every threshold from two on, duration and window |
| Splice.ReadRecorder.Read | internal/faketls/fronting.go:19-29 | pending first; the captured and unread bytes together stay the client's stream |
| Splice.ReadRecorder.Prepend | internal/faketls/fronting.go:51-57 | the bytes are both pending and captured |
| Splice.ReadRecorder.ParseClientHello | internal/faketls/client_hello.go:105-126 | wherever parsing stops, nothing is pending and nothing is lost |
| Splice.SpliceToHost | internal/faketls/fronting.go:60-86 | at every moment what was sent and what is left make up the prefix and the rest, in order |
| Splice.SpliceNeedsNothingPending | internal/faketls/fronting.go:75-83 | prefix and rest are the client's stream exactly when nothing is pending |
| Splice.RejectAndSplice | internal/proxy/server.go:157-269 | on every rejection path what was sent upstream and what the connection still holds are the client's stream; all is sent when the copy is done, and it gets done |
| WholePath.Up | internal/proxy/server.go:308-397 | through both tunnels and the middle proxy, the server receives exactly the client's payloads |
| WholePath.Down | internal/proxy/server.go:406-420 | through both tunnels the client reads exactly what the back copied, all of it |
| WholePath.ClientToServerAndBack | internal/proxy/server.go:308-397 | all layers stacked, there and then back, for all keys, draws, policies, chunkings and read sizes: the server gets the payloads, the client all of the answers |
| WholePath.PipeFront | internal/proxy/server.go:406-432 | at the front proxy, however the two copies take turns, each moves its whole stream |
| WholePath.PipeBack | internal/proxy/server.go:406-432 | at the back proxy the same: all packets reach the middle proxy as requests, all answers the tunnel |
| WholePath.BothWaysAtOnce | internal/proxy/server.go:308-432 | all layers stacked with both directions at once, in any turns at the client and at both proxies |

## Left out

- Failing writes, jitter sleeps, logging, half-close and every deadline but that of the relay handshake: only byte order and state steps are modelled, and concurrent directions take turns call by call.
- HelloWalkers.ParseExtensions: where a list runs past the block, the result depends on buffer capacity and the model says only that it does.
- HelloWalkers.WalkersAgree: stated for well-formed hellos; where a slice would run past the message, the result depends on buffer capacity and the model says only that it is out of range.
- Frames.WrittenFramesReadBack: for messages whose length fits the int32 length word, which every caller's does.
- Admission.Gate.Match: the fingerprint allow-lists are a function of the record, and where a walker would run past its buffer its result is any function of the record.
- WholePath.ClientToServerAndBack: the way up ends before the way back begins, and all bytes are those the model sent; `WholePath.BothWaysAtOnce` has both ways at once and takes the bytes of each link as given, equal in content to what its sender sends.
- Records.RecordConn.Write: the byte counter does not wrap at 2^63.
- The direct-to-DC path, the dd-mode relay after ConnFromHeader, and proxyConn.Read, which the stack does not use.
- The non-TLS fallback, which replays only the first byte, and the fallback and redirect actions after a rejection.
- ServerHello generation, utls hello generation and the JA3/JA4 texts.
- Key derivation in deriveKeys and the address tables; keys are arbitrary functions of the server nonce.
- Admin API, web UI, metrics, configuration, user management, connection limiter and rotators.
