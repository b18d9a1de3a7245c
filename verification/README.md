# Mirage core, verified

A Dafny model of the state and wire formats of `mirage-core`, the native library of the Mirage client: the
token replay cache, the encrypted record layer with its UDP multiplexer and byte-stream adapter, the fake-IP
mapper and its file, DNS single-flight and codec, the TLS hello and handshake-flight editors with the parsers
that read them back, the CIDR and site-rule indexes with the protobuf reader that feeds them, and the
construction of outbound groups. `dafny verify dfyconfig.toml` checks the whole project.

Each operation is written in the form the library has it: fields that change are fields of classes, buffers
patched in place are arrays, loops are loops. Each is tied to a function of its inputs and the old state, and
the properties are proved of those functions, over all inputs, all runs or all interleavings.

| file | subject |
|---|---|
| `ReplayCache.dfy`, `SessionToken.dfy` | bucketed replay cache under a free clock; session tokens and whole server runs |
| `RecordLayer.dfy`, `RecordReader.dfy` | sealing and opening records, padding schemes, nonces and rekeying |
| `UdpMux.dfy`, `MirageStream.dfy` | datagram frames through the tunnel; polls of the byte-stream adapter |
| `FakeIp.dfy`, `FakeIpPersist.dfy`, `FakeIpFormat.dfy`, `FakeIpFlush.dfy`, `FakeIpAhead.dfy` | the two maps; the text file, and its characters; flushing while assigning; cursors ahead of their entries |
| `DnsFlight.dfy`, `DnsCodec.dfy` | shared lookups and the answer cache; messages |
| `ClientHello.dfy`, `Sniffer.dfy` | writing, replaying and sniffing ClientHellos |
| `ServerFlight.dfy`, `TemplateFetch.dfy`, `FlightEditing.dfy` | complete flights and their reader; capturing one; patched and synthesised flights |
| `CidrRanges.dfy`, `GeoSite.dfy`, `Protobuf.dfy`, `GeoSiteFile.dfy` | fast lookups against their plain forms; the reader of rule files |
| `Outbound.dfy` | the rounds that build groups |
| `Prelude.dfy`, `Bytes.dfy`, `Unicode.dfy` | integers, options, division; bytes at an offset; UTF-8 and white space |

## What the proofs turned up

Where a promise fails, a lemma gives the inputs and another the exact condition under which it holds.

- The replay cache is reset by a clock that jumps ahead and back, and then accepts a token twice although the
  token passes the tolerance gate both times (`LargerRollbackReplays`); the comment at `hello_auth.rs:115-119`
  rules this out. The rollback it does absorb is exactly `20 - (2*tol mod 10)` seconds (`JitterBoundIsExact`).
- A padding slot still to come that can draw size one produces a record without data, which the byte-stream
  adapter takes for the end of the stream (`StreamSafeExactly`).
- A file of fake addresses with one domain at two addresses loads as maps that are not inverse
  (`RepeatedDomainBreaksInverse`, `LoadsInverseExactly`), and a cursor at the network address or the one after
  it is accepted (`LoadedCursor`).
- `FakeIpMapper::clear` leaves the file and drops the dirty flag, so a restart restores what was cleared
  (`ClearLeavesTheFile`).
- An assignment may begin between the snapshot of the map and the reading of the cursor: the file then has a
  cursor ahead of its entries (`FileCanRunAhead`), unless a whole round of assignments began (`FileIsItsMoment`).
  It is sound all the same (`CrashLeavesSoundFile`).
- A query for a domain that is not ASCII is parsed to another name (`NonAsciiDomainChanges`,
  `CanonicalDomainsRoundTrip`).
- An alert behind the hello is captured with a template and ends the handshake of every client served by it
  (`AlertIsCached`, `TemplateIsAcceptedExactly`). A connection closed inside a record header makes up a record
  that nobody sent (`ClosedStreamInventsRecord`, `TemplateWasSentExactly`), because only a timeout is taken for
  a failed read.
- `patch_server_hello` looks for the session id in the whole flight where it must be in the first record
  (`PatchIsSafeExactly`).
- A length near 2^64 in a rule file wraps the end of its slice, which stops the program (`LargestLengthWraps`,
  `LengthsWrapExactly`).
- A cycle of groups through the name `direct` or `block` is built (`ImplicitNameHidesCycle`, `BuildsExactly`).
- Comments and code disagree on constants: DNS responses carry a TTL of 1 s, not 60, and cached answers live
  1800 s, not 300. The model follows the code.

## Model

| member | source | states |
|---|---|---|
| `ReplayCache.TokenReplayCache.CheckAndInsert` | native/mirage-core/src/crypto/hello_auth.rs:106-156 | one call: clock-rollback reset or high-water mark, eviction, then refusal of a saturated bucket or of a token already there; the whole new state |
| `ReplayCache.WindowAlways` | native/mirage-core/src/crypto/hello_auth.rs:126-155 | after any requests at any clock the live buckets lie in [hwm - retain, hwm] and each holds at most 100001 tokens |
| `ReplayCache.CacheIsWindowOfLog` | native/mirage-core/src/crypto/hello_auth.rs:126-155 | the bounded cache is the retained window of a log that never evicts |
| `ReplayCache.EvictionIsInvisible` | native/mirage-core/src/crypto/hello_auth.rs:138-155 | evicting never changes a decision: the bounded cache accepts exactly what the log without eviction accepts |
| `ReplayCache.LogHoldsTheEpoch` | native/mirage-core/src/crypto/hello_auth.rs:126-155 | what a bucket holds is exactly the tokens accepted into it since the last reset |
| `ReplayCache.AcceptedExactly` | native/mirage-core/src/crypto/hello_auth.rs:126-155 | a request is accepted if and only if it resets the cache, or its token was not accepted into its bucket since the last reset and the bucket is not saturated |
| `ReplayCache.DoubleAcceptNeedsReset` | native/mirage-core/src/crypto/hello_auth.rs:111-136 | whatever the clock does, two acceptances of one token have a reset between them |
| `ReplayCache.SteadyClockNeverResets` | native/mirage-core/src/crypto/hello_auth.rs:121-126 | requests that pass the tolerance gate never reset the cache while the clock stays within 20 - (2*tol mod 10) seconds of its maximum |
| `ReplayCache.LargerRollbackResets` | native/mirage-core/src/crypto/hello_auth.rs:126-133 | one second more of rollback and some gated run does reset it |
| `ReplayCache.JitterBoundIsExact` | native/mirage-core/src/crypto/hello_auth.rs:106-162 | for requests that pass the tolerance gate, with 2*tol + 60 within 64 bits: in every run each token is accepted at most once if and only if the clock never falls more than 20 - (2*tol mod 10) seconds below its maximum, and the reset branch is unreachable under the same condition |
| `ReplayCache.SteadyClockAcceptsOnce` | native/mirage-core/src/crypto/hello_auth.rs:106-162 | under such a clock every token is accepted at most once in the whole run |
| `ReplayCache.FreshTokenIsAccepted` | native/mirage-core/src/crypto/hello_auth.rs:140-155 | a token never accepted before is accepted unless its bucket is saturated |
| `ReplayCache.EarlyTokenIsAccepted` | native/mirage-core/src/crypto/hello_auth.rs:140-155 | so a token never accepted before is accepted if at most 100000 requests came before it |
| `ReplayCache.LargerRollbackReplays` | native/mirage-core/src/crypto/hello_auth.rs:115-133 | against the comment there: for every tolerance and every rollback above the bound, some gated run of three requests accepts one token twice |
| `SessionToken.XorLoop` | native/mirage-core/src/crypto/hello_auth.rs:56-59 | the masking loop is exclusive or byte by byte |
| `SessionToken.XorUndone` | native/mirage-core/src/crypto/hello_auth.rs:179-182 | masking twice with one mask gives the timestamp bytes back |
| `SessionToken.XorIsBitwise` | native/mirage-core/src/crypto/hello_auth.rs:56-59 | a bit of the masked byte is set if and only if it differs in byte and mask |
| `Bytes.BigEndian` | native/mirage-core/src/crypto/hello_auth.rs:192-193 | a timestamp's bytes stand most significant first |
| `SessionToken.MakeSessionToken` | native/mirage-core/src/crypto/hello_auth.rs:48-68 | a token is the prefix, eight bytes that masked give the timestamp, and the tag of timestamp, prefix and binding |
| `SessionToken.MadeTokenVerifies` | native/mirage-core/src/crypto/hello_auth.rs:48-68 | a made token carries its timestamp and passes the tag check of the same password and binding |
| `SessionToken.OnlyMadeTokensMatch` | native/mirage-core/src/crypto/hello_auth.rs:166-190 | a token passes the tag check of a password and binding if and only if it is one made for them, from some prefix and timestamp |
| `SessionToken.VerifySessionToken` | native/mirage-core/src/crypto/hello_auth.rs:166-210 | only a token made for the password and the binding, within the tolerance of the clock in either direction, is put to the replay cache; any other is refused with the cache untouched |
| `SessionToken.IdentifySessionToken` | native/mirage-core/src/crypto/hello_auth.rs:219-228 | the passwords in order until one verifies |
| `SessionToken.IdentifyIsVerifyByOwner` | native/mirage-core/src/crypto/hello_auth.rs:212-228 | for a token whose tag at most one credential accepts, trying all passwords touches the replay cache once, for that owner, and names the owner |
| `SessionToken.AuthIsCacheRun` | native/mirage-core/src/crypto/hello_auth.rs:166-228 | any list of identification attempts, each with a tag that at most one credential accepts, drives the cache through exactly the requests that passed tag and window |
| `SessionToken.RequestsAreGated` | native/mirage-core/src/crypto/hello_auth.rs:192-199 | each of those requests passed the tolerance gate at its clock reading |
| `SessionToken.IdentifiedIsAccepted` | native/mirage-core/src/crypto/hello_auth.rs:205-209 | in such a list an attempt is identified if and only if it reaches the cache and the cache accepts its request, and then as the credential whose tag it bears |
| `SessionToken.IdentifiedAtMostOnce` | native/mirage-core/src/crypto/hello_auth.rs:166-228 | a server whose clock keeps within the bound identifies one token at most once in its whole life |
| `RecordLayer.InfosAreDistinct` | native/mirage-core/src/crypto/aead.rs:48-57 | the HKDF infos of two (direction, cipher) pairs are equal only if the pairs are |
| `RecordLayer.InfosSpelled` | native/mirage-core/src/crypto/aead.rs:48-57 | the four infos are c2s and s2c, for AES with its suffix |
| `RecordLayer.RecordSpelled` | native/mirage-core/src/crypto/aead.rs:199-224 | a frame is 17 03 03, the length and the sealed text, which is the content, its type 17 and zeros, or the close alert 01 00 15 |
| `RecordLayer.IdealAeadExists` | native/mirage-core/src/crypto/aead.rs:48-64 | there is a cipher that meets the assumptions made of the AEAD |
| `RecordLayer.CryptoWriter.Rekey` | native/mirage-core/src/crypto/aead.rs:130-143 | a rekey to the same cipher or back to ChaCha20 changes nothing, any other switches the key and restarts the nonce |
| `RecordLayer.CryptoWriter.DrawRecord` | native/mirage-core/src/crypto/aead.rs:167-200 | one record: sized by its slot of the scheme, zero padded, or by a bucket limit past the scheme |
| `RecordLayer.CryptoWriter.SendData` | native/mirage-core/src/crypto/aead.rs:156-226 | terminates on every scheme, draws without data included; the records carry the whole plaintext in order, or a proper prefix when the nonce runs out; every record has its slot's size |
| `RecordLayer.CryptoWriter.SendCloseNotify` | native/mirage-core/src/crypto/aead.rs:229-253 | one alert record at the next nonce, refused when the nonce has run out |
| `RecordLayer.CarriedIsWire` | native/mirage-core/src/crypto/aead.rs:214-224 | the frames written are, as bytes, the records sealed at consecutive nonces |
| `RecordLayer.UnpaddedRecords` | native/mirage-core/src/crypto/aead.rs:185-199 | outside the scheme there is no padding and at most one record per 4096 bytes begun |
| `RecordLayer.UnpaddedSendBound` | native/mirage-core/src/crypto/aead.rs:8-23 | an unpadded send of n bytes writes at most n + 22*ceil(n/4096) bytes, so any n up to 65536 fits the 69632-byte buffer |
| `RecordLayer.CarriesAppend` | native/mirage-core/src/crypto/aead.rs:156-226 | two sends in a row under one key carry the two texts in a row at consecutive nonces |
| `RecordReader.ProcessPlaintext` | native/mirage-core/src/crypto/aead.rs:398-440 | trailing zeros come off, the last byte left is the type, 0x17 is data and 0x15 a closing peer; all-zero and empty plaintexts are refused |
| `RecordReader.StrippedIsUnique` | native/mirage-core/src/crypto/aead.rs:412-416 | the stripped length is the only one followed by zeros alone and ending in a nonzero byte |
| `RecordReader.PaddingComesOff` | native/mirage-core/src/crypto/aead.rs:395-423 | stripping undoes the padding of every record, contents that end in zeros included |
| `RecordReader.CryptoReader.Rekey` | native/mirage-core/src/crypto/aead.rs:294-307 | as the writer's |
| `RecordReader.CryptoReader.RecvData` | native/mirage-core/src/crypto/aead.rs:322-354 | one frame: header checks, size limit, nonce guard, opening, stripping; a record that the other side sealed, the server for the initiator and the client for the other, under the reader's cipher and nonce yields its content |
| `RecordReader.RecvRefuses` | native/mirage-core/src/crypto/aead.rs:322-349 | what is refused before any opening, by its bytes and in order, and what is then left of the input |
| `RecordReader.PlaintextRefused` | native/mirage-core/src/crypto/aead.rs:398-440 | an empty text, zeros alone, a close alert and any other content type are told apart |
| `RecordReader.PeersReadEachOther` | native/mirage-core/src/crypto/aead.rs:272-276 | a reader and a writer of one session, one of them the initiator, at the same cipher and nonce: the next record yields its content |
| `RecordReader.RecvOpensFrame` | native/mirage-core/src/crypto/aead.rs:322-354 | a reader at the writer's direction, cipher and nonce gets the next record's content and stays in step |
| `RecordReader.RecvOutOfStepFails` | native/mirage-core/src/crypto/aead.rs:346-349 | at any other direction, cipher or nonce the frame does not open |
| `RecordReader.NonceNeverReused` | native/mirage-core/src/crypto/aead.rs:204-208 | over any sends, close-notifies and rekeys no (cipher, nonce) pair seals twice |
| `RecordReader.DirectionsNeverCollide` | native/mirage-core/src/crypto/aead.rs:101-102 | nor do the two directions ever seal under one key |
| `RecordReader.AtMostOneRekey` | native/mirage-core/src/crypto/aead.rs:125-143 | at most one rekey of a run takes effect |
| `RecordReader.ReaderFollowsWriter` | native/mirage-core/src/crypto/aead.rs:294-354 | a reader rekeyed at the writer's stream positions opens every record in order and ends in step, with the later bytes unread |
| `UdpMux.ParseInvertsFrame` | native/mirage-core/src/proxy/udp_mux.rs:43-124 | a framed datagram in front of any bytes parses to its stream id, its payload and its length, for domain, IPv4 and IPv6 targets |
| `UdpMux.FrameHolds` | native/mirage-core/src/proxy/udp_mux.rs:43-82 | a frame holds its length, the stream id, the target's type and very bytes, the port and the payload; there is none if and only if the name exceeds 255 bytes or the rest 65535 |
| `UdpMux.OddFrames` | native/mirage-core/src/proxy/udp_mux.rs:86-124 | what every other frame is taken for: stream 0 if too short for an id, no payload without a known address type or if cut before it |
| `UdpMux.DemuxInPieces` | native/mirage-core/src/proxy/udp_mux.rs:197-227 | draining a buffer after each of two pieces yields what draining their concatenation yields |
| `UdpMux.RemainderIsIncomplete` | native/mirage-core/src/proxy/udp_mux.rs:86-94 | what is left after draining is an incomplete frame, so below 64 KiB |
| `UdpMux.DemuxPump.OnChunk` | native/mirage-core/src/proxy/udp_mux.rs:197-230 | one received chunk: the complete frames go in order to the flows registered at the moment of each, the rest is kept, and the 128 KiB break is never taken |
| `UdpMux.DeliveredExactly` | native/mirage-core/src/proxy/udp_mux.rs:199-226 | delivered are, in order, exactly the frames with a payload whose stream id is registered at their moment |
| `UdpMux.ChunkingIsInvisible` | native/mirage-core/src/proxy/udp_mux.rs:191-231 | however a byte stream is cut into chunks, the same frames come out and the same remainder stays |
| `UdpMux.DemuxInvertsFrames` | native/mirage-core/src/proxy/udp_mux.rs:43-124 | concatenated frames demultiplex to their stream ids and payloads with an empty remainder |
| `UdpMux.Coalesce` | native/mirage-core/src/proxy/udp_mux.rs:171-178 | a batch is a run of queued frames, in order, none split; before its last frame it is below 16384 bytes |
| `UdpMux.WriterPump` | native/mirage-core/src/proxy/udp_mux.rs:171-184 | the records sent carry the queued frames in order: all of them, or a proper prefix of their bytes when sending fails |
| `UdpMux.DemuxLoop` | native/mirage-core/src/proxy/udp_mux.rs:190-233 | the receiving loop delivers, to flows that come and go from frame to frame, what draining all received chunks delivers |
| `UdpMux.RecvAllOfWire` | native/mirage-core/src/crypto/aead.rs:322-354 | receiving until the stream ends returns the contents of the records on the wire |
| `UdpMux.TunnelIsTransparent` | native/mirage-core/src/proxy/udp_mux.rs:43-233 | end to end: datagrams framed, coalesced into any batches, cut into records under any draws, received and demultiplexed are the original stream ids and payloads with nothing left over |
| `UdpMux.CutIsWholeDatagrams` | native/mirage-core/src/proxy/udp_mux.rs:43-124 | frames cut off at any byte demultiplex to the datagrams whose frames are whole, and what is left is the part of the next |
| `UdpMux.CutTunnelDeliversPrefix` | native/mirage-core/src/proxy/udp_mux.rs:43-233 | end to end after a failed send: the receiver gets exactly the datagrams whose frames the records carry whole, in order |
| `MirageStream.MirageStream.PollRead` | native/mirage-core/src/proxy/mirage_stream.rs:76-125 | one poll of the reading half, never leaving the poisoned state behind |
| `MirageStream.MirageStream.PollWrite` | native/mirage-core/src/proxy/mirage_stream.rs:129-164 | one poll of the writing half: it accepts the whole buffer only once the send in flight is done |
| `MirageStream.MirageStream.PollFlush` | native/mirage-core/src/proxy/mirage_stream.rs:166-186 | one poll of a flush |
| `MirageStream.WriteTakesAll` | native/mirage-core/src/proxy/mirage_stream.rs:129-164 | a write is ready if and only if nothing is in flight or the send in flight ends well, and has then taken the whole buffer |
| `MirageStream.FlushWaitsForSend` | native/mirage-core/src/proxy/mirage_stream.rs:166-186 | a flush is ready, failed or pending as the send in flight is, and leaves nothing in flight unless pending |
| `MirageStream.EndsAreTold` | native/mirage-core/src/proxy/mirage_stream.rs:93-121 | a closed tunnel reads as end of stream and a failed one as an error |
| `MirageStream.ReadsConserveBytes` | native/mirage-core/src/proxy/mirage_stream.rs:82-123 | for every poll schedule and buffer sizes, delivered bytes, buffered remainder and frames to come add up to what was there |
| `MirageStream.ConsumerGetsReadToEnd` | native/mirage-core/src/proxy/mirage_stream.rs:82-123 | a consumer that stops at the first end of stream has collected the frames before the first empty one or close |
| `MirageStream.StreamSafeExactly` | native/mirage-core/src/proxy/mirage_stream.rs:104-113 | after any number of records sent, any list of padded sends reads back whole if and only if no slot of the scheme still to come can draw size one: such a record is empty and is taken for the end of the stream |
| `MirageStream.AcceptedReachSend` | native/mirage-core/src/proxy/mirage_stream.rs:135-163 | every accepted buffer reaches send_data once and in order, at most the last still in flight |
| `MirageStream.FlushDrains` | native/mirage-core/src/proxy/mirage_stream.rs:166-186 | after a successful flush everything accepted has been sent |
| `FakeIp.RangeOfIsValid` | native/mirage-core/src/dns/fake_ip.rs:39-53 | a CIDR is accepted exactly up to /29, and gives an aligned range around its address |
| `FakeIp.FakeIpMapper.LookupOrAssign` | native/mirage-core/src/dns/fake_ip.rs:197-253 | a known domain keeps its address; a new one takes the cursor's, evicts the domain there, and sets the dirty flag |
| `FakeIp.LookupsUndoEachOther` | native/mirage-core/src/dns/fake_ip.rs:197-261 | in every reachable state the reverse lookup of what a name was given is the name in lower case, and asking for the name again changes nothing |
| `FakeIp.NamesShareExactly` | native/mirage-core/src/dns/fake_ip.rs:197-215 | a second name finds the first one's address, and changes nothing, if and only if the two have the same letters up to case |
| `FakeIp.FakeIpMapper.Clear` | native/mirage-core/src/dns/fake_ip.rs:269-278 | the state of a new mapper, not dirty |
| `FakeIp.SlotStep` | native/mirage-core/src/dns/fake_ip.rs:220-230 | the cursor after slot n is slot n + 1, through network + 2 to broadcast - 1 and around |
| `FakeIp.AssignInWindow` | native/mirage-core/src/dns/fake_ip.rs:216-252 | an assignment moves the window: the last Capacity() assignments are exactly what the tables hold |
| `FakeIp.RunIsWindow` | native/mirage-core/src/dns/fake_ip.rs:197-278 | in every state reachable by lookups and clears the tables are the window of the assignments since the last clear |
| `FakeIp.RunFollowsMapper` | native/mirage-core/src/dns/fake_ip.rs:197-253 | those runs take the mapper's own steps; the cursor never overflows |
| `FakeIp.MapsStayInverse` | native/mirage-core/src/dns/fake_ip.rs:197-278 | in every reachable state the two maps are exact inverses and all addresses lie in [network + 2, broadcast - 1] |
| `FakeIp.ReassignmentGap` | native/mirage-core/src/dns/fake_ip.rs:216-247 | between two assignments of one domain lie at least Capacity() others |
| `FakeIp.ResidencyIsExact` | native/mirage-core/src/dns/fake_ip.rs:216-247 | the i-th assignment has slot i mod (2^(32-prefix) - 3), keeps it through the next Capacity() - 1 assignments and loses it with the next |
| `FakeIpPersist.IpReads` | native/mirage-core/src/dns/fake_ip.rs:143-144 | a printed address parses to itself |
| `FakeIpFormat.IpExactly` | native/mirage-core/src/dns/fake_ip.rs:107-110 | a text is taken for an address if and only if it is that address as printed: four decimals without leading zeros and dots between |
| `FakeIpFormat.U32Exactly` | native/mirage-core/src/dns/fake_ip.rs:97-98 | a text is taken for a cursor if and only if it is decimal digits of a 32-bit value, perhaps behind a plus sign |
| `FakeIpFormat.AssignableExactly` | native/mirage-core/src/dns/fake_ip.rs:111-118 | an address is accepted if and only if it lies in [network + 2, broadcast - 1] |
| `FakeIpFormat.LineMeans` | native/mirage-core/src/dns/fake_ip.rs:91-121 | each line by its characters: nothing, a cursor behind the key, or an entry if and only if an assignable address stands before the first blank and a name behind it |
| `FakeIpFormat.LoadedNext` | native/mirage-core/src/dns/fake_ip.rs:121-126 | the cursor after loading is the last one named if it lies in [network, broadcast - 1], and network + 2 otherwise |
| `FakeIpFormat.FileText` | native/mirage-core/src/dns/fake_ip.rs:140-145 | a printed file, character by character |
| `FakeIpFormat.SpacesAgree` | native/mirage-core/src/dns/fake_ip.rs:91 | white space trimmed from characters is the white space trimmed from their UTF-8 bytes |
| `FakeIpPersist.Load` | native/mirage-core/src/dns/fake_ip.rs:82-128 | the loader's loop over lines, and its check of the cursor |
| `FakeIpPersist.Format` | native/mirage-core/src/dns/fake_ip.rs:140-145 | the printer's loop over a snapshot |
| `FakeIpPersist.LoadedAreKept` | native/mirage-core/src/dns/fake_ip.rs:100-118 | whatever the file, in both loaded maps domains are nonempty, in lower case and without line feed or space at the end, and addresses assignable |
| `FakeIpPersist.LoadInvertsPrint` | native/mirage-core/src/dns/fake_ip.rs:82-145 | for well-formed tables and every enumeration of the map, loading what was printed gives back both maps and the cursor if and only if every domain can stand on a line |
| `FakeIpPersist.RestartResumes` | native/mirage-core/src/dns/fake_ip.rs:82-145 | so after any run a restart from a flushed file resumes with the very tables, exactly for such domains |
| `FakeIpPersist.LoadsInverseExactly` | native/mirage-core/src/dns/fake_ip.rs:100-118 | any text at all loads as two inverse maps if and only if its lines that are the last of their domain are those that are the last of their address |
| `FakeIpPersist.RepeatedDomainBreaksInverse` | native/mirage-core/src/dns/fake_ip.rs:116-118 | so a file no flush wrote can leave maps that are not inverse: one domain at two addresses |
| `FakeIpPersist.LoadedCursor` | native/mirage-core/src/dns/fake_ip.rs:121-125 | whatever the file, the first address handed out after loading it is an assignable one if and only if its last cursor line names neither the network address nor the one after it |
| `FakeIpFlush.MemoryStep` | native/mirage-core/src/dns/fake_ip.rs:216-278 | each step of assignments, clears and flushes keeps memory equal to the last completed tables with the assignment applied as far as it got |
| `FakeIpFlush.StepKeepsInv` | native/mirage-core/src/dns/fake_ip.rs:131-173 | each step of assignments, clears and flushes keeps: cleared since, or dirty, or an assignment or flush still to come, or what the lock holder writes is memory as it stands |
| `FakeIpFlush.CleanMeansSaved` | native/mirage-core/src/dns/fake_ip.rs:131-278 | in every interleaving of assignments, clears and several flushes with failing writes and renames: quiet and not dirty, with no clear since the last assignment, means a restart from the file has exactly the tables in memory, if and only if the domains can stand on lines or there is no file |
| `FakeIpFlush.CrashLeavesSoundFile` | native/mirage-core/src/dns/fake_ip.rs:137-166 | stopped at any step, the file restarts as the maps of some moment between assignments with its own cursor if and only if that moment's domains can stand on lines; the maps are then inverse, the cursor in range, and the protocol can start again from it |
| `FakeIpAhead.FileIsItsMoment` | native/mirage-core/src/dns/fake_ip.rs:131-278 | in every interleaving of assignments, clears and flushes, a file written since the start restarts as the tables of the moment of its snapshot if and only if their domains can stand on lines and the assignments begun until the cursor was read are a multiple of the capacity, or, counted from a clear in between, as many as lead to the same place |
| `FakeIpAhead.FileCanRunAhead` | native/mirage-core/src/dns/fake_ip.rs:137-166 | so not always: from any quiet start an assignment, then one that begins between snapshot and cursor, leaves a file that restarts as no moment of the run at all |
| `FakeIpFlush.ClearLeavesTheFile` | native/mirage-core/src/dns/fake_ip.rs:269-278 | a clear at any moment, flushes under way or not, empties memory but leaves the file: until the next assignment a restart from a file whose domains can stand on lines gives the empty tables if and only if there is no file or it holds no entry and the first cursor |
| `DnsFlight.FlightMap.Join` | native/mirage-core/src/tun/dns.rs:255-270 | a lookup joins the domain's flight or starts one on a fresh channel |
| `DnsFlight.FlightMap.DropGuard` | native/mirage-core/src/tun/dns.rs:217-225 | a guard removes the entry of its own channel and no other |
| `DnsFlight.FlightMap.Clear` | native/mirage-core/src/tun/dns.rs:78-83 | clearing empties the map |
| `DnsFlight.EntriesAreLiveFlights` | native/mirage-core/src/tun/dns.rs:212-287 | in every interleaving of lookups, broadcasts, cancellations and clears, the entries are exactly the live initiators begun since the last clear |
| `DnsFlight.OneInitiatorPerEpoch` | native/mirage-core/src/tun/dns.rs:255-270 | at most one resolver per domain begun since the last clear is running |
| `DnsFlight.GuardsRemoveTheirOwn` | native/mirage-core/src/tun/dns.rs:209-226 | ending an initiator removes its own entry, or nothing if it began before a clear |
| `DnsFlight.NoInitiatorsNoEntries` | native/mirage-core/src/tun/dns.rs:205-226 | once no initiator lives the map is empty |
| `DnsFlight.WaitersGetTheResolution` | native/mirage-core/src/tun/dns.rs:272-287 | a waiter that answers with an address answers what the one resolution of its flight, for its own domain, broadcast |
| `DnsFlight.LookupsShareExactly` | native/mirage-core/src/tun/dns.rs:242-270 | in every reachable state, a lookup begun while another is under way shares its flight if and only if the names have the same letters up to case and dots at the end |
| `DnsFlight.SharersAskedAlike` | native/mirage-core/src/tun/dns.rs:242-270 | in every run, lookups on one flight were made of the same name in that sense |
| `DnsFlight.DirectCache.MakeRoom` | native/mirage-core/src/tun/dns.rs:92-100 | a full cache drops its expired entries, and one live entry only if all are live |
| `DnsFlight.DirectCache.Insert` | native/mirage-core/src/tun/dns.rs:89-102 | the bound of 4096 holds, the answer is cached under the cleaned name, and no other entry changes |
| `DnsFlight.DirectCache.Lookup` | native/mirage-core/src/tun/dns.rs:105-114 | an answer under the cleaned name that is younger than 1800 s |
| `DnsFlight.AnswersExactly` | native/mirage-core/src/tun/dns.rs:86-114 | what is inserted under one name is found under another if and only if they have the same letters up to case and dots at the end, for 1800 s; other names find what they found before |
| `DnsCodec.BuildAQuery` | native/mirage-core/src/tun/dns.rs:129-143 | the query's labels are the nonempty pieces between the dots, after dots at the end are dropped |
| `DnsCodec.QueryFields` | native/mirage-core/src/tun/dns.rs:129-143 | a query carries its id, asks for recursion, holds one question and no records, and asks for type A in class IN |
| `DnsCodec.ParseQuery` | native/mirage-core/src/tun/dns.rs:447-483 | the parser of a query, with its refusals; each byte of the name becomes a character of its own |
| `DnsCodec.QueryRefused` | native/mirage-core/src/tun/dns.rs:447-470 | a message without a header or a question is refused, and the type read is the two bytes before the last two of the question |
| `DnsCodec.SkipDnsName` | native/mirage-core/src/tun/dns.rs:146-169 | the walk over a name, plain or compressed, with its bound of 128 steps |
| `DnsCodec.ParseAAnswer` | native/mirage-core/src/tun/dns.rs:172-198 | the walk over at most 16 records |
| `DnsCodec.ResponseEchoes` | native/mirage-core/src/tun/dns.rs:407-444 | every response repeats the query's id and question, carries its flags and the code, and holds no record or one: a pointer to the name, the query's type, class IN, one second to live and the address |
| `DnsCodec.SkipsName` | native/mirage-core/src/tun/dns.rs:146-169 | a well-formed name anywhere in a message is skipped to its end if and only if it has at most 128 labels |
| `DnsCodec.ParseInvertsBuild` | native/mirage-core/src/tun/dns.rs:129-143 | a query carries any domain to the parser, without empty labels, its bytes widened and in lower case, if and only if no label is longer than 63 bytes |
| `DnsCodec.CanonicalDomainsRoundTrip` | native/mirage-core/src/tun/dns.rs:447-483 | a domain comes back itself if and only if it is ASCII, in lower case and without an empty label, or is the root |
| `DnsCodec.NonAsciiDomainChanges` | native/mirage-core/src/tun/dns.rs:473-481 | a name of the bytes C3 A9 comes back as C3 83 C2 A9 |
| `DnsCodec.AnswerIsFirstAddress` | native/mirage-core/src/tun/dns.rs:172-198 | an answer section of any records, aliases and compressed names included, yields the first A record of four bytes among the first 16 |
| `DnsCodec.ResponseCarriesAddress` | native/mirage-core/src/tun/dns.rs:407-444 | for every query the parser accepts with at most 128 labels, with or without an address, the response carries its id and the code, asks the same question, and skipping its name and looking for an A record finds the address through the 0xC00C pointer exactly if the type is A |
| `ClientHello.AssembledIsHello` | native/mirage-core/src/crypto/tls_raw.rs:217-245 | what assemble writes is a record whose record, handshake and extension lengths agree with its content |
| `ClientHello.SniDataIs` | native/mirage-core/src/crypto/tls_raw.rs:128-140 | a server_name extension holds one host name, with its length and that of the list |
| `ClientHello.PatchU16` | native/mirage-core/src/crypto/tls_raw.rs:598-601 | a 16-bit length in place, the rest of the buffer unchanged |
| `ClientHello.PatchU24` | native/mirage-core/src/crypto/tls_raw.rs:604-610 | a 24-bit length in place, the rest of the buffer unchanged |
| `ClientHello.FindSni` | native/mirage-core/src/crypto/tls_raw.rs:625-657 | the walk to the first server_name extension, with every refusal |
| `ClientHello.BuildFromTemplate` | native/mirage-core/src/crypto/tls_raw.rs:619-677 | splice, overwrite, patch three lengths |
| `ClientHello.LocatesName` | native/mirage-core/src/crypto/tls_raw.rs:633-657 | in a well-formed hello the walk finds the first server_name extension, and refuses exactly session ids not of 32 bytes and hellos without a name |
| `ClientHello.ReplayEditsHello` | native/mirage-core/src/crypto/tls_raw.rs:612-677 | replaying a template whose lengths stay in range is an edit of its hello: new random, session id and name, consistent lengths, every other extension and byte kept in order |
| `ClientHello.SecondReplayWins` | native/mirage-core/src/crypto/tls_raw.rs:619-677 | a second replay hides the first |
| `ClientHello.FixedFieldsReadBack` | native/mirage-core/src/crypto/tls_raw.rs:668-671 | for every template accepted, well-formed or not, the random and the session id stand at 11 and 44 |
| `Unicode.LossyIsText` | native/mirage-core/src/geo.rs:264-270 | whatever the bytes, decoding with replacement gives UTF-8, and the bytes themselves if and only if they are |
| `Unicode.TrimSpacesIsRest` | native/mirage-core/src/geo.rs:324-329 | trimming takes characters of white space from both ends and nothing else |
| `Unicode.TrimSpacesTakesAll` | native/mirage-core/src/geo.rs:324-329 | and leaves none at either end |
| `Sniffer.FindName` | native/mirage-core/src/tun/sniffer.rs:135-158 | the inner loop over the names of an extension |
| `Sniffer.FindHost` | native/mirage-core/src/tun/sniffer.rs:124-162 | the loop over extensions |
| `Sniffer.ParseClientHelloPayload` | native/mirage-core/src/tun/sniffer.rs:84-165 | the parser of a hello, with every bound check |
| `Sniffer.SnifferReadsHello` | native/mirage-core/src/tun/sniffer.rs:84-182 | from any well-formed record the sniffer reads the first host name of the first extension that has one |
| `Sniffer.SniffsIn` | native/mirage-core/src/tun/sniffer.rs:84-132 | what stands behind the extensions, inside the record or after it, has no say in the name |
| `Sniffer.NamesRead` | native/mirage-core/src/tun/sniffer.rs:135-158 | of any list of names, whatever types and bytes come first, the first host name that is UTF-8 is read |
| `Sniffer.HostIs` | native/mirage-core/src/tun/sniffer.rs:146-152 | a name is reported with its letters in lower case and without dots at its end |
| `Sniffer.SnifferRefuses` | native/mirage-core/src/tun/sniffer.rs:84-88 | what is no handshake record, or holds no hello, has no host name |
| `Sniffer.ReplayedNameReadsBack` | native/mirage-core/src/tun/sniffer.rs:84-182 | a replayed template is sniffed as its new name, in lower case and without dots at its end |
| `Sniffer.AssembledNameReadsBack` | native/mirage-core/src/crypto/tls_raw.rs:249-307 | an assembled hello is sniffed as its name wherever the shuffle puts the extension |
| `ServerFlight.TemplateIsComplete` | native/mirage-core/src/crypto/handshake_cache.rs:34-53 | the completeness loop |
| `ServerFlight.KindsSpelled` | native/mirage-core/src/crypto/handshake_cache.rs:44-52 | the three kinds are the record types 16, 14 and 17 |
| `ServerFlight.CompleteMeansFramed` | native/mirage-core/src/crypto/handshake_cache.rs:23-53 | complete means: some records back to back, with the three kinds among them, and nothing else |
| `ServerFlight.ReadServerHandshake` | native/mirage-core/src/proxy/pool.rs:572-669 | the client's loop, timeouts aside |
| `ServerFlight.ClientSucceedsExactly` | native/mirage-core/src/proxy/pool.rs:572-669 | the client accepts a flight if and only if the records before the first alert have all three kinds and the first hello has at least 38 bytes and a nonzero random; it then holds that random and suite |
| `ServerFlight.AlertsEndFlight` | native/mirage-core/src/proxy/pool.rs:600-610 | the records before the first alert are those before the first of type 15 |
| `ServerFlight.UsableRandom` | native/mirage-core/src/proxy/pool.rs:611-640 | a random is usable if and only if the hello has 38 bytes and one of those behind the sixth is not zero |
| `ServerFlight.CompleteMeansAccepted` | native/mirage-core/src/crypto/handshake_cache.rs:23-53 | on an alert-free flight the client succeeds if and only if the template is complete and the first hello's random is usable |
| `ServerFlight.HelloFlightAccepted` | native/mirage-core/src/crypto/handshake_cache.rs:34-53 | a flight that begins with a hello is complete if and only if it has the three kinds, but the client accepts it if and only if they come before the first alert and the hello's random is usable |
| `TemplateFetch.FetchServerHello` | native/mirage-core/src/crypto/handshake_cache.rs:251-338 | the capture of a template: the first record must be a hello, then at most eight more until the flight is complete, whatever part of a record is missing at the end |
| `TemplateFetch.CaptureRefused` | native/mirage-core/src/crypto/handshake_cache.rs:251-338 | a silent stream times out, one that begins with another record is rejected, and one that yields no complete flight is unfinished |
| `TemplateFetch.TemplateIsAcceptedExactly` | native/mirage-core/src/crypto/handshake_cache.rs:264-338 | whatever the other side sends, a captured template is a complete flight of at most nine records, incomplete without its last, and the client accepts it if and only if it holds no alert and the first hello's random is usable |
| `TemplateFetch.FlightIsCaptured` | native/mirage-core/src/crypto/handshake_cache.rs:264-338 | a stream that begins with such a flight yields exactly that flight, whatever follows and however it ends |
| `TemplateFetch.AlertIsCached` | native/mirage-core/src/crypto/handshake_cache.rs:299-326 | an alert behind the hello is captured with the rest, and every client served that template fails |
| `TemplateFetch.TemplateWasSentExactly` | native/mirage-core/src/crypto/handshake_cache.rs:299-326 | a captured template is what the other side sent if and only if its stream begins with a flight of at most nine records, a hello first and the three kinds together with the last, and it is that flight; so it is whenever that side stays silent at the end |
| `TemplateFetch.ClosedStreamInventsRecord` | native/mirage-core/src/crypto/handshake_cache.rs:303-326 | a connection closed inside a header can complete the template with a record of zeros that nobody sent |
| `FlightEditing.ReadsClientHello` | native/mirage-core/src/crypto/handshake_cache.rs:381-412 | from any well-formed hello the session id and the suites, pair by pair, read back as they were built |
| `FlightEditing.PickCipher` | native/mirage-core/src/crypto/handshake_cache.rs:395-417 | 13 02 before 13 01 before 13 03 among the pairs offered, and 13 01 if there is none of them |
| `FlightEditing.FallbackServerHello` | native/mirage-core/src/crypto/handshake_cache.rs:425-470 | the synthesised flight, with a picked suite |
| `FlightEditing.FallbackTail` | native/mirage-core/src/crypto/handshake_cache.rs:433-447 | the synthesised hello ends with the suite, no compression and two extensions: version 3.4 and an X25519 share of 32 bytes |
| `FlightEditing.PatchServerHello` | native/mirage-core/src/crypto/handshake_cache.rs:340-379 | the patch, in its buffer |
| `FlightEditing.PatchKeepsRest` | native/mirage-core/src/crypto/handshake_cache.rs:340-379 | for every flight whatever: the guard refuses it unchanged, or version, type, random, session id and all behind it stand where they should |
| `FlightEditing.Override` | native/mirage-core/src/crypto/handshake_cache.rs:139-146 | the override of the random, in its buffer |
| `FlightEditing.OverriddenBytes` | native/mirage-core/src/crypto/handshake_cache.rs:139-146 | a handshake record of 43 bytes or more has its random replaced and nothing else; any other flight is left alone |
| `FlightEditing.PatchEditsHello` | native/mirage-core/src/crypto/handshake_cache.rs:340-379 | patching is an edit of the first record's hello: session id and random replaced, record length following, all other records kept |
| `FlightEditing.OverrideEditsHello` | native/mirage-core/src/crypto/handshake_cache.rs:139-146 | so is overriding the random |
| `FlightEditing.TemplateServes` | native/mirage-core/src/crypto/handshake_cache.rs:130-188 | a complete template, patched and overridden, stays complete and gives the client the random put in last and the template's own suite |
| `FlightEditing.FallbackServes` | native/mirage-core/src/crypto/handshake_cache.rs:425-470 | the synthesised flight is complete and gives the client the random sent and the suite picked |
| `FlightEditing.PatchIsSafeExactly` | native/mirage-core/src/crypto/handshake_cache.rs:340-348 | a template the client accepts can be patched for every session id and random if and only if its first record holds all of its own session id or the flight is too short to be touched |
| `CidrRanges.BlockIsMatch` | native/mirage-core/src/direct.rs:396-411 | an address lies in the interval of a CIDR exactly if it matches under the mask, /0 included |
| `CidrRanges.Merge` | native/mirage-core/src/direct.rs:412-426 | the merged list is sorted with gaps, and holds exactly the addresses of the input, the saturated end included |
| `CidrRanges.Search` | native/mirage-core/src/direct.rs:427-438 | halving finds an address exactly if some interval holds it |
| `CidrRanges.Lookup` | native/mirage-core/src/direct.rs:394-440 | for every table with prefixes up to 32, in any order of equal starts, the lookup says whether target & mask == net & mask for some entry |
| `CidrRanges.SeparatedIsCanonical` | native/mirage-core/src/direct.rs:412-426 | the merged list is determined by the addresses it holds |
| `GeoSite.BuildMatcher` | native/mirage-core/src/geo.rs:102-125 | the construction of the index |
| `GeoSite.IndexCounts` | native/mirage-core/src/geo.rs:102-125 | the index counts the rules it was built of |
| `GeoSite.NormalIs` | native/mirage-core/src/geo.rs:106-116 | a compared name has the letters of the given one in lower case, without the dots at its end |
| `GeoSite.FindTail` | native/mirage-core/src/geo.rs:137-144 | the loop over dots tries exactly what follows each dot |
| `GeoSite.IndexLookup` | native/mirage-core/src/geo.rs:127-152 | the indexed lookup |
| `GeoSite.IndexIsScan` | native/mirage-core/src/geo.rs:20-29 | for any rules with normalised values and any host, the index matches if and only if some rule does by itself |
| `GeoSite.SingleRuleIsFaithful` | native/mirage-core/src/geo.rs:108-116 | a rule by itself is indexed faithfully for every host if and only if its value is in lower case without dots at its end |
| `Protobuf.ReadVarint` | native/mirage-core/src/geo.rs:217-233 | the varint loop |
| `Protobuf.VarintFits` | native/mirage-core/src/geo.rs:217-233 | what is read always fits 64 bits |
| `Protobuf.VarintRoundTrip` | native/mirage-core/src/geo.rs:217-233 | every 64-bit value is read back from its encoding, wherever it stands |
| `Protobuf.ReadLenDelim` | native/mirage-core/src/geo.rs:235-242 | a length and its bytes, within the buffer |
| `Protobuf.LengthsWrapExactly` | native/mirage-core/src/geo.rs:235-242 | on any buffer the 64-bit sum of offset and length wraps, and the slice is out of range, if and only if it reaches 2^64; otherwise the code reads what ReadLenDelim reads |
| `Protobuf.LargestLengthWraps` | native/mirage-core/src/geo.rs:235-242 | the encoding of the largest length, alone in a buffer, is such an input |
| `Protobuf.FieldReads` | native/mirage-core/src/geo.rs:251-296 | a field of wire type 0, 1, 2 or 5 is read back wherever it stands, and the position advances by its size |
| `Protobuf.MessageReads` | native/mirage-core/src/geo.rs:246-300 | a message of any fields, read from its start, is what its fields fold to |
| `Protobuf.BrokenMessage` | native/mirage-core/src/geo.rs:246-300 | a message that breaks off behind some fields, by the bytes it ends with: within a number or a length a strict loop fails and another keeps those fields; within a fixed field or at an unknown wire type both keep them |
| `GeoSiteFile.ParseDomainMsg` | native/mirage-core/src/geo.rs:246-311 | the rule parser, with the failures that give nothing and those that stop it |
| `GeoSiteFile.ParseGeositeEntry` | native/mirage-core/src/geo.rs:312-367 | the entry parser |
| `GeoSiteFile.ParseGeositeFile` | native/mirage-core/src/geo.rs:369-413 | the file parser, which stops where the others fail |
| `GeoSiteFile.RuleReads` | native/mirage-core/src/geo.rs:246-311 | an encoded rule is parsed to its last type and last value |
| `GeoSiteFile.RuleByType` | native/mirage-core/src/geo.rs:296-311 | of an encoded rule with a value, type 0 matches hosts that contain it, 1 its pattern, 3 the host itself, 2 and every other the host or what follows a dot in it; without a value there is none |
| `GeoSiteFile.CodeIs` | native/mirage-core/src/geo.rs:327 | a code is its text without white space at the ends, in capitals |
| `GeoSiteFile.EntryReads` | native/mirage-core/src/geo.rs:312-367 | an encoded entry is parsed to its last code and its rules in order |
| `GeoSiteFile.FileReads` | native/mirage-core/src/geo.rs:246-413 | an encoded file, with unknown fields anywhere at every level, is parsed to exactly its entries, the last one of each code |
| `GeoSiteFile.ParsedRuleIsNormalised` | native/mirage-core/src/geo.rs:264-269 | whatever the bytes, text or not, a parsed value is in lower case without dots at its end |
| `GeoSiteFile.FileIndexIsScan` | native/mirage-core/src/geo.rs:102-150 | so for any bytes read as a file, the index of a code and its rules agree on every host |
| `Outbound.New` | native/mirage-core/src/proxy/outbound.rs:508-683 | the construction in two passes |
| `Outbound.ImplicitOutbounds` | native/mirage-core/src/proxy/outbound.rs:544-561 | where no outbound is so tagged, direct is built as the direct one and block as the blocking one |
| `Outbound.OneRound` | native/mirage-core/src/proxy/outbound.rs:564-671 | one round over the pending groups and chained tunnels |
| `Outbound.BuildsExactly` | native/mirage-core/src/proxy/outbound.rs:508-683 | with distinct tags the construction succeeds if and only if every reference is defined and every closed walk along references passes direct or block |
| `Outbound.AcyclicBuilds` | native/mirage-core/src/proxy/outbound.rs:508-683 | so with those names left to leaves it succeeds if and only if references are defined and no walk closes |
| `Outbound.FailureHasCycle` | native/mirage-core/src/proxy/outbound.rs:672-678 | a failure on closed references exhibits a cycle, free of direct and block |
| `Outbound.BuiltAsConfigured` | native/mirage-core/src/proxy/outbound.rs:544-671 | exactly the defined tags are built, each node from the built nodes its configuration names, in its order; only under a taken implicit name can a child be the outbound it replaced |
| `Outbound.ImplicitNameHidesCycle` | native/mirage-core/src/proxy/outbound.rs:544-561 | a group named direct that contains itself is accepted: it resolves to the implicit outbound it replaces |

## Left out

- Sockets, tasks, timers and the runtime; each protocol is modelled by the steps it interleaves. Timeouts of
  the handshake reader, the DNS waiter and the multiplexer are absent or show as a step that may come any time.
- I/O errors other than an exhausted nonce in the record layer, and failing writes and renames of the fake-IP file.
- AEAD, HKDF, HMAC and Poly1305 internals: opening inverts sealing under the same key and nonce and fails
  otherwise, infos are told apart by their bytes, and MAC and mask are arbitrary functions.
- `derive_master`, the X25519 key agreement and the negotiation of ciphers.
- FakeIpPersist.Load: lower-cases ASCII letters only, as the mapper of this model does.
- FakeIp.FakeIpMapper.LookupOrAssign: lower-cases ASCII letters only, where the code's `to_lowercase` knows all of Unicode's.
- Bit masks of addresses appear as division by a power of two.
- Parsing of CIDR strings and of the padding scheme from configuration text; the condition it checks is a precondition.
- SessionToken.IdentifiedAtMostOnce: tolerances above half of 64 bits, whose doubled value wraps; the steps below it have none of this bound.
- SessionToken.AuthIsCacheRun: an attempt whose tag two credentials accept, which a MAC makes unlikely but cannot exclude.
- Protobuf.ReadLenDelim: refuses a length whose sum with the offset reaches 2^64, where the code stops with a panic;
  the parsers built on it take such a file for malformed.
- RecordLayer.CryptoWriter.SendData: the random draws are arbitrary within their ranges, without their distribution;
  a scheme has fewer than 2^32 slots.
- DnsFlight.WaitersGetTheResolution: a waiter may answer before the broadcast, as after its timeout, and then has no address.
- ClientHello.ReplayEditsHello: names so long that a length field overflows are excluded; there the code truncates the lengths.
- FlightEditing.TemplateServes: the random is a parameter and must not be all zeros, which a random fill yields with negligible chance.
- TemplateFetch.FetchServerHello: connecting, the hello sent and the timeouts; the other side is the bytes it sends and
  whether it then stays silent or closes, and a read cut short by a close has written what it got.
- FlightEditing.FallbackServerHello: the key share and the filler are parameters.
- Regular expressions: a pattern is the set of texts it matches, and compiling it an arbitrary partial function.
- Geoip files, the IPv6 prefixes of `direct.rs`, HTTP and QUIC sniffing, and the literal tables and browser fingerprints.
- Resolution of a group to a leaf, health checks, brutal rate control and connection pools, and the Mirage server.
- MirageStream.MirageStream.PollRead: a future is an event that a poll finds ready or not; wakers are absent.
- CidrRanges.Lookup: the library sort is any list of the same intervals in order of their starts.
- UdpMux.WriterPump: how much of the queue is ready when a batch is filled is left open.
- Memory ordering: atomics and locks act in one order.
