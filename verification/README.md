# Orbweb tunnel stack: a Dafny model

Orbweb carries many local TCP connections over one encrypted camera socket. This project models the integration's
clean-room implementation of it and proves what its parts promise each other. `dafny verify dfyconfig.toml` checks
everything.

**Multiplexer** (`Mux`, `PortMapping`, `MuxRuns`, `PairInvariant`, `PairSteps`, `TwoParty`, `Progress`, `Outbound`,
`Disconnect`, `Receiving`, `Channel`). `Mux.Step` is the multiplexer as a machine whose steps are the stretches of
code between two awaits: the receive loop, the keepalive loop and every local forwarding task interleave freely, and
cancelling a task acts at the point where the task is suspended. `PortMapping.OrbwebPortMapping` is the class with
the source's fields; each method is proved equal to its step. Its `Valid()` says that the object's fields and
everything it has written are those of the machine's run over the history of calls, so the results over runs in
`MuxRuns`, `Outbound`, `Disconnect`, `Receiving` and `Channel` hold of the object. `TwoParty` joins the integration
to a camera by two FIFO channels. That the camera follows the same rules in the connector role, and opens its stream
when the announcement arrives, is an assumption, used by `TwoParty`, `Progress` and `Channel.ChannelsCanBeBytes`
only. `MuxRuns`, `Disconnect` and `Receiving` assume nothing about the peer; `Outbound` assumes that the peer says
nothing about an id before its announcement. The two-party runs make one assumption about ids, `TwoParty.MayAct`: no
id that still has packets in flight, or that a receive loop is still dealing with, is reallocated or evicted from
the retired table. The invariant (`PairInvariant.PairInv`) is stated per id on a view of both ends and both
channels: it folds the packets in flight through an abstract receiver that is stricter than the code.

**Wire stack** (`Bytes`, `Framing`, `Crypto`, `Handshake`, `Tunnel`, `FullStack`, `Layout`). `Layout` says in plain
arithmetic which bytes travel. The mask loop runs on an array, exclusive or is defined bit by bit, integers are
packed in two's complement. AES is a pair of mutually inverse block functions and MD5 an arbitrary function to 16
bytes; CBC is written out as in section 6.2 of NIST SP 800-38A.

**Offline decoder** (`PacketDecoder`), **ownership machines** (`Pool`, `Upstream`, `DirectRace`, `DirectListeners`),
**direct rendezvous** (`Text`, `Direct`, `Rendezvous`) and the **camera partition** (`StreamBindings`, `Routes`).
Task completion, bind results, drawn ports and what the network answers are parameters, so results hold for every
schedule.

Where the code does less than one may expect, the model follows the code and the exact condition is proved:

- `BasePacketBuffer.feed` returns nothing from a call in which it raises, so packets decoded earlier in that call
  are lost. Some call raises exactly when the stream holds a bad length; what is returned and what that call loses
  are together the packets before the bad length (`Framing.ChunkingInvariance`). So a given cut loses packets
  exactly when the raising call has completed a frame (`Framing.LossOfACut`), and no cut of a stream loses any
  exactly when the stream is valid or starts with its bad length (`Framing.LossUnderSomeCut`).
  `Framing.LossDependsOnTheCut` is one stream with a cut that loses a packet and a cut that does not.
- A pool closed while an opener is suspended stores and returns the new mapping anyway, although `async_close` is
  documented to close every owned mapping (`pool.py:267-280`). `Pool.CloseIsFinalIffIdle` says that closing is final
  exactly when no caller is between taking a lock and storing its mapping.
- Both handshake ends finish exactly when the private values are positive and neither public value is zero modulo
  the modulus, which need not be prime (`Handshake.KeysAgree`).
- Sequence numbers leave the 32-bit header field after 2^31 frames; the sender then raises, and only then
  (`FullStack.SealRefusesLongStreams`, `Channel.EveryRunIsCarried`).
- A client on a port that is not mapped raises only after an id has been allocated (`port_mapping.py:157-162`): the
  id is spent and, if it was retired, forgotten. `Mux.Step` has a step for it.

## Model

| member | source | states |
|---|---|---|
| TwoParty.NoProtocolError | custom_components/hubble_connected/orbweb/port_mapping.py:240-288 | in every run of both ends over FIFO channels (local ends of file, remote requests, crossing requests, in any interleaving) neither receive loop ever raises an unknown-request, mapping-mismatch, sequence or payload error |
| TwoParty.DrainedCloseIsMutual | custom_components/hubble_connected/orbweb/port_mapping.py:203-208 | once nothing of an id is in flight or being handled, both ends hold the stream and still read their sockets, or neither holds it |
| TwoParty.BytesArriveInOrder | custom_components/hubble_connected/orbweb/port_mapping.py:188-202 | in every run each socket holds a prefix of the bytes read at the other end, and all of them from the moment the other end's disconnect request is seen |
| TwoParty.ActKeeps | custom_components/hubble_connected/orbweb/port_mapping.py:188-288 | every step of either kind of task keeps the two-ended invariant of every id at once |
| TwoParty.GoodIsReceived | custom_components/hubble_connected/orbweb/port_mapping.py:240-288 | a packet the abstract receiver accepts is dispatched without an error and changes the stream as the abstract receiver foresees |
| TwoParty.OtherIds | custom_components/hubble_connected/orbweb/port_mapping.py:341-359 | a step changes nothing another id can see, at either end or in flight, except that retiring into a full table forgets the oldest id and a spent id is forgotten |
| PairInvariant.QuietIsSettled | custom_components/hubble_connected/orbweb/port_mapping.py:275-288 | an invariant view with empty channels and resting tasks is open at both ends or at neither |
| PairSteps.HeadIsGood | custom_components/hubble_connected/orbweb/port_mapping.py:240-288 | under the invariant the oldest packet in flight is never one the receiver rejects |
| PairSteps.KeepsCancel | custom_components/hubble_connected/orbweb/port_mapping.py:347-350 | cancelling the forwarding task at whatever await it is suspended keeps the two-ended invariant |
| PairSteps.KeepsReceiveRequest | custom_components/hubble_connected/orbweb/port_mapping.py:280-283 | receiving a disconnect request, crossing or not, keeps the two-ended invariant |
| Progress.ClosingIsBounded | custom_components/hubble_connected/orbweb/port_mapping.py:188-288 | from any reachable state, an id that gets no further socket bytes takes part in a bounded number of further steps: the disconnect exchange cannot go on for ever |
| Progress.NoDeadlock | custom_components/hubble_connected/orbweb/port_mapping.py:210-288 | in every reachable state, unless both ends have nothing to read and nothing to write, the code of one of them can take a further step; the step stays within the runs considered exactly when it does not push an id still in use out of a full retired table |
| Progress.DrainingEnds | custom_components/hubble_connected/orbweb/port_mapping.py:188-288 | from every reachable state there is a bound on the length of all runs that take no new local input: draining terminates for all ids together |
| Progress.CloseCompletes | custom_components/hubble_connected/orbweb/port_mapping.py:275-288 | from any reachable state in which an id has ended at one end (end of file, cancellation or a request from the other end), however the run goes on without reallocating it, once nothing is left to drain the id is in neither table |
| Outbound.OutboundOrder | custom_components/hubble_connected/orbweb/port_mapping.py:188-208 | under any interleaving, a stream's own packets are its announcement, data frames numbered 0, 1, 2, ... whose payloads are a prefix of the bytes read (all of them after a local end of file), and at most one disconnect request, last |
| Outbound.ShapedMeans | custom_components/hubble_connected/orbweb/port_mapping.py:197-202 | data frames numbered consecutively carry the bytes read, in order |
| Disconnect.AfterTheEnd | custom_components/hubble_connected/orbweb/port_mapping.py:203-208 | however a forwarding task ends (end of file or cancellation, wherever it is suspended), all it still writes is at most one disconnect request: none when the remote end has asked first, when it never started or when it is cancelled again while waiting to write; otherwise the request is what it does next |
| Disconnect.NoRequestAfterRemote | custom_components/hubble_connected/orbweb/port_mapping.py:204-207 | in every run, once the remote request has arrived and the task is not past its guard, no request goes out for the id, whatever else happens |
| Disconnect.RemoteFlagIsExact | custom_components/hubble_connected/orbweb/port_mapping.py:280-281 | a live stream counts as remotely disconnected exactly when an empty request with its id, role and ports has been delivered |
| Disconnect.AnswersInOrder | custom_components/hubble_connected/orbweb/port_mapping.py:280-286 | the responses and confirmations of every run answer exactly the requests and responses delivered to live streams, each once and in order; at most the last is still to come |
| Disconnect.LeavesExactly | custom_components/hubble_connected/orbweb/port_mapping.py:280-288 | a stream leaves the table exactly when a response or a confirmation has been delivered to it and the receive loop is done; a request alone never removes it; its id and ports stay known while at most 256 streams, itself included, are retired |
| Receiving.StopsExactly | custom_components/hubble_connected/orbweb/port_mapping.py:210-279 | in every run the receive loop has stopped exactly when a delivered packet was not acceptable at its time, an error is recorded exactly when a loop has failed, and the first error stays |
| Receiving.StopsForAReason | custom_components/hubble_connected/orbweb/port_mapping.py:242-279 | which error goes with which packet |
| Receiving.TimeoutMeansSix | custom_components/hubble_connected/orbweb/port_mapping.py:290-305 | the keepalive loop has given up exactly when six keepalives in a row were counted with none arriving in between |
| Receiving.EveryCountIsWritten | custom_components/hubble_connected/orbweb/port_mapping.py:293-297 | every keepalive counted was written, and at most one written is not counted yet |
| MuxRuns.InboundIsExact | custom_components/hubble_connected/orbweb/port_mapping.py:260-273 | for any incoming packets whatever, a live stream's socket has received exactly the payloads of the frames meant for it, consecutively numbered; only a frame that stops the receive loop is left out |
| MuxRuns.OtherSocketsUntouched | custom_components/hubble_connected/orbweb/port_mapping.py:242-273 | a received packet extends at most one socket: the one of its own id, role, swapped ports and expected number |
| MuxRuns.TablesInEveryRun | custom_components/hubble_connected/orbweb/port_mapping.py:341-359 | in every reachable state active and retired ids are disjoint, retired ids distinct and at most 256, and the receive loop deals with an active id |
| MuxRuns.RetiredSurvives | custom_components/hubble_connected/orbweb/port_mapping.py:352-359 | a retired id that is not reallocated stays known while its age and the later retirements stay below 256, so a fresh one survives 255 later retirements |
| MuxRuns.YoungerAfterRetire | custom_components/hubble_connected/orbweb/port_mapping.py:354-359 | one retirement ages every surviving entry by one and evicts only the oldest of a full table |
| MuxRuns.FirstFreeIsNear | custom_components/hubble_connected/orbweb/port_mapping.py:172-178 | the first free id in cyclic order is unique and lies no further from the counter than there are active streams |
| MuxRuns.ExhaustionNeedsAllIds | custom_components/hubble_connected/orbweb/port_mapping.py:179 | an exhausted id space means 2^31 active streams |
| MuxRuns.NextIdMovesOn | custom_components/hubble_connected/orbweb/port_mapping.py:172-179 | the next id taken is the first inactive one after the last one taken; so an id given up is not taken again while any other id is inactive |
| Mux.StepKeepsTables | custom_components/hubble_connected/orbweb/port_mapping.py:172-359 | every atomic step keeps the table invariants |
| Mux.RetireKeepsDistinct | custom_components/hubble_connected/orbweb/port_mapping.py:352-359 | retiring keeps ids distinct and the table within 256, and adds nothing but the new id |
| Mux.DropKeepsDistinct | custom_components/hubble_connected/orbweb/port_mapping.py:177 | forgetting an id removes exactly that id from the retired table |
| PortMapping.OrbwebPortMapping.AllocateRequestId | custom_components/hubble_connected/orbweb/port_mapping.py:172-179 | the loop returns the first inactive id in cyclic order from the counter, forgets its retired entry and moves the counter past it; it fails exactly when all 2^31 ids are active, and then changes nothing |
| PortMapping.OrbwebPortMapping.OnLocalClient | custom_components/hubble_connected/orbweb/port_mapping.py:148-170 | an accepted client is the machine's accept step with the client's socket in the table; a closed mapping closes the socket and changes nothing; a client on an unmapped port spends an id, which also forgets that it was retired |
| PortMapping.OrbwebPortMapping.SendAnnouncement | custom_components/hubble_connected/orbweb/port_mapping.py:190-196 | the task's first packet is the announcement of its own ports and id |
| PortMapping.OrbwebPortMapping.ChunkRead | custom_components/hubble_connected/orbweb/port_mapping.py:197-199 | the chunk takes the current number and the counter moves before the write |
| PortMapping.OrbwebPortMapping.SendChunk | custom_components/hubble_connected/orbweb/port_mapping.py:200-202 | the write puts out one data frame with the number taken earlier |
| PortMapping.OrbwebPortMapping.EndOfInput | custom_components/hubble_connected/orbweb/port_mapping.py:203-208 | the guard of the final block is evaluated once, at the end of input; without a request to send the task closes its socket |
| PortMapping.OrbwebPortMapping.SendRequest | custom_components/hubble_connected/orbweb/port_mapping.py:205-208 | past the guard the request goes out even if a remote request has arrived meanwhile, and then the socket is closed |
| PortMapping.OrbwebPortMapping.ReceivePacket | custom_components/hubble_connected/orbweb/port_mapping.py:210-238 | one turn of the receive loop: keepalive, unexpected command or dispatch |
| PortMapping.OrbwebPortMapping.DispatchFrame | custom_components/hubble_connected/orbweb/port_mapping.py:240-288 | every branch of the dispatcher up to its first await, with its error |
| PortMapping.OrbwebPortMapping.SendResponse | custom_components/hubble_connected/orbweb/port_mapping.py:282-283 | the response goes out before the local stream is stopped, which stays in the table |
| PortMapping.OrbwebPortMapping.SendConfirm | custom_components/hubble_connected/orbweb/port_mapping.py:285-286 | the confirmation goes out before the local stream is stopped and removed |
| PortMapping.OrbwebPortMapping.StopLocalStream | custom_components/hubble_connected/orbweb/port_mapping.py:347-350 | cancelling the task, after which the receive loop waits for it to end |
| PortMapping.OrbwebPortMapping.FinishStopping | custom_components/hubble_connected/orbweb/port_mapping.py:351-359 | the socket is closed; removal, eviction of the oldest retired entry from a full table, and the new retired entry |
| PortMapping.OrbwebPortMapping.SendKeepalive | custom_components/hubble_connected/orbweb/port_mapping.py:293-296 | one keepalive is written, before it is counted |
| PortMapping.OrbwebPortMapping.CountMissed | custom_components/hubble_connected/orbweb/port_mapping.py:297-305 | the count moves after the write has drained, so a keepalive received in between is forgotten first; the sixth unanswered one is a timeout |
| PortMapping.OrbwebPortMapping.CloseMapping | custom_components/hubble_connected/orbweb/port_mapping.py:402-434 | closing empties both tables, closes every listener and every client's socket and leaves no task a further step; closing again changes nothing |
| PortMapping.OrbwebPortMapping.Record | custom_components/hubble_connected/orbweb/port_mapping.py:188-305 | whatever calls are made, the fields and the packets written are those of the machine's run over the history of calls |
| MuxRuns.RunSnoc | custom_components/hubble_connected/orbweb/port_mapping.py:188-305 | a run and one step more: state and output |
| Framing.ApplyBodyMask | custom_components/hubble_connected/orbweb/framing.py:74-90 | the word loop equals the per-byte closed form: 0x0B, 0x35, 0, 0 over all but the last one to four bytes |
| Framing.MaskIsItsOwnInverse | custom_components/hubble_connected/orbweb/framing.py:74-80 | masking twice restores the body |
| Framing.WordMask | custom_components/hubble_connected/orbweb/framing.py:86-87 | exclusive or of a little-endian word with the constant acts on its bytes separately |
| Layout.FrameBytes | custom_components/hubble_connected/orbweb/framing.py:98-107 | an encoded frame byte by byte: command and length as little-endian 32-bit integers, then each body byte under 0x0B, 0x35, 0, 0 by its place, the last one to four bytes and unmasked bodies as they are |
| Layout.DecodedBytes | custom_components/hubble_connected/orbweb/framing.py:110-125 | a frame decodes exactly when its length field says its length within 4 MiB; command and body byte by byte |
| Layout.ReadBytes | custom_components/hubble_connected/orbweb/framing.py:157-168 | a reader waits for the announced length, refuses one beyond 4 MiB at once, and otherwise returns command, body and rest byte by byte |
| Layout.XorBitwise | custom_components/hubble_connected/orbweb/framing.py:87 | exclusive or works bit by bit |
| Framing.DecodeOfEncode | custom_components/hubble_connected/orbweb/framing.py:98-125 | encoding succeeds exactly on int32 commands with bodies up to the limit, and decoding undoes it |
| Framing.EncodeOfDecode | custom_components/hubble_connected/orbweb/framing.py:110-125 | every frame that decodes is the encoding of what it decodes to |
| Framing.DrainIsExact | custom_components/hubble_connected/orbweb/framing.py:144-154 | decoding whole is characterised without it: packets whose wire image, followed by an unfinished frame or a bad length, is the buffer; there is exactly one such outcome |
| Framing.BasePacketBuffer.Feed | custom_components/hubble_connected/orbweb/framing.py:140-154 | the in-place loop returns what the buffered bytes decode to and keeps the undecoded tail; on a bad length it raises, keeps the bad tail and loses the packets |
| Framing.ChunkingInvariance | custom_components/hubble_connected/orbweb/framing.py:128-154 | for every stream and every way of cutting it: some call raises exactly when the stream holds a bad length; returned packets and packets lost by the raising call are together those decoded whole; on a valid stream nothing is lost and pending bytes are the undecoded tail |
| Framing.LossOfACut | custom_components/hubble_connected/orbweb/framing.py:144-154 | a cut loses packets exactly when the call that raises has completed a frame |
| Framing.LossUnderSomeCut | custom_components/hubble_connected/orbweb/framing.py:144-154 | no cut loses packets exactly when the stream is valid or has no packet before its bad length |
| Framing.LossDependsOnTheCut | custom_components/hubble_connected/orbweb/framing.py:144-154 | a packet followed by a bad length is lost when fed in one call and returned when fed in two |
| Framing.ReaderAgreesWithBuffer | custom_components/hubble_connected/orbweb/framing.py:157-168 | repeated reads give the buffer's packets and end starved where the buffer waits, or with an error where it raises |
| Crypto.UnpadOfPad | custom_components/hubble_connected/orbweb/crypto.py:79-85 | for every block size 2..255 padding is never empty, reaches whole blocks and comes off again |
| Crypto.PadOfUnpad | custom_components/hubble_connected/orbweb/crypto.py:88-100 | whatever unpadding accepts is the padding of its result |
| Layout.PaddingBytes | custom_components/hubble_connected/orbweb/crypto.py:79-85 | padding exists exactly for block sizes 2 to 255 and fills the last block with copies of its own length |
| Crypto.SecretsAgree | custom_components/hubble_connected/orbweb/crypto.py:33-44 | for every modulus, generator and exponents, both sides reach the same modular power |
| Crypto.ReduceBase | custom_components/hubble_connected/orbweb/crypto.py:44 | reducing the base first does not change a modular power |
| Crypto.DeriveIv | custom_components/hubble_connected/orbweb/crypto.py:65-76 | a 16-byte key gives the five wrapped sums and zeros elsewhere; any other length is refused |
| Layout.MaterialIsDerived | custom_components/hubble_connected/orbweb/crypto.py:56-76 | the key is the digest of the decimal text of the secret, without leading zeros; the IV bytes 2, 5, 8, 12 and 14 are sums of key bytes modulo 256 and the others zero |
| Layout.ExchangeIsPower | custom_components/hubble_connected/orbweb/crypto.py:27-53 | an exchange exists exactly for a modulus above two, a generator between one and it, and a positive private value, and its public value is the power |
| Layout.ExchangeBytes | custom_components/hubble_connected/orbweb/crypto.py:20-25 | P, G and A as little-endian 64-bit integers, in this order |
| Handshake.KeysAgree | custom_components/hubble_connected/orbweb/handshake.py:33-112 | over the real framing, both ends finish exactly when the private values are positive and neither public value is zero, and then hold the same secret, key and IV |
| Handshake.Transport.ReadKeyBody | custom_components/hubble_connected/orbweb/handshake.py:78-86 | one packet is consumed; a wrong command or size is refused |
| Handshake.SendExchange | custom_components/hubble_connected/orbweb/handshake.py:47-50 | the framed exchange is appended to the output, unless a value exceeds int64 |
| Handshake.ReceiveReply | custom_components/hubble_connected/orbweb/handshake.py:51-68 | the client's conclusion from the 16-byte reply, with every refusal |
| Handshake.AcceptTunnelKey | custom_components/hubble_connected/orbweb/handshake.py:71-112 | the server writes its reply exactly when it accepts the request |
| Layout.ConcludeExactly | custom_components/hubble_connected/orbweb/handshake.py:60-68 | the client finishes exactly on a reserved field of zero and a peer value inside its modulus, with the material of that power |
| Layout.AnswerExactly | custom_components/hubble_connected/orbweb/handshake.py:87-112 | the server answers exactly on values in the domain, with its public value and eight zeros, and the material of the peer's power |
| Layout.ReadBodyExactly | custom_components/hubble_connected/orbweb/handshake.py:78-86 | a body is read exactly from a frame with command 3 and the right length |
| Layout.WrittenBytes | custom_components/hubble_connected/orbweb/handshake.py:47-50 | a key-exchange packet on the wire |
| Tunnel.HeaderRoundTrip | custom_components/hubble_connected/orbweb/tunnel.py:43-81 | headers within the wire ranges encode to 16 bytes that decode to them; all others are refused |
| Tunnel.HeaderOfRaw | custom_components/hubble_connected/orbweb/tunnel.py:58-81 | 16 bytes that decode are the encoding of the decoded header |
| Layout.HeaderBytes | custom_components/hubble_connected/orbweb/tunnel.py:43-54 | the sixteen bytes of a header: id, operation, role 1 or 2, local port, remote port, zero, all little-endian |
| Layout.HeaderIsValid | custom_components/hubble_connected/orbweb/tunnel.py:224-246 | which headers encode, by value |
| Layout.AnnouncementBytes | custom_components/hubble_connected/orbweb/tunnel.py:92-104 | command 7 and the eight bytes of an announcement; which ones encode |
| Tunnel.AnnouncementRoundTrip | custom_components/hubble_connected/orbweb/tunnel.py:92-124 | announcements and their packets are in bijection |
| Tunnel.DecryptOfEncrypt | custom_components/hubble_connected/orbweb/tunnel.py:156-173 | padded CBC encryption decrypts to the plaintext, for any pair of inverse block functions |
| Tunnel.EncryptOfDecrypt | custom_components/hubble_connected/orbweb/tunnel.py:162-173 | a ciphertext that decrypts is the encryption of its plaintext |
| Tunnel.CbcDecryptOfEncrypt | custom_components/hubble_connected/orbweb/tunnel.py:175-189 | CBC chaining is undone from any chaining value |
| Layout.CbcBlock | custom_components/hubble_connected/orbweb/tunnel.py:175-189 | each ciphertext block encrypts its plaintext block combined with the ciphertext block before it, the first with the chaining value |
| Layout.DataPacketBytes | custom_components/hubble_connected/orbweb/tunnel.py:156-201 | a data packet: command 0, the header, and the CBC blocks of the padded payload under the IV |
| Tunnel.TunnelPacketRoundTrip | custom_components/hubble_connected/orbweb/tunnel.py:192-221 | frames and data packets are in bijection, and encoding fails exactly outside the wire range |
| FullStack.StackRoundTrip | custom_components/hubble_connected/orbweb/port_mapping.py:197-202 | bytes read in chunks of up to 16 KiB, numbered, headered, padded, encrypted, masked, framed and cut again in any way come back as the same frames in order and the same bytes; no frame exceeds the limit |
| FullStack.AnyCut | custom_components/hubble_connected/orbweb/framing.py:140-154 | a receiver that has seen part of a wire image, in any pieces, holds a prefix of its packets |
| FullStack.OpenOfSeal | custom_components/hubble_connected/orbweb/tunnel.py:192-221 | a sequence of sealed frames opens to the same frames |
| FullStack.SealRefusesLongStreams | custom_components/hubble_connected/orbweb/tunnel.py:43-56 | a frame whose header exceeds the wire range makes the sender fail |
| Channel.EveryRunIsCarried | custom_components/hubble_connected/orbweb/port_mapping.py:320-339 | everything any run of the integration writes (announcements, data, controls, keepalives), encoded, framed and cut in any way, comes back as the same packets, or a first part of them when bytes are missing; encoding fails exactly when a sequence number reaches 2^31 |
| Channel.ChannelRoundTrip | custom_components/hubble_connected/orbweb/tunnel.py:92-221 | the same for any sequence of packets a multiplexer may write |
| Channel.DecodedOfEncoded | custom_components/hubble_connected/orbweb/tunnel.py:92-221 | each kind of packet decodes to itself, and encodes exactly when its sequence number fits |
| Channel.StepEmits | custom_components/hubble_connected/orbweb/port_mapping.py:188-208 | every step writes only packets with valid ids, ports and operations and no more than one read of data |
| Channel.ChannelsCanBeBytes | custom_components/hubble_connected/orbweb/port_mapping.py:320-339 | whatever is in flight in either direction of a two-party run can be carried as bytes |
| PacketDecoder.TcpChunks | tools/orbweb_packet_decoder.py:201-218 | the merge loop yields, in increasing order, exactly the maximal contiguous stretches covered by nonempty segments, each byte from the covering segment of smallest start |
| PacketDecoder.ReassemblyIsUnique | tools/orbweb_packet_decoder.py:201-218 | that promise determines the chunks |
| PacketDecoder.SlicesGiveTheStream | tools/orbweb_packet_decoder.py:201-218 | segments that are slices of one stream give back that stream |
| PacketDecoder.CollectKeepsTheFirst | tools/orbweb_packet_decoder.py:238 | the segment table holds, for every sequence number captured, the first payload and nothing else |
| PacketDecoder.SortedIsAscending | tools/orbweb_packet_decoder.py:204 | the loop visits every segment once in strictly increasing order |
| PacketDecoder.ScanBasePackets | tools/orbweb_packet_decoder.py:99-121 | the scan lists the packets the incremental buffer would decode, at prefix-sum offsets, up to the first unknown command, or all of them with unknown ones included |
| PacketDecoder.ReportedIsLongest | tools/orbweb_packet_decoder.py:111-120 | what is listed is the longest first part of the packets in which every command is known, or all of them when unknown ones are included |
| PacketDecoder.HeadersAreLaidOut | tools/orbweb_packet_decoder.py:110-118 | each header has its packet's command and length and starts where the one before it ends |
| Pool.OnlyTheStoredIsOpen | custom_components/hubble_connected/orbweb/pool.py:170-219 | over every interleaving, every mapping ever opened for a host is closed except the one stored for it |
| Pool.ClosedBeforeReplaced | custom_components/hubble_connected/orbweb/pool.py:178-219 | when a replacement is opened, every earlier mapping of the host is closed |
| Pool.HealthyIsShared | custom_components/hubble_connected/orbweb/pool.py:180-189 | while nothing disturbs it, every caller gets the one healthy mapping and none is opened |
| Pool.LockIsGivenBack | custom_components/hubble_connected/orbweb/pool.py:180-219 | a host's lock is held exactly from a call that finds no healthy mapping until the opener returns or raises; then the next caller may go on as long as the pool is open |
| Pool.ClosedExactly | custom_components/hubble_connected/orbweb/pool.py:190-280 | a mapping is closed exactly when somebody has closed it; one that fails stays open until then |
| Pool.CloseIsFinalIffIdle | custom_components/hubble_connected/orbweb/pool.py:267-280 | closing closes all that is held; nothing is ever open again exactly when no caller was between lock and store |
| Pool.StepKeeps | custom_components/hubble_connected/orbweb/pool.py:170-280 | every step keeps the pool's invariant |
| Pool.LanMappingPool.GetMapping | custom_components/hubble_connected/orbweb/pool.py:170-191 | a closed pool and an unknown host are refused; a healthy mapping is returned; otherwise a replacement starts, closing the old mapping first |
| Pool.LanMappingPool.FinishClosing | custom_components/hubble_connected/orbweb/pool.py:190-191 | the unhealthy mapping is closed before the opener runs |
| Pool.LanMappingPool.StoreMapping | custom_components/hubble_connected/orbweb/pool.py:214-219 | the opener's mapping is stored, in a closed pool as well |
| Pool.LanMappingPool.ClosePool | custom_components/hubble_connected/orbweb/pool.py:267-280 | every stored mapping is closed and the table emptied, once |
| Pool.LanMappingPool.CloseOne | custom_components/hubble_connected/orbweb/pool.py:262 | the one mapping is closed and nothing else changes |
| Upstream.AtMostTwoTries | custom_components/hubble_connected/orbweb/pool.py:248-265 | from any reachable pool and whatever other callers do at every await: at most two connections are tried; each refused mapping is closed for good; the second try goes to a mapping opened later than the first; the call fails for a refusal exactly when both were refused; of all mappings only stored ones are open |
| Upstream.EventsDecide | custom_components/hubble_connected/orbweb/pool.py:254-264 | in every run: refusals are the mappings closed for refusing and one more while that close is pending; the call fails unexpectedly exactly on another error of a connection, succeeds with a mapping exactly when a connection to it is established, and fails without a mapping exactly when the pool turns it down, for that reason |
| Upstream.RefusalIsCleanedUp | custom_components/hubble_connected/orbweb/pool.py:261-264 | after a refused connection, whatever others do meanwhile, the call's next own step leaves the mapping closed; the first time it asks again, the second time it fails |
| Upstream.ConnectsToTheStored | custom_components/hubble_connected/orbweb/pool.py:255-260 | what the call connects to is at that moment the host's stored and healthy mapping |
| Upstream.StepKeeps | custom_components/hubble_connected/orbweb/pool.py:254-264 | every step of the caller and of anybody else keeps the caller's invariant |
| Upstream.HandedIsNewer | custom_components/hubble_connected/orbweb/pool.py:183-189 | the mapping handed out is none that refused, and was opened later than all of them |
| Upstream.UpstreamCall.AskForMapping | custom_components/hubble_connected/orbweb/pool.py:255 | the pool refuses, hands out its healthy mapping, or the caller holds the lock and replaces it |
| Upstream.UpstreamCall.MappingOpened | custom_components/hubble_connected/orbweb/pool.py:214-219 | a newly opened mapping is stored and is the one connected to |
| Upstream.UpstreamCall.ConnectionDone | custom_components/hubble_connected/orbweb/pool.py:256-261 | success, a refusal or any other error of the connection |
| Upstream.UpstreamCall.MappingDropped | custom_components/hubble_connected/orbweb/pool.py:262-264 | the refused mapping is closed; the call asks again the first time and raises the second time |
| DirectRace.RaceDirectCandidates | custom_components/hubble_connected/orbweb/direct_race.py:46-90 | for every completion schedule, on success, timeout or unexpected error, a connection is open exactly when it is the one returned, and the winner is the first task that did not simply fail |
| DirectRace.DecisiveInGroups | custom_components/hubble_connected/orbweb/direct_race.py:65-76 | the deciding task is the first, group by group and in each group in turn, that did not simply fail to connect; none decides exactly when all failed |
| DirectRace.DecisiveIsFirst | custom_components/hubble_connected/orbweb/direct_race.py:65-76 | the deciding task is one before which every finished task had failed to connect |
| DirectRace.CloseLosers | custom_components/hubble_connected/orbweb/direct_race.py:82-87 | every obtained connection but the winner is closed |
| DirectListeners.OpenListenerPool | custom_components/hubble_connected/orbweb/direct_listeners.py:112-150 | on return every address has exactly one open server, all on one port in 8192..65535; on any failure no server of any attempt is open; which of the two, and the error, follow from the drawn ports and bind results |
| DirectListeners.BindMeans | custom_components/hubble_connected/orbweb/direct_listeners.py:126-150 | in terms of the drawn ports and the bind results alone: the first attempt not turned away by a port in use decides; the pool opens on its port exactly when that port is in 8192..65535 and every address binds, and each error has its exact condition |
| DirectListeners.AttemptMeans | custom_components/hubble_connected/orbweb/direct_listeners.py:133-145 | an attempt binds exactly when every address does, and otherwise ends as its first refusal |
| DirectListeners.AdvertisableRanges | custom_components/hubble_connected/orbweb/direct_listeners.py:162-163 | the addresses refused, as ranges of 32-bit numbers |
| DirectListeners.ValidateAddresses | custom_components/hubble_connected/orbweb/direct_listeners.py:153-168 | accepted exactly when nonempty, IPv4, advertisable and without repetition |
| DirectListeners.BindAddresses | custom_components/hubble_connected/orbweb/direct_listeners.py:132-135 | servers are bound in order up to the first refusal |
| DirectListeners.DirectListenerPool.OnClient | custom_components/hubble_connected/orbweb/direct_listeners.py:58-67 | an accepted socket is queued, or closed on the spot by a closing pool |
| DirectListeners.DirectListenerPool.CompleteAccept | custom_components/hubble_connected/orbweb/direct_listeners.py:77-83 | the oldest queued socket is handed to one caller only |
| DirectListeners.DirectListenerPool.FinishClose | custom_components/hubble_connected/orbweb/direct_listeners.py:92-103 | every socket not handed out is closed, those handed out are left alone |
| Direct.ForwardOfRequest | custom_components/hubble_connected/orbweb/direct.py:58-159 | a request can be sent exactly when its identities are usable, it has a candidate and its printed form is at most 4096 bytes; ended by one NUL or two and relabelled as a forward it parses to the same identities and candidates, and is refused exactly when another client is expected |
| Direct.ForwardIsNormal | custom_components/hubble_connected/orbweb/direct.py:79-107 | whatever parses is valid, and its printed form, of any length, parses to the same |
| Rendezvous.ParsesExactly | custom_components/hubble_connected/orbweb/direct.py:79-159 | a packet parses as a forward exactly when it has command 0xcc, one NUL or two after ASCII text of two usable identities and one or more candidates separated by semicolons, and the expected client; and then to what it says |
| Rendezvous.CandidateIsSpelled | custom_components/hubble_connected/orbweb/direct.py:141-145 | a candidate parses exactly when it is an address, a colon and a decimal port in range |
| Rendezvous.Ipv4IsDottedQuad | custom_components/hubble_connected/orbweb/direct.py:20-24 | the addresses accepted are the dotted quads of numbers up to 255 |
| Rendezvous.BodyIsCarried | custom_components/hubble_connected/orbweb/direct.py:148-159 | which payloads carry which text |
| Rendezvous.PrintedText | custom_components/hubble_connected/orbweb/direct.py:110-121 | the text a request prints, ended by one NUL, with command 0xcb |
| Direct.CandidateRoundTrip | custom_components/hubble_connected/orbweb/direct.py:141-145 | the printed form of a candidate parses to it |
| Direct.AddressIsNormal | custom_components/hubble_connected/orbweb/direct.py:20-27 | an accepted dotted quad is already in normal form |
| Text.SplitOfJoin | custom_components/hubble_connected/orbweb/direct.py:92 | splitting undoes joining when no field holds the separator |
| Text.ParseOfDecimal | custom_components/hubble_connected/orbweb/direct.py:145 | a printed number reads back |
| StreamBindings.Partition | custom_components/hubble_connected/stream_bindings.py:69-127 | every credentialed camera that should have a binding has it, every binding is the one its camera should have, and no key is used twice |
| Routes.ExactlyTheRoutes | custom_components/hubble_connected/stream_bindings.py:69-127 | field by field and in terms of the inventory alone: exactly one binding for every credentialed camera by the first specification that stands for it, unless that host is served directly, or by its cloud key when none does; nothing else |
| Routes.ByMacIsLast | custom_components/hubble_connected/stream_bindings.py:76-80 | the camera found for an address is the last one listed under it |
| Routes.StandsIsClaim | custom_components/hubble_connected/stream_bindings.py:85-86 | the address of a specification is its own if given, else the one seen for its host |
| Routes.HexOnlyOfOne | custom_components/hubble_connected/discovery.py:25-31 | each character of an address is a lowercase hexadecimal digit, made one, or dropped |
| Routes.HexOnlyConcat | custom_components/hubble_connected/discovery.py:28-30 | characters are looked at one by one |
| StreamBindings.BuildBindings | custom_components/hubble_connected/stream_bindings.py:76-127 | the two loops compute the host part followed by the cloud part |
| StreamBindings.ExpectedIsInjective | custom_components/hubble_connected/stream_bindings.py:84-127 | different cameras never share a binding |
| StreamBindings.FirstClaimIsFirst | custom_components/hubble_connected/stream_bindings.py:84-89 | a camera is represented by the first local specification with its address |
| StreamBindings.IndexByMac | custom_components/hubble_connected/stream_bindings.py:76-80 | of credentialed cameras with one address the last is kept |

## Left out

- The camera firmware: its side of `TwoParty` is the mirrored machine, an assumption.
- Asyncio scheduling, timeouts and clocks: replaced by arbitrary interleaving of atomic steps. Errors of local readers and of `drain`, and closing the tunnel inside a two-party run, are not modelled.
- Aliasing of `_MappedStream`: a stream is a value in the table, updated in place there. The bytes its socket has received are part of that value, and writes after close are accepted, as the code makes them; whether the socket is open is kept in an object of its own.
- PortMapping.OrbwebPortMapping.StopLocalStream: does not close the socket when a cancelled task ends at once; `FinishStopping` closes it in every case, before the receive loop goes on.
- Sequence numbers are unbounded in the machine; `Channel.EveryRunIsCarried` says when encoding them fails.
- The delays and the counters for diagnostics of the keepalive loop.
- AES and MD5: parameters.
- `unmask_body` of the decoder tool: the same loop as `apply_body_mask`.
- PacketDecoder.TcpChunks: sequence numbers are plain integers, as in the code, without the wrap-around of section 3.4 of RFC 9293; the dictionary is its insertion-ordered list of items.
- PCAP, Ethernet and IP header parsing and label printing of the decoder tool: straight-line field reads.
- Text.ParseOfDecimal: does not model the 4300-digit limit of Python's `int`.
- The argument checks of the candidate race (`direct_race.py:34-44`) and clients that arrive while listeners are still being bound.
- Stable ports and their relaying, source addresses and rendezvous lookups of the pool.
- `build_orbweb_command_bindings`, and lowercasing beyond ASCII in `normalize_mac`. The `None` checks after `has_orbweb_credentials` cannot fail and are not repeated.
- `lan_client.py`, `direct_tunnel.py`, NAT, shunt, authentication, rendezvous, cloud and local clients, and everything of Home Assistant itself: glue or fixed layouts with easy members.
