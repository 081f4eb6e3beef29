# asyncmsg, modelled and proved in Dafny

asyncmsg carries packets between a server and its devices over TCP. This project models what happens to
packets between the two programs and proves what the library is for: that packets arrive as they were sent,
that a response reaches the call it answers, and that a request is handed to a device's application at most
once although the server sends it again and again.

Contents, from the wire up:

- `Counting`: how often a value occurs in a sequence.
- `Bytes`, `LinearRegister`, `Crc`: words in network byte order (Appendix B of RFC 791) and the header check
  byte. The table loop is shown to be a bit-by-bit shift register, and the errors it catches are
  characterised exactly: an error is missed if and only if its pattern leaves a zero-started register at zero.
- `Packets`: sequence numbers, packet identities, the packet constructor, the encoder into a byte array.
- `Parsing`, `Framing`: the decoder. `Parsing` gives a stream its meaning twice, as a greedy parse and as a
  declarative cover of the stream by justified pieces, and proves them equal; `Framing` holds the decoder as it
  runs over an array, proved against the parse, and what becomes of encodings.
- `IoBuffers`, `Connections`, `Identity`: the compacting receive buffer, the receive loop over it, and what one
  connection tells its owner. The main result is that the log of the loop depends only on the bytes read,
  not on how they were cut into reads.
- `Requests`: calls that wait on a connection for the response to their request.
- `Exchanges`: the parts put together, from the packets sent to the log of the receiver.
- `Lru`, `Dedup`, `Clients`: the client's memory of recent requests, over a list and a map of places in it,
  what gets through it after any history, and the client that acknowledges, suppresses repeats and queues.
- `Links`: one direction of a connection, from the packets written to it to what the connection at the other end
  hands up.
- `Calls`, `Delivery`, `Origins`, `Guarantees`, `Histories`: the retry loop; whole runs of server, network and client as a
  state machine for one device, in which what arrives is what the connection at the other end hands up of the bytes
  written, in order, and may be lost or late while connections come, go and overlap; what holds in every run; and
  runs that do happen.
- `Registries`, `Servers`: the server's list of new connections and its map from device id to connection.

State that the library updates in place is kept in classes (`SeqGenerator`, `IoBuffer`, `Connection`,
`RequestTable`, `Cache`, `TcpClient`, `TcpServer`); each method says the whole new state in terms of a function
of the old one, and the lemmas are about those functions.

Where the code does less than one could expect of it, the lemma says exactly when it does what is expected:

- The body limit is enforced by the decoder only. `ParseOversized` says what a longer body turns into, and
  `FramesAreImagesIff` that a stream delivers what was written exactly when no body is longer. The guarantees that
  need it say so: no request, or no response, over the limit. Without that, `OversizedCallDelivers` and
  `OneCallHandedTwice` are runs in which one call delivers requests nobody made, and hands one on twice, and
  `OversizedReplyReturns` is one in which a call returns whose request was never received.
- The id is copied up to its first NUL and its declared length is not checked when it is read back. `CarriedIff`
  and `IdWithinFrameIff` give the exact conditions; a frame whose id is not determined by the frame
  ends the modelled connection with status `Undetermined`.
- The identity shifts the command by 31 bits, not 32, so identities can collide; `IdCollisionIff` says when.
- The memory of recent requests is bounded: `HandedOnceIff` says when a request is handed on twice, and
  `SomeHandedTwice` is a run in which one is.
- The acknowledgement is sent before the channel of the command is looked for. `ReturnedIsKeptIff` says that the
  request of a call that returned is in its channel, or was taken from it, exactly when the application had asked
  for the command and fewer than 64 requests were waiting at its first receipt. `ReturnWithoutTaking` and
  `ReturnOfDropped` are runs in which a call returns and the application never gets the request.
- A waiting call can be answered exactly as long as no other call of its identity starts or ends (`ReachableIff`,
  `AnsweredIff`); `FirstOfTwoIsStranded` is a run in which the first of two has lost its channel to the second.
- `remove_if` without `erase` keeps a place for every connection that never told its id (`ListNeverShrinks`) and
  keeps a closed connection if it was the last in the list (`StaysIffLast`). A connection that told its id is
  taken out of the map whenever the end of any connection that ever told the same id is reported (`MappedIff`,
  `CutOffIff`). `ReconnectThenClose` is such a run; an old connection that was replaced in the map lives to report
  its end only while something else holds it, such as a call that waits on it.

`dafny verify dfyconfig.toml` checks the whole project.

## Model

| member | source | states |
|---|---|---|
| Bytes.NetworkRoundTrip | asyncmsg/asyncmsg/detail/byte_order.hpp:192-198 | a 32-bit word is read back from its four octets, most significant first |
| Bytes.OctetsWeigh | asyncmsg/asyncmsg/detail/byte_order.hpp:192-198 | the first octet of a word weighs most |
| Crc.TableIsEightClocks | asyncmsg/asyncmsg/detail/crc.hpp:7-24 | each of the 256 table entries is eight clocks of the reflected 0x8C shift register |
| Crc.CalcCrc8 | asyncmsg/asyncmsg/detail/crc.hpp:26-34 | the table loop over any stretch of an array computes the shift register started at 0x77 |
| Crc.CrcStarts | asyncmsg/asyncmsg/detail/crc.hpp:26-34 | the check byte of nothing is 0x77, that of a flag 0x9f |
| Crc.CrcDifference | asyncmsg/asyncmsg/detail/crc.hpp:26-34 | the XOR of the check bytes of equally long data is the zero-started register of the XOR of the data |
| Crc.ChecksIffResidueZero | asyncmsg/asyncmsg/tcp/packet.hpp:148-149 | data ends in its own check byte exactly when the register over all of it ends at zero |
| Crc.ErrorAcceptedIff | asyncmsg/asyncmsg/tcp/packet.hpp:148-152 | a damaged header passes exactly when the error pattern leaves the zero-started register at zero |
| Crc.BurstDetected | asyncmsg/asyncmsg/detail/crc.hpp:26-34 | an error within any 8 consecutive bits of data of any length is caught |
| Crc.OddErrorDetected | asyncmsg/asyncmsg/detail/crc.hpp:26-34 | an error in an odd number of bits of data of any length is caught |
| Crc.ReturnsIff | asyncmsg/asyncmsg/detail/crc.hpp:7-24 | the register's period is 127 clocks: it comes back to 1 exactly after multiples of 127 |
| Crc.TwoBitErrorMissedIff | asyncmsg/asyncmsg/detail/crc.hpp:26-34 | an error in any two bits is missed exactly when they are a multiple of 127 bits apart |
| Packets.SeqGenerator.Next | asyncmsg/asyncmsg/tcp/packet.hpp:72-78 | draws the next number, which skips 0 after 2^32 - 1 |
| Packets.NthSeqClosedForm | asyncmsg/asyncmsg/tcp/packet.hpp:72-78 | the n-th draw in closed form, so never 0 |
| Packets.SeqRepeatsIff | asyncmsg/asyncmsg/tcp/packet.hpp:72-78 | two draws are equal exactly when a multiple of 2^32 - 1 draws separates them |
| Packets.IdParts | asyncmsg/asyncmsg/tcp/packet.hpp:88-92 | the identity in closed form: the low 31 bits of the number under the command, whose bit 0 is shared with bit 31 of the number |
| Packets.IdCollisionIff | asyncmsg/asyncmsg/tcp/packet.hpp:88-92 | two identities are equal exactly when the low 31 bits of the numbers agree, the commands agree but for bit 0, and bit 0 of the command or bit 31 of the number is set on both sides or on neither |
| Packets.IdInjectiveBelow | asyncmsg/asyncmsg/tcp/packet.hpp:88-92 | with numbers below 2^31 equal identities mean equal command and number |
| Packets.MakePacket | asyncmsg/asyncmsg/tcp/packet.hpp:40-42 | the constructor keeps every field but a number 0, which it replaces by the next number |
| Packets.BuildReqPacket | asyncmsg/asyncmsg/tcp/packet.hpp:94-96 | a request gets a fresh number and no error code |
| Packets.BuildRspPacket | asyncmsg/asyncmsg/tcp/packet.hpp:98-100 | a response keeps the number it is given unless that is 0 |
| Packets.ResponseAnswersIff | asyncmsg/asyncmsg/tcp/packet.hpp:88-100 | a response built from a request's command and number has its identity exactly when the number is not 0, but for one chance number |
| Packets.WireLayout | asyncmsg/asyncmsg/tcp/packet.hpp:17-27 | at which offset each field lies, and that the check byte covers the 86 bytes before it |
| Packets.DeviceIdFieldOctet | asyncmsg/asyncmsg/tcp/packet.hpp:115-117 | the id field octet by octet: the id as far as its first NUL, then zeros |
| Packets.EncodePacket | asyncmsg/asyncmsg/tcp/packet.hpp:102-128 | the array the encoder fills step by step is the wire image of the packet |
| Packets.PutDeviceId | asyncmsg/asyncmsg/tcp/packet.hpp:115-117 | the cleared field receives the id up to its first NUL |
| Packets.CarriedIff | asyncmsg/asyncmsg/tcp/packet.hpp:113-117 | an id arrives as it was exactly when no byte but NUL follows a NUL in it |
| Packets.EncodedIsFrame | asyncmsg/asyncmsg/tcp/packet.hpp:102-128 | an encoding is as long as its header says and its header passes the check, whatever follows |
| Packets.UnpackEncoded | asyncmsg/asyncmsg/tcp/packet.hpp:166-173 | reading an encoding gives back every field, the id as carried |
| Packets.RoundTripIff | asyncmsg/asyncmsg/tcp/packet.hpp:102-177 | decoding an encoding restores the packet exactly when its id survives and its number is not 0 |
| Packets.FieldsRead | asyncmsg/asyncmsg/tcp/packet.hpp:166-173 | (a step) what is read out of any frame: every response octet but zero marks a response, and the id may run into the body |
| Packets.EncodeUnpackedIff | asyncmsg/asyncmsg/tcp/packet.hpp:102-177 | the other way round: a good frame is the encoding of the packet it holds exactly when its response octet is 0 or 1 and its id field holds that id and zeros |
| Packets.IdWithinFrameIff | asyncmsg/asyncmsg/tcp/packet.hpp:170-172 | the id read depends on the frame alone exactly when its unchecked declared length stays within the frame |
| Parsing.LookStable | asyncmsg/asyncmsg/tcp/packet.hpp:130-177 | a decision of the decoder other than to wait is not changed by later bytes |
| Parsing.ParseExtends | asyncmsg/asyncmsg/tcp/packet.hpp:130-177 | parsing may stop at any byte and resume from the residue: the frames are those of the whole stream |
| Parsing.ResidueWaits | asyncmsg/asyncmsg/tcp/packet.hpp:142-163 | what is left has to wait, and is shorter than the longest frame (16471 bytes) |
| Parsing.FramesAreWhole | asyncmsg/asyncmsg/tcp/packet.hpp:154-164 | every frame is as long as its header says, with a body of at most 16384 bytes |
| Parsing.FramesFit | asyncmsg/asyncmsg/detail/connection.hpp:185-193 | a stream holds at most size / 87 frames, and frames and residue together are no longer than it |
| Parsing.CoverExists | asyncmsg/asyncmsg/tcp/packet.hpp:131-174 | every stream can be cut into non-flags, failing headers, oversized headers and whole frames up to a point where nothing can start |
| Parsing.CoverDetermines | asyncmsg/asyncmsg/tcp/packet.hpp:131-174 | any such cut has exactly the decoder's frames, in order, and stops at its residue |
| Framing.FindFlag | asyncmsg/asyncmsg/tcp/packet.hpp:133-137 | the inner scan stops at a flag or at the end and passes nothing the decoder would keep |
| Framing.JudgeHeader | asyncmsg/asyncmsg/tcp/packet.hpp:139-164 | the tests at a flag, in order, come to the decision the parse is made of |
| Framing.ReadFrame | asyncmsg/asyncmsg/tcp/packet.hpp:166-173 | the fields read out of the buffer are those of the frame |
| Framing.DecodePacket | asyncmsg/asyncmsg/tcp/packet.hpp:130-177 | one call finds the first frame of the pure parse, consumes up to its end (or up to the residue), and constructs its packet; the scan terminates and never leaves the buffer |
| Framing.ParseEncoded | asyncmsg/asyncmsg/tcp/packet.hpp:102-177 | an encoded packet with a body within the limit is the first frame of any stream it starts |
| Framing.ParseOversized | asyncmsg/asyncmsg/tcp/packet.hpp:156-159 | a packet with a longer body, which the encoder accepts, is read as if its body were a stream itself |
| Framing.DamagedHeaderSkippedIff | asyncmsg/asyncmsg/tcp/packet.hpp:148-152 | a header damaged behind its flag is passed over exactly when its error leaves a residue |
| Framing.Resynchronises | asyncmsg/asyncmsg/tcp/packet.hpp:102-177 | packets sent with flag-free garbage between them are received, exactly they, in order, whatever their bodies contain |
| Framing.EncodingPrefixFree | asyncmsg/asyncmsg/tcp/packet.hpp:102-128 | no encoding is a proper prefix of another, and equal encodings carry equal packets |
| IoBuffers.IoBuffer.Prepare | asyncmsg/asyncmsg/detail/io_buffer.hpp:129-145 | the readable bytes survive the overlapping move, which happens exactly when the request does not fit behind them, and the slab lies inside the array |
| IoBuffers.IoBuffer.Commit | asyncmsg/asyncmsg/detail/io_buffer.hpp:148-152 | exactly the bytes written behind the tail are appended |
| IoBuffers.IoBuffer.Consume | asyncmsg/asyncmsg/detail/io_buffer.hpp:155-162 | a prefix is dropped; dropping all restarts at the front |
| IoBuffers.IoBuffer.Clear | asyncmsg/asyncmsg/detail/io_buffer.hpp:165-168 | nothing is left to read |
| Connections.RunExtends | asyncmsg/asyncmsg/detail/connection.hpp:185-225 | what more bytes add depends only on the peer and the residue so far |
| Connections.StoppedRunIsFinal | asyncmsg/asyncmsg/detail/connection.hpp:202-204 | after the first mismatch nothing that would follow has any effect |
| Connections.Connection.Accept | asyncmsg/asyncmsg/detail/connection.hpp:195-221 | one packet is ignored, teaches the id, is handed up, or ends the connection |
| Connections.Connection.ProcessPacket | asyncmsg/asyncmsg/detail/connection.hpp:185-225 | draining the buffer does what handling the frames of one parse of it does, and leaves its residue |
| Connections.Connection.MakeRoom | asyncmsg/asyncmsg/detail/connection.hpp:148-162 | there is always room for at least one byte, so the two ways out for a full buffer are never taken; bytes move only when the buffer is filled to its end, at most 16470 of them, and at least 114602 have come in since the last move |
| Connections.Connection.TakeIn | asyncmsg/asyncmsg/detail/connection.hpp:175-181 | after any read the connection is where one parse of everything received leads |
| Connections.Connection.ReceivePacket | asyncmsg/asyncmsg/detail/connection.hpp:145-183 | however the stream is cut into reads, the log is that of one parse of what was read; its last entry, and no other, tells that the connection is over, with the id it learned; six times the bytes moved never exceed the bytes read |
| Identity.PlayFresh | asyncmsg/asyncmsg/detail/connection.hpp:185-225 | the whole life of a connection in one formula: bound to the first non-empty id, it hands up the packets of that id until another one comes |
| Identity.BoundToOneDevice | asyncmsg/asyncmsg/detail/connection.hpp:195-221 | the id is told once, before anything is handed up, and all that is handed up carries it |
| Identity.NumberedAgreeExactly | asyncmsg/asyncmsg/tcp/packet.hpp:40-42 | (a step, for `LogOfAll`) when all packets are numbered on the wire the log is the parse exactly, not up to fresh numbers |
| Requests.RequestTable.StartWaiting | asyncmsg/asyncmsg/detail/connection.hpp:96-102 | a call registers its channel, in place of any other of its identity |
| Requests.RequestTable.Dispatch | asyncmsg/asyncmsg/detail/connection.hpp:212-218 | a response goes to the channel registered for its identity if that takes it, else it is dropped |
| Requests.RequestTable.GiveUp | asyncmsg/asyncmsg/detail/connection.hpp:102-106 | a call that times out leaves its entry behind |
| Requests.RequestTable.Finish | asyncmsg/asyncmsg/detail/connection.hpp:108-113 | a call returns the first response of its identity that arrived since it started, and erases the entry |
| Requests.MatchedAlways | asyncmsg/asyncmsg/detail/connection.hpp:83-114 | in every run channels hold only answers to their request, and every response that arrived is in exactly one channel or was dropped |
| Requests.GetsAnAnswer | asyncmsg/asyncmsg/detail/connection.hpp:98-113 | in every run what a call gets is a response that arrived with the identity of its request |
| Requests.StatesMove | asyncmsg/asyncmsg/detail/connection.hpp:98-113 | (a step, for `HasTheFirst`) only an arriving response makes a waiting call ready; a ready call keeps that response until it returns it; a call that is over stays so |
| Requests.HasTheFirst | asyncmsg/asyncmsg/detail/connection.hpp:98-113 | in every run a call that has a response has the first one of its identity that arrived since it started |
| Requests.StrandsIff | asyncmsg/asyncmsg/detail/connection.hpp:96-111 | (a step, for `ReachableIff`) in any state a call that goes on waiting is stranded by a step exactly when that starts or ends a call of its identity |
| Requests.ReachableIff | asyncmsg/asyncmsg/detail/connection.hpp:96-111 | in every run a waiting call can be reached exactly when, since it started, no call of its identity has started or ended |
| Requests.AnsweredIff | asyncmsg/asyncmsg/detail/connection.hpp:96-113 | in every run a response of its identity answers a waiting call exactly then |
| Requests.NoneStrandedIff | asyncmsg/asyncmsg/detail/connection.hpp:96-111 | while no call is stranded, a step strands one exactly when it starts or ends a call with the identity of another that waits |
| Requests.FirstOfTwoIsStranded | asyncmsg/asyncmsg/detail/connection.hpp:96-102 | a run in which two calls make the same request, only the second is answered, and the first has lost its channel |
| Requests.AnswerReachesIff | asyncmsg/asyncmsg/detail/connection.hpp:212-218 | (a step, for `AnsweredIff`) in any state a response reaches the call that waits for it exactly when the entry of its identity leads there, and then changes nothing else |
| Requests.DroppedIff | asyncmsg/asyncmsg/detail/connection.hpp:212-218 | (a step, for `MatchedAlways`) a response is dropped exactly when no channel is registered for its identity, or that one is over and its one place is taken |
| Requests.OnlyOneWaits | asyncmsg/asyncmsg/detail/connection.hpp:212-218 | (a step) while no call is stranded, a response reaches the call that waits for it, and there is no other |
| Exchanges.DeliversAll | asyncmsg/asyncmsg/detail/connection.hpp:185-225 | every packet one device sends is handed up as it was, once and in order, and nothing else is |
| Exchanges.LogOfAll | asyncmsg/asyncmsg/detail/connection.hpp:145-225 | so the log of a receive loop that read all of it is known exactly |
| Exchanges.StrangerEnds | asyncmsg/asyncmsg/detail/connection.hpp:177-204 | the log of packets of one device followed by one of another: the former are handed up, the owner is told that the connection is over, and what follows has no effect |
| Exchanges.DamagedHeaderSkipped | asyncmsg/asyncmsg/tcp/packet.hpp:133-152 | a header with a burst of errors or an odd number of them is never accepted |
| Identity.HandedUpWasFramed | asyncmsg/asyncmsg/detail/connection.hpp:186-221 | all that is handed up was in a frame of the stream |
| Exchanges.AnswerWasFramed | asyncmsg/asyncmsg/detail/connection.hpp:83-225 | what a call gets was in a frame the peer sent, carries the connection's device id, is a response and has the identity of the request |
| Lru.RecencyOrdered | asyncmsg/asyncmsg/detail/lru.hpp:17-40 | the list is in the order of last touches |
| Lru.PlaceIsOthersSince | asyncmsg/asyncmsg/detail/lru.hpp:17-40 | the place of a value is the number of distinct others touched since its last touch |
| Lru.KeptIff | asyncmsg/asyncmsg/detail/lru.hpp:36-39 | a value is among the n kept exactly when it was touched and fewer than n distinct others were since |
| Lru.TakeToFront | asyncmsg/asyncmsg/detail/lru.hpp:27-40 | what has been evicted never decides what is kept next |
| Lru.Cache.Exist | asyncmsg/asyncmsg/detail/lru.hpp:17-25 | tells whether the value is there and, if so, moves it to the front; every map entry still leads to its value's own place |
| Lru.Cache.Put | asyncmsg/asyncmsg/detail/lru.hpp:27-40 | the value goes to the front once, the last goes out if there is one too many; the bound is the unsigned reading of the signed cap |
| Dedup.PassesIff | asyncmsg/asyncmsg/tcp/tcp_client.hpp:144-149 | a request passes exactly when it is new or at least cap distinct others came since it came last |
| Dedup.PassedAtLeastOnce | asyncmsg/asyncmsg/tcp/tcp_client.hpp:144-150 | exactly the values that came at all get through at least once |
| Dedup.OnceIff | asyncmsg/asyncmsg/tcp/tcp_client.hpp:144-150 | a value gets through at most once exactly when it never comes again after cap or more distinct others |
| Dedup.FewValuesPassOnce | asyncmsg/asyncmsg/tcp/tcp_client.hpp:26-26 | with fewer than cap other values in the history no value gets through twice |
| Dedup.MemoryIsRecency | asyncmsg/asyncmsg/tcp/tcp_client.hpp:145-149 | asking and then putting, over any history, keeps the cap latest distinct values, latest first |
| Dedup.SmallerIsPrefix | asyncmsg/asyncmsg/detail/lru.hpp:14-40 | of two caches that see the same values the smaller holds the front of what the larger holds |
| Clients.ChannelIsFifo | asyncmsg/asyncmsg/detail/connection.hpp:26-36 | a channel gives packets out in the order it accepted them, loses none, refuses only when full, and leaves nobody waiting while it holds one |
| Clients.DroppedIff | asyncmsg/asyncmsg/tcp/tcp_client.hpp:150-150 | a request is dropped exactly when 64 accepted requests of its command have not been taken |
| Clients.NewArePassed | asyncmsg/asyncmsg/tcp/tcp_client.hpp:144-149 | the requests taken for new are, by identity, those the memory lets through |
| Clients.HandKeepsAll | asyncmsg/asyncmsg/tcp/tcp_client.hpp:150-150 | handing a request on keeps every channel's record complete and in order |
| Clients.TcpClient.OnReceiveRequest | asyncmsg/asyncmsg/tcp/tcp_client.hpp:142-151 | every request is answered once, with its command and number, no error, the device id and an empty body; exactly the new ones are handed to the channel of their command; without a channel the client faults |
| Clients.TcpClient.WaitRequest | asyncmsg/asyncmsg/tcp/tcp_client.hpp:116-127 | the channel is made the first time; the oldest request is taken or the caller waits |
| Calls.SendPacketAndWaitRsp | asyncmsg/asyncmsg/tcp/tcp_server.hpp:80-105 | the first turn that meets anything decides: a stopped server gives InvalidState, no connection ConnectionError, an answer is returned; else all max_tries + 1 turns begin to write and the call fails with TimeoutError |
| Calls.StepsAreTheLoop | asyncmsg/asyncmsg/tcp/tcp_server.hpp:82-101 | a call taken turn by turn, as other events come between, ends where the loop ends |
| Links.ArrivalIsDecoded | asyncmsg/asyncmsg/tcp/packet.hpp:102-177 | what the decoder constructs from the encoding of a numbered packet is the packet with its id as carried |
| Links.FramesAreImagesIff | asyncmsg/asyncmsg/tcp/packet.hpp:102-177 | the frames of a stream are the packets written to it, one for one, exactly when no body is over the limit |
| Links.ArrivedWasWritten | asyncmsg/asyncmsg/detail/connection.hpp:185-225 | then all that the connection hands up was written, with its id as carried |
| Links.PlayAll | asyncmsg/asyncmsg/detail/connection.hpp:195-221 | of the packets of one device a connection hands up all, in order, after telling the id |
| Links.ArrivesIff | asyncmsg/asyncmsg/detail/connection.hpp:185-225 | of what is written for one device, bodies within the limit, the n-th packet handed up is the n-th written |
| Links.ArrivesStill | asyncmsg/asyncmsg/detail/connection.hpp:185-225 | what has arrived is not changed by what is written later |
| Links.ReadPartArrives | asyncmsg/asyncmsg/detail/connection.hpp:164-181 | what is handed up of the part read so far comes first in what is handed up of the stream |
| Links.FramesOfOversized | asyncmsg/asyncmsg/tcp/packet.hpp:154-159 | what an oversized packet adds to a stream is what its body is, read as a stream |
| Links.OversizedDelivers | asyncmsg/asyncmsg/tcp/packet.hpp:154-177 | an oversized body that starts with encodings for one device delivers those packets |
| Delivery.TurnsAreTheLoop | asyncmsg/asyncmsg/tcp/tcp_server.hpp:83-98 | (a step, for `StepsAreTheLoop`) the steps Try, Hear and GiveUp of the state machine are turns of the retry loop |
| Delivery.TryTells | asyncmsg/asyncmsg/tcp/tcp_server.hpp:83-94 | (a step, for `FailureTells`) a turn with a stopped server fails with InvalidState, without a connection with ConnectionError, and otherwise writes the packet to the latest connection |
| Delivery.StepKeeps | asyncmsg/asyncmsg/tcp/tcp_server.hpp:80-105 | every step keeps the invariant: tries within bounds, only new packets handed on, only received ones answered; with requests within the body limit only written packets received; with responses within it only received ones returned |
| Delivery.RunsKeep | asyncmsg/asyncmsg/tcp/tcp_client.hpp:142-151 | so every run does |
| Origins.RunsTraced | asyncmsg/asyncmsg/detail/connection.hpp:185-225 | in every run what the client received from a connection is a subsequence of the requests the connection hands up of all that was written to it: each from an event of its own, in order |
| Origins.CallsAreSubmitted | asyncmsg/asyncmsg/tcp/tcp_server.hpp:80-82 | every call in a run was made with its packet and its number of tries |
| Origins.ConnectionsAreNew | asyncmsg/asyncmsg/tcp/tcp_client.hpp:167-171 | a new connection is one of its own: nothing was ever written to it |
| Guarantees.WrittenOncePerTry | asyncmsg/asyncmsg/tcp/tcp_server.hpp:82-98 | a write of a request is begun once for every try of a call that makes it, never otherwise |
| Guarantees.WrittenAtMost | asyncmsg/asyncmsg/tcp/tcp_server.hpp:82-101 | at most max_tries + 1 times, and that often when the call times out |
| Guarantees.NumbersKeepCallsApart | asyncmsg/asyncmsg/tcp/packet.hpp:72-92 | requests numbered by one counter have different identities for its first 2^31 - 1 draws |
| Guarantees.ReturnMeansReceipt | asyncmsg/asyncmsg/tcp/tcp_server.hpp:92-95 | in every run a call that returned got a response of its identity and, if no response is over the body limit, the client received a request of that identity |
| Guarantees.ReturnMeansThisRequest | asyncmsg/asyncmsg/tcp/tcp_server.hpp:92-95 | with calls of different identities, and no body over the limit, it received this very request |
| Guarantees.ReceivedWasWritten | asyncmsg/asyncmsg/tcp/tcp_server.hpp:82-98 | if no request is over the body limit, all that is received was written for a call that made at least one try |
| Guarantees.HandedOnceIff | asyncmsg/asyncmsg/tcp/tcp_client.hpp:142-151 | in every run what is received is handed on, and at most once exactly when it never comes again after 1000 or more distinct others |
| Guarantees.FewCallsHandedOnce | asyncmsg/asyncmsg/tcp/tcp_client.hpp:142-151 | with up to 1000 calls, none with a body over the limit, no request is handed on twice |
| Guarantees.ReturnedIsHandedOnce | asyncmsg/asyncmsg/tcp/tcp_client.hpp:142-151 | and one whose call returned was handed on exactly once, if no response is over it either |
| Guarantees.TakenAtMostHanded | asyncmsg/asyncmsg/tcp/tcp_client.hpp:116-151 | the application gets no request more often than it was handed on |
| Guarantees.StoppedIff | asyncmsg/asyncmsg/tcp/tcp_server.hpp:40-45 | the server is stopped exactly when a step stopped it |
| Guarantees.ConnectedIff | asyncmsg/asyncmsg/tcp/tcp_server.hpp:87-90 | there is a connection exactly when one was made that no step has ended |
| Guarantees.FailureTells | asyncmsg/asyncmsg/tcp/tcp_server.hpp:83-90 | in every run a call that failed other than by running out of tries had a turn that met a stopped server (InvalidState), or no connection (ConnectionError) |
| Guarantees.ReturnsTheAck | asyncmsg/asyncmsg/tcp/tcp_client.hpp:142-143 | in every run, bodies within the limit, a call of its own identity whose request the application never answered returns exactly the acknowledgement: command and number of the request, no error, the device id as carried, an empty body |
| Guarantees.AcceptedIffRoom | asyncmsg/asyncmsg/tcp/tcp_client.hpp:149-150 | a new request is accepted exactly when its command was asked for and fewer than 64 accepted ones are not taken |
| Guarantees.KeptIffRoom | asyncmsg/asyncmsg/tcp/tcp_client.hpp:142-151 | in every run a request handed on once is in its channel, or was taken from it, exactly when there was room at its first receipt |
| Guarantees.ReturnedIsKeptIff | asyncmsg/asyncmsg/tcp/tcp_client.hpp:142-151 | so for the request of any call that returned, up to 1000 calls of different identities |
| Histories.HistoryHappens | asyncmsg/asyncmsg/tcp/tcp_client.hpp:142-151 | for any sequence of requests to one device there is a run in which they are received in this order |
| Histories.HandedTwice | asyncmsg/asyncmsg/tcp/tcp_client.hpp:144-150 | a run for any request that comes before and after 1000 or more distinct others to the same device: it is handed on twice |
| Histories.SomeHandedTwice | asyncmsg/asyncmsg/tcp/tcp_client.hpp:144-150 | such requests exist |
| Histories.ReturnWithoutTaking | asyncmsg/asyncmsg/tcp/tcp_client.hpp:143-150 | a run in which the call returns and there is no channel for its request |
| Histories.ReturnOfDropped | asyncmsg/asyncmsg/tcp/tcp_client.hpp:143-150 | a run in which the call returns and its request, the 66th of its command, is dropped by the full channel |
| Histories.OversizedCallDelivers | asyncmsg/asyncmsg/tcp/packet.hpp:154-159 | a run in which one call with an oversized body delivers any given requests with one device id, which nobody made |
| Histories.OneCallHandedTwice | asyncmsg/asyncmsg/tcp/packet.hpp:154-159 | and hands one of them on twice |
| Histories.OversizedReplyReturns | asyncmsg/asyncmsg/tcp/packet.hpp:154-159 | a run in which an oversized response of a device makes another call to it return whose request was never received |
| Registries.RemoveIf | asyncmsg/asyncmsg/tcp/tcp_server.hpp:146-148 | what remove_if leaves when nothing is erased: the kept pointers in order, then those left behind, null where moved from |
| Registries.RemovedOne | asyncmsg/asyncmsg/tcp/tcp_server.hpp:146-148 | with one match the rest moves up and a null is left at the end, unless the match was the last |
| Registries.StaysIffLast | asyncmsg/asyncmsg/tcp/tcp_server.hpp:144-149 | a closed connection stays in the list exactly when it was the last in it |
| Registries.StepKeeps | asyncmsg/asyncmsg/tcp/tcp_server.hpp:131-159 | accepting, identifying, replacing and closing keep the registry consistent |
| Registries.ConsistentAlways | asyncmsg/asyncmsg/tcp/tcp_server.hpp:131-159 | in every run each map entry is an open connection that told that id, and each open connection that has not told one is in the list |
| Registries.Separated | asyncmsg/asyncmsg/tcp/tcp_server.hpp:182-183 | in every run no connection is under two ids, twice in the list, or both in the map and in the list |
| Registries.ToldIsMapped | asyncmsg/asyncmsg/tcp/tcp_server.hpp:151-159 | a connection that tells its id is always found, leaves the list and goes under that id |
| Registries.ListNeverShrinks | asyncmsg/asyncmsg/tcp/tcp_server.hpp:144-149 | the list has a place for every connection that never told an id, open or closed |
| Registries.InOrderOfAcceptance | asyncmsg/asyncmsg/tcp/tcp_server.hpp:131-149 | in every run the connections in the list stand in the order in which they were accepted |
| Registries.CutOffIff | asyncmsg/asyncmsg/tcp/tcp_server.hpp:144-159 | an open identified connection is cut off exactly when another one tells the id it is under, or the end of an earlier one that told it is reported again |
| Registries.MappedIff | asyncmsg/asyncmsg/tcp/tcp_server.hpp:144-159 | in every run a connection is under an id exactly when it told it and since then no connection told it and the end of none that ever told it was reported |
| Registries.ReconnectThenClose | asyncmsg/asyncmsg/tcp/tcp_server.hpp:145-145 | a run in which a device that connected again is out of reach because the end of its old connection, still held by a call, was reported |
| Servers.TcpServer.Accept | asyncmsg/asyncmsg/tcp/tcp_server.hpp:131-142 | a new connection, in no place of the list before, goes to its end |
| Servers.TcpServer.OnDisconnected | asyncmsg/asyncmsg/tcp/tcp_server.hpp:144-149 | the map loses the id and the list goes through remove_if |
| Servers.TcpServer.OnGotDeviceId | asyncmsg/asyncmsg/tcp/tcp_server.hpp:151-159 | the connection leaves the list and is under its id |
| Servers.TcpServer.Find | asyncmsg/asyncmsg/tcp/tcp_server.hpp:87-90 | which connection, if any, a call to a device goes to, by the history of the connections |
| Servers.TcpServer.OnReceiveRequest | asyncmsg/asyncmsg/tcp/tcp_server.hpp:161-170 | heartbeats and only they are answered, with their command and number, no error, their id and an empty body; any other request is handed on or, without a channel, dropped |
| Servers.TcpServer.WaitRequest | asyncmsg/asyncmsg/tcp/tcp_server.hpp:107-125 | a stopped server refuses; else the channel is made the first time and the oldest request taken |

## Left out

- Sockets, resolvers, timers, executors, coroutines and threads: they appear as the bytes a read delivers and as
  the order of steps. `next_seq` is one atomic step; data races and object lifetimes are not modelled.
- Heartbeat sending and the 60-second liveness check, which depend on clocks; a liveness disconnect is the same
  step as any other disconnect.
- `stop` of client and server beyond the flag calls look at: clearing the containers and cancelling channels.
- Pairing of RPC commands by `std::hash`, protobuf bodies, `ibuffer` storage, logging and the example programs.
- The platform macros of byte_order.hpp: one big-endian pair of functions stands for them.
- The constructor of a connection initialises the device id from itself; a new connection has the empty id.
- Connections.Connection.ReceivePacket: a frame whose declared id length runs past it ends the modelled loop without a further event, because
  what the code then reads is not determined by the frame; the write of a read into the slab is a copy of the bytes.
- Connections.Connection.Accept: a response is logged; handing it to the waiting call is `RequestTable.Dispatch`, and `Exchanges.AnswerWasFramed` puts the two together.
- Requests.RequestTable.StartWaiting: a replaced channel is destroyed in the code; the call that listened on it stays waiting here until it gives up.
- Packets.EncodePacket: an id of 64 bytes or more, which the code only asserts against, and a body that makes the frame longer than 32 bits can count are preconditions.
- Calls.SendPacketAndWaitRsp: counts turns without bound, where the code compares a signed counter with an unsigned bound; whether a
  write that was begun went out is not told.
- Guarantees.ReturnMeansReceipt: responses other than acknowledgements are those the application builds for requests it took; an
  application that builds responses to requests it never saw is outside the runs.
- Delivery.RunsKeep: the runs are those of one device, whose id all calls and responses carry; packets the server sends without
  waiting, and the client's own requests, are not in them. Writes to one connection do not interleave; a write that fails counts as
  begun, and what it left of the packet is part of the stream. Connect stands for a connection whose id the server knows.
- Guarantees.ReceivedWasWritten: like `FewCallsHandedOnce`, `ReturnMeansReceipt` and what rests on them, needs bodies within the limit,
  which the code does not enforce; the runs of `Histories` show how each fails without it.
- Clients.TcpClient.OnReceiveRequest: handing on without a channel is undefined in the code; here the client stops receiving.
- Registries.RemoveIf: the list is a sequence of optional connection numbers; a pointer that was moved from is null.
- The client's own calls to the server, which wait until it is connected, share `RequestTable` and have no retries.
