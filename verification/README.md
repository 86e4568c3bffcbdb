# p2purr: packets over a byte stream, and the server's connection table

A model of the parts of p2purr that turn packets into bytes and bytes back into packets, and of the table of
connections its server polls. `dafny verify dfyconfig.toml` checks all of it.

## What is modelled

| file | models |
|---|---|
| `Bytes.dfy` | base-256 digits and two's complement: what the integer codec is proved against |
| `Serializer.dfy` | `src/serializer.cpp`: the integer codec, byte by byte through an advancing pointer |
| `Framing.dfy` | the wire format (no document describes it; `src/packet.cpp` is the definition), a one-shot decoder of a stream, building and parsing one frame |
| `Reassembly.dfy` | what the receiver makes of a stream that arrives cut into fragments |
| `Packet.dfy` | `src/packet.cpp`: a packet being built, and one being rebuilt from the shared receive buffer |
| `SocketHelper.dfy` | `src/sockethelper.cpp`: the partial-write loop, the read, closing |
| `Connection.dfy` | one connection as a value: what a read does to it, and which packet it hands to the callback; many connections |
| `PeerConnHandler.dfy` | `src/peerconnhandler.cpp`: one connection, its buffer, its shared position, the loop that completes packets |
| `Transfer.dfy` | sender, channel and receiver together, as a step system |
| `WatchList.dfy` | the map of peers and the list of polled descriptors as values, and their runs |
| `PollList.dfy` | the list of polled descriptors: what a pass reads, a turn of the loop, the scan of the sweep |
| `ServerRuns.dfy` | runs of the server as values: its connections over turns of the loop, what each has received, the calls of the callback |
| `P2PurrServer.dfy` | `src/p2purr_server.cpp`: the server, its sweep, and one turn of the polling loop |

The code that updates objects and buffers in place is modelled by classes and loops over the same fields. Each class is
tied to a value: a connection (`PeerConnHandler.Valid`, `Now`) to the *image* of the bytes it has received, whose whole
frames are its completed packets and whose rest is what its current packet holds, with its position and the state of its
socket; the server (`P2PurrServer.Tab`, `Conns`) to a table of peers and descriptors and to its connections. The theorems
over whole runs are about these values.

What comes from outside is a parameter: the bytes `recv` returns, how much each `send` takes, the descriptor `accept` or
`connect` gives, what poll reported, whether `shutdown` and `close` succeed, the order in which the map is walked.

Two receivers are modelled, by the same class and the same loop. `keepsPrefix == false` is the code as written: the first one or two bytes
of a frame live in an uninitialised local array (`src/packet.cpp:195`) and are lost when the call returns; the
contents of that array are a parameter, `stack`. `keepsPrefix == true` is what the author's comment
(`src/packet.cpp:202`) and the unused member `tmp_hdr` (`include/packet.h:92`) point to: those bytes are kept in the packet, and the guard at
`src/packet.cpp:192` lets a packet with one or two bytes go on collecting. Nothing else differs.

A received stream is assumed well formed (`StreamOk`): each frame starts with 0xFF, its header length is between 9 and 65532, and
header and payload together, with a terminator, fit an int. Outside these bounds the code dereferences a null header or reads and
writes past its allocations. Nothing is assumed about payload lengths: a frame with an empty payload, which the sender
can build, is part of the model.

## Results

- **Reassembly.** For every well-formed stream and every way of cutting it, the intended receiver ends up with the
  packets and the partial packet of the one-shot decoder; the code as written does, whatever the local array holds, if and
  only if the first three bytes of each frame arrive in one fragment (`ReassemblyRefinesDecode`,
  `AsWrittenExactlyOnWholeHeads`). `Rebuild`, `Turn` and `RecvPkt` prove that the loops compute exactly this, within
  the 1500 bytes of the buffer, with at least one byte taken by every call that does not throw, and that the exceptions for a negative
  remainder, an index over the maximum and a header length of zero are never thrown.
- **End to end.** In every run of sends, partial writes, failed writes and reads, the packets completed are the first of
  those sent whole, as long as no send follows one that failed part of the way; for the code as written, provided that the
  first three bytes of each frame arrive in one fragment (`ReceivedIsPrefixOfSent`). Whether a send may follow is settled
  exactly: after a write cut short behind its header, nothing but the packets sent whole before it is completed if and only
  if the bytes sent afterwards are fewer than the cut frame lacks; otherwise the next packet completed is made of both,
  and is the one that was cut if and only if the missing bytes follow (`CutStream`, `AfterTornWrite`). At the receiver, at
  every moment of a run: it is right until as many bytes have arrived as the cut frame has, and from then on exactly if
  what has arrived behind that packet is well formed (`ReceiverAfterTornWrite`). A cut within the header is safe as long
  as the bytes after it are well formed with it and complete no frame, whose length they then contribute to
  (`SafeAfterTornWrite`).
- **Frames.** Building and parsing are inverse, also for headers longer than the sender's (`LongHeader`), no frame is a prefix of another, and a stream of frames has one reading.
- **Integers.** Writing and reading are inverse at every width, in two's complement.
- **Isolation.** In every run of the server, over turns of the loop and connections of its own, the completed packets of each
  peer hold exactly the frames of the bytes received on its own connection, if these are well formed and, for the code as
  written, the first three bytes of each frame came in one fragment (`ServerDecodesEachPeersBytes`,
  `PeersHoldTheirBytes`). What a turn requires of its reads follows from the same condition (`NextTurnAdmissible`).
- **Callbacks.** Of any reads on any connections, exactly those on a peer that do not throw and leave it with a completed
  packet call the callback, once each, with the last one (`RecvPkt`, `HandleClientCommunications`, `CallsOfReads`). On one connection, in any interleaving of reads on many, with failed reads and exceptions among them, the
  packets handed to the callback never go back, within a turn (`CallbacksNeverDecrease`) and over the turns of a run
  until the connection is swept (`HistoryNeverDecreases`).
- **Server.** In every reachable state the listener and all peers are polled; a sweep leaves exactly them if and only if
  nothing was stale before and at most one peer was closed (`SweepExactly`). One poll pass accepts at most once and serves
  each readable entry once, in order: the connections take exactly the steps of these reads and the callback gets exactly
  what they hand over (`PollPass`), also when a descriptor is listed twice. A whole turn of the loop, pass and sweep, is
  `PollTurn`.

Where the code does not do what it looks meant to do, the model follows the code:

- A fragment that brings the third byte of a frame after one or two came alone (`src/packet.cpp:195-202`) is misread for some contents of the
  local array, and if it has three or more bytes and does not begin with 0xFF the header is used unallocated: `AsWrittenExactlyOnWholeHeads`,
  `SplitStartCrashes`, `CrashesExactly`, `ResumedHeader`.
- A frame with an empty payload can be built (`src/packet.cpp:46-71`) but never completed (`src/packet.cpp:267`): the current packet is never
  given up, and no later packet is completed on that connection: `StuckForever`, `AllDelivered`.
- `send_pkt` swallows a send error (`src/peerconnhandler.cpp:64`), and the next packet follows the part already sent: there are
  runs in which the receiver, right so far, completes a packet made of both, which is not the one whose send failed:
  `TornWriteForgesPacket`. When bytes that do not begin with 0xFF have arrived behind it, the stream is malformed
  (`ReceiverAfterTornWrite`): a packet started on them skips the header loop (`src/packet.cpp:192`) and reads its fields
  from a null header (`src/packet.cpp:246`), in the same `recv_pkt` and so before any callback if they came with the
  bytes before them, unless that read brought fewer than three bytes.
- The sweep sets up its iterator once for all closed sockets (`src/p2purr_server.cpp:182`), so only the first one's
  entry is erased: `SweepExactly`, `TwoClosedLeaveOne`; `RestartedSweepExactly` is the version that restarts it.
- The limit of 1000 inbound connections is compared with `>` (`src/p2purr_server.cpp:74`): a run of 1001 accepts ends with
  1001 peers (`LimitPassed`), and a run stays within the limit exactly when none of its accepts finds the map full and its
  socket no key (`AcceptLimit`, `RunLimit`). Outbound connections are compared with `>=`
  (`src/p2purr_server.cpp:99`) and never pass it (`ConnectLimit`).

## Model

| member | source | states |
|---|---|---|
| Serializer.SerializeInt16 | src/serializer.cpp:103-112 | writes the two base-256 digits of any 64-bit number, negative ones by their residue, and nothing else in the buffer |
| Serializer.SerializeInt32 | src/serializer.cpp:114-119 | the shift loop writes the four digits, most significant first, and nothing else |
| Serializer.SerializeInt64 | src/serializer.cpp:121-126 | the same for eight |
| Serializer.DeserializeInt16 | src/serializer.cpp:129-135 | reads the value of two bytes in two's complement |
| Serializer.DeserializeInt32 | src/serializer.cpp:137-145 | the accumulating loop, wrapping at 32 bits at each turn, yields the two's complement value of the four bytes |
| Serializer.DeserializeInt64 | src/serializer.cpp:147-156 | the same for eight |
| Serializer.NextByte | src/serializer.cpp:141-143 | below the full width, shifting in a byte in the narrow signed type loses nothing |
| Bytes.NumberRoundTrip | src/serializer.cpp:103-145 | reading back the written digits gives the number reduced to the width, for every number and width |
| Bytes.BytesRoundTrip | src/serializer.cpp:121-156 | writing the number read restores the bytes, for every byte string |
| Bytes.SignedIsResidue | src/serializer.cpp:129-156 | the reduction is the one congruent number in the signed range, and the identity on that range |
| Framing.FrameRoundTrip | src/packet.cpp:158-181 | a built packet is a frame exactly when its payload is not empty, and parsing it gives back the five properties and the payload |
| Framing.ParsedFrame | src/packet.cpp:242-272 | any frame is its header followed by the payload parsed from it, of the announced length; rebuilding it gives the same bytes exactly when its header length is 9 |
| Framing.LongHeader | src/packet.cpp:183-276 | in plain bytes: whatever a header holds behind the payload length, up to 65535 bytes in all, such a frame is complete exactly at its last byte and not before, unless its payload is empty, and carries the message; it is the frame the sender builds exactly when it holds nothing there |
| Framing.LengthFields | src/packet.cpp:207-212 | the codec's signed results, stored in the unsigned length fields, are the big-endian values of the bytes |
| Framing.PrefixFree | src/packet.cpp:299 | no frame is a proper prefix of another |
| Framing.UniqueDecodability | src/packet.cpp:158-176 | two lists of frames give the same stream exactly when they are the same list |
| Framing.DecodeConserves | src/packet.cpp:282-333 | the decoded frames and the rest make up the stream, and the rest holds no frame |
| Framing.DecodeYieldsFrames | src/packet.cpp:282-333 | what is decoded from a well-formed stream are frames, and the rest is the beginning of one |
| Framing.DecodeAppend | src/peerconnhandler.cpp:77-92 | decoding in two steps, with only the rest kept between them, is decoding at once |
| Framing.DecodeConcat | src/packet.cpp:134-156 | decoding inverts the concatenation of frames, also before a partial one |
| Framing.StuckForever | src/packet.cpp:265-267 | once the rest announces an empty payload, no further packet is completed whatever follows |
| Framing.SentThen | src/packet.cpp:134-156 | of messages sent whole with any bytes behind them, exactly those before the first one without a payload are decoded, and if there is none without, so is what follows |
| Framing.SentWhole | src/packet.cpp:134-156 | the same with only a part of a frame behind them, which is left over |
| Framing.CutFrame | src/packet.cpp:282-333 | the first k bytes of a frame and what follows hold a frame, from the header on, exactly when the bytes that follow are as many as it lacks; it is that frame exactly when they are the missing ones |
| Framing.CutStream | src/sockethelper.cpp:157-162 | after messages sent whole and the first k bytes of another, nothing else is decoded if and only if these and the bytes that follow hold no frame, for k in the payload if and only if they are fewer than the frame lacks; otherwise the next packet is made of both, and is the one that was cut if and only if the missing bytes follow |
| Framing.AllDelivered | src/packet.cpp:265-267 | all are delivered with nothing left over exactly when each has a payload |
| Reassembly.ReassemblyRefinesDecode | src/packet.cpp:183-240 | for every split (bytes kept) or every split that keeps the first three bytes of a frame together (as written), the receiver's image is the stream, no header is used unallocated, and packets and partial packet are those of one-shot decoding |
| Reassembly.AsWrittenExactlyOnWholeHeads | src/packet.cpp:192-223 | the code as written decodes a well-formed stream rightly, whatever the local array holds, exactly when the first three bytes of each frame come in one fragment |
| Reassembly.GoodSplitKeepsHeads | src/packet.cpp:202 | that condition and "no fragment ends 1 or 2 bytes into a frame" differ only on a stream that ends there |
| Reassembly.SplitStartCrashes | src/packet.cpp:189-192 | a 13-byte frame whose first two bytes come alone makes the receiver use the unallocated header, for all contents of the local array |
| Reassembly.ResumptionDiverges | src/packet.cpp:195-208 | when the third byte comes after one or two lost ones, some contents of the local array put a wrong byte into the image |
| Reassembly.ResumedHeader | src/packet.cpp:195-213 | what is read after one or two lost bytes, byte by byte: the next bytes in their place, the end of the local array in the place of these, and so the header length |
| Reassembly.DivergenceStays | src/packet.cpp:203-223 | a wrong header byte is never put right by later fragments |
| Reassembly.SplitsAgree | src/peerconnhandler.cpp:77-92 | any two such splits of one stream leave the same completed packets and the same partial one |
| Reassembly.TwoReadsAsOne | src/peerconnhandler.cpp:77-92 | reading a then b is reading a followed by b; as written, provided that neither what was received before a nor what a completes it to ends 1 or 2 bytes into a frame |
| Reassembly.SeeDecodes | src/peerconnhandler.cpp:84-88 | a fragment only adds packets behind those completed before |
| Reassembly.RightExactlyIfWellFormed | src/packet.cpp:183-240 | under the same condition on the split, a run is right exactly if the stream is well formed |
| Connections.Isolation | src/p2purr_server.cpp:41-46 | in any interleaving with reads on others, also with failed reads and closed sockets, a connection and what was received on it depend only on the reads on its own descriptor |
| Connections.OwnImage | src/p2purr_server.cpp:41-46 | its image is that of the bytes received on it, before and during these reads |
| Connections.OwnFragments | src/peerconnhandler.cpp:75-77 | on a connection that stays open, what was received is what the reads on its descriptor brought, fragment by fragment |
| Connections.EachPeerDecodesItsOwnBytes | src/p2purr_server.cpp:41-59 | if these are well formed and, as written, the first three bytes of each frame come in one fragment, its packets, and the partial one, are the decoding of exactly these bytes |
| Connections.WireAdmissible | src/peerconnhandler.cpp:73-92 | under the same condition on each connection, and if no read brings more than there is room for, every read is one its connection can take |
| Connections.LogAppend | src/p2purr_server.cpp:228-266 | reads and calls of the callback compose |
| Connections.DeliveredAreCompleted | src/peerconnhandler.cpp:94-96 | a packet handed over is one its connection has completed |
| Connections.CallbacksNeverDecrease | src/p2purr_server.cpp:46-51 | over any reads on any connections, the calls of the callback (none when a read throws or no packet is complete) hand over, on each connection, packets whose indices never decrease |
| Connections.Call | src/peerconnhandler.cpp:94-104 | a read hands over the last packet the connection has completed, the first one too, unless there is none, the read failed, or a frame with an empty payload is in front of bytes not looked at before |
| Connections.CallsOfReads | src/p2purr_server.cpp:41-51 | of any reads on any connections, exactly those on a peer that end without an exception and leave it with a completed packet call the callback: once each, in order, with the last one completed |
| Connections.ReadOnce | src/p2purr_server.cpp:237-261 | a connection read once in a pass takes exactly the step of that read |
| Connections.NotRead | src/p2purr_server.cpp:43-46 | a connection not read stays as it was |
| Packets.Packet.Create | src/packet.cpp:46-71 | a packet with a payload holds the frame of its message; without one, none is made |
| Packets.Packet.Build | src/packet.cpp:134-156 | the built bytes are the frame of the five properties and the payload, with a terminator |
| Packets.Packet.BuildHeader | src/packet.cpp:158-181 | the twelve header bytes of the message |
| Packets.Packet.MakePkt | src/packet.cpp:336-344 | header and payload one after the other, and a zero |
| Packets.Packet.SetBuildPending | src/packet.cpp:415-433 | a finished packet lets go of buffer and position; a pending one keeps them |
| Packets.Packet.Receiving | src/packet.cpp:99-126 | a new packet has taken nothing and is attached to the shared buffer and position |
| Packets.Packet.UpdateBuffIdx | src/packet.cpp:382-391 | the shared position follows the read pointer; the exception exactly when it is over the maximum |
| Packets.Packet.UpdateLocalBuffInfo | src/packet.cpp:396-402 | the read pointer starts at the shared position |
| Packets.Packet.AllocateHeader | src/packet.cpp:207-215 | the 16-bit header length, its wrap-around, its exception, and the copied first three bytes |
| Packets.Packet.TakeHeaderByte | src/packet.cpp:204-221 | one turn of the header loop: counters move together, each byte lands at its place in the view, the third allocates the header |
| Packets.Packet.CollectHeader | src/packet.cpp:203-223 | the header loop stops with the header full or the buffer empty, holding the view's bytes, having moved pointer and count alike |
| Packets.Packet.ScanHeader | src/packet.cpp:186-224 | the guarded part of header_ready: entered whenever header bytes are missing, without an exception |
| Packets.Packet.HeaderReady | src/packet.cpp:183-240 | ready exactly when the header is complete and at least one byte follows it; the packet's invariant holds again and the rest of the view is still in the buffer |
| Packets.Packet.CrashesExactly | src/packet.cpp:186-240 | with no header yet, the guard of the header loop fails exactly in the case taken as the crash, and then nothing keeps header_ready from returning true without a header |
| Packets.Packet.RebuildHeader | src/packet.cpp:242-280 | the fields are those in the header bytes, the exception exactly for an announced length of zero, and a payload already there is not replaced |
| Packets.Packet.CollectPayload | src/packet.cpp:301-309 | the payload loop takes what the frame needs or what there is, in place |
| Packets.Packet.FinishRebuild | src/packet.cpp:311-331 | the packet is made exactly when the frame is whole; the exceptions for a negative remainder and an index over the maximum are not thrown |
| Packets.Packet.ReadHeader | src/packet.cpp:242-280 | a full header is read into the fields; reading it again on a later fragment changes none of them and keeps the payload; the exception exactly for an empty payload |
| Packets.Packet.RebuildPayload | src/packet.cpp:296-333 | from a read header: a whole frame is held, or everything is taken and the packet stays pending |
| Packets.Packet.Rebuild | src/packet.cpp:282-333 | takes exactly one frame, or all there is, or stops and throws exactly after the header of a frame with an empty payload and more behind it; the position moves by exactly the bytes taken; a finished packet has let go of the shared buffer, an unfinished one that did not throw is marked pending |
| Packets.HeldMessage | src/packet.cpp:242-333 | a packet that holds the frame of a message shows its user exactly the five properties, the payload and the bytes of it |
| Packets.ViewedIsView | src/packet.cpp:195-208 | the bytewise account of where bytes come from determines the view of the stream |
| Sockets.AcceptedIsSum | src/sockethelper.cpp:157-162 | what gets out is the sum of what the calls before the first error would take, or all of the data if that is less; the loop ends exactly by an error or with everything out |
| Sockets.AllAccepted | src/sockethelper.cpp:157-162 | a loop that ends without an error has sent everything |
| Sockets.PositiveOffersEnd | src/sockethelper.cpp:157-162 | the loop ends after at most as many calls as there are bytes, if each of them takes something or fails |
| Sockets.SocketHelper.SendData | src/sockethelper.cpp:153-165 | what goes out is a prefix of the data, each byte once, as long as the accepted amount, also when calls take nothing, and nothing more once a call fails; an exception exactly when it is not all of it |
| Sockets.SocketHelper.Receive | src/sockethelper.cpp:169-197 | one recv per call: its bytes at the given place and nothing else in the buffer changed, 0 on a closed socket, an exception and an unchanged socket when it fails, closing on an orderly close |
| Sockets.SocketHelper.CloseSock | src/sockethelper.cpp:343-389 | the socket is closed exactly when true is returned; a failed step leaves it open, and shutdown is not repeated once it succeeded |
| Peers.PeerConnHandler.constructor | src/peerconnhandler.cpp:8-35 | a connection starts with an empty image, position 0, a buffer of 1500 bytes, nothing sent, and a socket that is open and not connected; it shares nothing |
| Peers.PeerConnHandler.ClearBuff | src/peerconnhandler.cpp:37-41 | buffer and position are zero; packets and image stay |
| Peers.PeerConnHandler.Connect | src/peerconnhandler.cpp:43-53 | throws exactly when the system could not connect; the socket may be shut down later only if it could |
| Peers.PeerConnHandler.SendPkt | src/peerconnhandler.cpp:60-67 | of the packet's frame, the part the system accepts follows what has gone out before, whether or not the send fails: one more write in the log of the connection |
| Peers.PeerConnHandler.FeedPacket | src/peerconnhandler.cpp:82-84 | the current packet is done exactly when a whole frame is there, and stays attached otherwise |
| Peers.PeerConnHandler.RebuildOnce | src/peerconnhandler.cpp:79-88 | a completed frame is appended to the completed packets and the current packet given up; otherwise it holds the rest |
| Peers.PeerConnHandler.Turn | src/peerconnhandler.cpp:78-90 | a turn takes at least one byte unless it throws, keeps completed packets and image in step, and ends with the whole read in the image |
| Peers.PeerConnHandler.RebuildAll | src/peerconnhandler.cpp:78-91 | the loop ends with all bytes read in the image, and the position at 0 or behind the header of a packet without a payload |
| Peers.PeerConnHandler.RecvPkt | src/peerconnhandler.cpp:69-105 | the packet returned is the last one completed, null exactly if there is none or the call threw; it throws exactly when the read on an open socket failed, or brought bytes beyond the position while a frame with an empty payload is in front; bytes read enter the image, whose frames the completed packets then are, older ones staying; the position is 0 again unless such a frame has stopped the decoding; a failed read changes nothing, and only an orderly close whose shutdown and close succeed closes the socket |
| Peers.NextStep | src/peerconnhandler.cpp:78-90 | with a frame in front the image goes on by exactly that frame, otherwise by all that is there |
| Transfer.Conservation | src/sockethelper.cpp:153-165 | in every run, what was received and what is in flight are what went out |
| Transfer.ReceivedIsPrefixOfSent | src/peerconnhandler.cpp:60-105 | in every run in which no send follows a torn one, and in which, for the code as written, the first three bytes of each frame come in one fragment: the completed packets are the first of those sent whole before the first empty one, and all of these once everything has arrived |
| Transfer.ReceivedMessages | src/packet.cpp:259-276 | under the same two conditions, with the properties and payloads of the messages sent |
| Transfer.AfterTornWrite | src/peerconnhandler.cpp:60-67 | of the bytes that arrive, in every run, with everything delivered and a payload in each packet sent whole before the first torn write: nothing but these is completed if and only if what was sent after it holds no frame together with its part, behind the header if and only if it is shorter than what the frame lacks; otherwise the next packet is made of both |
| Transfer.SafeAfterTornWrite | src/peerconnhandler.cpp:60-105 | for every cut: as long as what was sent after it is well formed with the part that got out and holds no frame with it, at every moment the receiver's completed packets are the first of those sent whole before (as written, if the first three bytes of each frame come in one fragment) |
| Transfer.ReceiverAfterTornWrite | src/peerconnhandler.cpp:60-105 | for a cut behind the header, at every moment of a run and under the same condition on the split: before as many bytes have arrived as the cut frame has, the receiver is right and has completed nothing but packets sent whole; from then on it has the packet made of both, which is the one that was cut if and only if the missing bytes follow, and is right if and only if what has arrived behind it is well formed |
| Transfer.DrainedExactlyWhenUntorn | src/sockethelper.cpp:157-162 | with everything delivered, the stream decodes to exactly the packets sent whole with no byte left over if and only if no write is torn, by a failure or because it is still under way, and none of these packets is empty |
| Transfer.TornWriteForgesPacket | src/peerconnhandler.cpp:60-105 | for every cut within the payload at a byte other than 0xFF and every next packet long enough to fill it, there is a run with these two sends, the first failing there, in which the receiver, as written too, is right and has completed exactly one packet: the payload's beginning and then the next packet's bytes |
| WatchList.WatchCovers | src/p2purr_server.cpp:79-84 | watching a descriptor keeps all peers and the listener polled, and is never a new stale entry |
| WatchList.SweepCovers | src/p2purr_server.cpp:148-193 | however many peers are closed, the sweep keeps the remaining ones and the listener polled |
| WatchList.SweepLeavesStale | src/p2purr_server.cpp:182-193 | it leaves exactly the entries stale before and those of all closed peers but the first |
| WatchList.SweepExactly | src/p2purr_server.cpp:182-193 | exactly the listener and the peers are polled afterwards if and only if nothing was stale before and at most one peer was closed |
| WatchList.RestartedSweepExactly | src/p2purr_server.cpp:182-193 | with the scan restarted, if and only if that was so before |
| WatchList.AlwaysCovers | src/p2purr_server.cpp:62-123 | in every reachable state the listener and all peers are polled, and there are at most 1001 peers |
| WatchList.AcceptLimit | src/p2purr_server.cpp:74-85 | from a state within the limit of 1000, an accept stays within it if and only if the map is not full or the socket is a key already |
| WatchList.ConnectLimit | src/p2purr_server.cpp:99-112 | a connection to a peer always does |
| WatchList.StepLimit | src/p2purr_server.cpp:62-123 | a step passes the limit exactly when it is an accept of a new socket with the map full |
| WatchList.RunLimit | src/p2purr_server.cpp:62-123 | a run stays within the limit exactly when it holds no such accept |
| WatchList.LimitPassed | src/p2purr_server.cpp:74 | a run that accepts 1001 connections has 1001 peers |
| WatchList.ExactRuns | src/p2purr_server.cpp:148-196 | if no sweep of a run found more than one peer closed, exactly the listener and the peers are polled |
| WatchList.TwoClosedLeaveOne | src/p2purr_server.cpp:182-193 | a run in which two peers close at once leaves one of their descriptors polled |
| Server.P2PurrServer.constructor | src/p2purr_server.cpp:7-22 | the listener is polled and there are no peers |
| Server.P2PurrServer.AddFdToWatchList | src/p2purr_server.cpp:31-36 | one entry at the end, with whatever readiness its memory held |
| Server.P2PurrServer.HandleClientCommunications | src/p2purr_server.cpp:41-59 | only the peer of the socket moves, by exactly the step of this read; the callback is called once, with its last completed packet, if there is one and the read did not throw, and otherwise not at all; the table changes exactly by a hang-up |
| Server.P2PurrServer.WatchPeer | src/p2purr_server.cpp:80-84 | the descriptor is watched in any case, and gets the peer unless it is a key already |
| Server.P2PurrServer.HandleNewClient | src/p2purr_server.cpp:62-92 | accepts up to the limit, watches the descriptor, keeps a key that is there and the peers that were; the new peer is fresh, on this socket, open, not connected by us, with nothing received, completed or sent; above the limit its socket is closed, if the system can |
| Server.P2PurrServer.ConnectToPeer | src/p2purr_server.cpp:95-123 | below the limit and on a new key the map gets the peer that has connected: on this socket, open and initialised, so that it may be shut down later, with nothing received, completed or sent; the keys are otherwise as before, and nothing changes when it fails or the limit is reached |
| Server.P2PurrServer.RemoveDisconnectedPeers | src/p2purr_server.cpp:148-196 | the map keeps exactly the open connections, as the same objects and unchanged; the list loses the entries of the first closed one, and the others stay entries as they were; nothing happens while the server is not running |
| Server.P2PurrServer.RemoveClosedPeers | src/p2purr_server.cpp:150-166 | the walk over the map erases exactly the closed peers and lists each of them once |
| Server.P2PurrServer.RemoveDescriptors | src/p2purr_server.cpp:182-193 | the scan erases for the first listed descriptor only |
| Server.P2PurrServer.EraseFrom | src/p2purr_server.cpp:184-192 | from the iterator on, every entry for the descriptor or -1 goes and all others stay in order; the iterator ends at the end |
| Server.P2PurrServer.PollPass | src/p2purr_server.cpp:237-263 | one pass terminates, accepts once exactly when the listener is readable, which adds the client to the list and the map unless there are more than 1000 peers, and serves each readable entry behind it exactly once and in list order, the new one too; the connections after it are those after exactly these reads, the calls of the callback exactly theirs, and the server is valid again |
| Server.P2PurrServer.PollTurn | src/p2purr_server.cpp:226-267 | a pass and the sweep: the peers left are exactly those there before or accepted whose socket is open; the connections and the calls of the callback are those of the move with exactly the pass's reads, distinct descriptors stay distinct, and exactly the listener and the peers are polled if and only if nothing but the accepted descriptor was stale before and at most one peer was found closed |
| Server.P2PurrServer.PeersHoldTheirBytes | src/p2purr_server.cpp:41-59 | after any run, each peer's completed packets hold exactly the frames of the bytes received on its own connection, in order, if these are well formed and, as written, the first three bytes of each frame came in one fragment |
| Server.CallsDetermined | src/p2purr_server.cpp:46-51 | the account of the calls fixes them: their number, order, sockets and packets |
| ServerRuns.ServerDecodesEachPeersBytes | src/p2purr_server.cpp:41-59 | the same of the connections as values, with the partial packet |
| ServerRuns.NextTurnAdmissible | src/p2purr_server.cpp:237-263 | what a turn requires of its reads is a property of the bytes received on each connection, if no read brings more than there is room for |
| ServerRuns.HistoryNeverDecreases | src/p2purr_server.cpp:46-51 | from one call of the callback to a later one of the same or a later turn, with the connection not swept in between, the index handed over never decreases |
| PollList.ReadEntry | src/p2purr_server.cpp:239-252 | each read of a pass is one of a readable entry |
| PollList.EntryRead | src/p2purr_server.cpp:239-252 | each readable entry has one |
| PollList.ReadsDistinct | src/p2purr_server.cpp:239-252 | with distinct descriptors none is read twice |
| PollList.OwnReadOnly | src/p2purr_server.cpp:237-263 | with distinct descriptors each connection takes exactly the read of its own entry, or stays as it was |
| PollList.TurnExactly | src/p2purr_server.cpp:182-193 | the sweep after a pass leaves the list exact if and only if nothing else was stale before it and at most one peer is closed |

## Left out

- Real sockets, `getaddrinfo`, `fcntl`, `setsockopt`, `poll` itself, signals and the Windows branches: system calls; their answers are parameters.
- Threads, `sleep`, and `start`/`stop` racing with the poll loop: there is no locking to reason from; the server is modelled as single-threaded and before `stop`, `close_all_connections` included.
- `serialize_float` and `deserialize_float`: unfinished in the repository.
- File payloads and `out.txt`, printing, exception messages: input and output; a file packet is a packet with a payload, built by the second constructor in the same way.
- Malformed streams: a first byte other than 0xFF, a header length outside 9..65532 or a total length beyond an int leads the code outside its allocations; the model requires well-formed streams instead.
- `send_pkt_to_peer`, host names and ports: a search by name in front of `send_pkt`.
- Memory management and destructors, which also close a socket whose peer is dropped: objects and what they share are modelled, not when they are freed.
- An exception out of `accept`, which ends the polling thread: an accept in the model succeeds.
- `inbound_connections`, `outbound_connections`, mute and keepalive flags: not used by the code modelled.
- Packets.Packet.Create: a negative length, for which the source allocates and copies a negative number of bytes, is not modelled, and the whole packet must fit an int.
- Sockets.SocketHelper.SendData: the answers of `send` end the loop; one that takes nothing for ever would not terminate, as in the source.
- Sockets.SocketHelper.Receive: `recv` answers at least one byte, 0 or -1, and no more than it was asked for; the buffer is never full when it is called.
- Server.P2PurrServer.PollPass: the reads it does are ones its connections can take (`AllAdmissible`), which holds if the bytes received are well formed (`ServerRuns.NextTurnAdmissible`), and the socket that `accept` gives is a descriptor, not the listener's.
- Transfer.ReceivedIsPrefixOfSent: the step system is over values; its receive step is what `Peers.PeerConnHandler.RecvPkt` does to a connection's image, and its writes are what `Peers.PeerConnHandler.SendPkt` adds to a connection's log. When a send does follow a torn one, `Transfer.ReceiverAfterTornWrite` settles the packets up to and including the first one made of both; those behind it are whatever the bytes that follow decode to.
