# XCM: verified models of the connection core

XCM is a connection-oriented messaging library. What is hard in it are the user-space state
machines it builds on non-blocking kernel objects. This project models six of them and proves what
they promise, for every answer the kernel may give: short reads and writes, failing system calls,
connects that finish in any order, and a clock that only moves forward.

- **Message framing** (`Wire`, `Mbuf`, `TcpSpec`, `Tcp`, `EndToEnd`, `Xcm`): messages with a
  four-byte length prefix over a byte stream, one frame pending in each direction. The transport is
  proved against relations on the answers of the byte stream below it (`Lower`), and BTCP is proved to
  meet them. The TLS transport has the same framing code over BTLS; the results on framing, delivery
  and counters are its as far as BTLS meets these relations, which is not proved here. What is polled
  after an update is stated for BTCP only: BTLS polls for what its TLS library waits for, and rings
  its bell when no operation has been issued (libxcm/tp/tls/xcm_tp_btls.c:1104-1170).
- **Connection establishment** (`Track`, `Tconnect`): the single, sequential and Happy Eyeballs
  algorithms as tracks that share timers and a poll set.
- **The BTCP connection socket** (`Btcp`, with `Dns` as its resolver).
- **The poll set, its bells, the pool of always-readable descriptors, and the timer manager**
  (`Xpoll`, `ActiveFd`, `TimerMgr`).
- **The table of control clients** (`Ctl`), and a socket together with the control interface that
  shares its poll set (`Socket`).
- **The string list** (`Slist`).

The source updates structures in place, and so do the classes here; each method states its whole new
state, usually as a map or sequence that the fields represent. `KernelModel` holds what the
components share with the kernel: the set of open descriptors, the clock, and a log of the system
calls made on descriptors with the kernel's answers. States and answers are tied to that log: which
bytes were moved, why a connection is up, closed or broken, and why an address was given up. Closing a descriptor
requires that it is open, and adding, changing or deleting an epoll entry requires that this is
legal, so every proof that a method verifies is also a proof that nothing is closed or deregistered
twice. The transport is described twice: by relations between snapshots of a connection
(`TcpSpec`), over which runs of two endpoints are quantified, and by the class `TcpConn`, whose
methods are proved to take exactly such steps.

The invariants are reached, not only kept: `Btcp.Connect` and `Btcp.Accept` end in the states that
`Btcp.Send`, `Btcp.Receive`, `Btcp.Finish` and `Btcp.Update` start from, starting themselves from what the
constructor establishes, and `TcpConn` is constructed in an initial state of the runs.

## What the proofs show about the code

- A connection that failed on an oversized header does not wake the application up: `tcp_update`
  looks at the lower socket only, which is still up. `SilentOnlyAfterBadHeader` says that over BTCP
  these are exactly the silent failures, and `BadHeaderIsReachable` gives one. Between two endpoints of
  this library no such header is ever sent (`NeverMalformed`).
- include/xcm.h:288-289 promises that an unusable connection gives the same errno for repeated calls.
  `RepeatedCalls` shows when this is so, over whole runs: always for sends and finishes; two receives
  answer alike if and only if the connection was not broken by EPIPE, or a frame was pending at both
  or at neither. Otherwise one answers EPIPE and the other the end of the stream, and
  `EpipeAnswersDiffer` is such a run. BTCP turns the EPIPE of a send into the closed state
  (libxcm/tp/tcp/xcm_tp_btcp.c:652-653), so it takes an EPIPE from recv(2), or from the socket error
  that ends a connect, to get there.
- The first send on a dead connection is put in the buffer, and counted, although it fails; later ones
  are not (`DeadSend`). Such a message never reaches the peer (`OnlyAcknowledgedArrive`).
- A blocking xcm_send that fails may nevertheless have had its message acknowledged by the transport,
  so that it can still arrive: when the wait for the frame to leave was interrupted, or the connection
  failed during that wait. `XcmSend` says that there is no other case.
- A frame of length zero is never completed: a receive reads nothing more and ends, in general, with
  the end of the stream (`EmptyFrameIsNeverCompleted` has the exact case), and nothing is received
  afterwards (`EmptyFrameEndsReception`).
- Splitting undoes joining exactly when no element holds the delimiter, the list is not the one empty
  string, and, with NUL as the delimiter, there is at most one element (`SplitOfJoin`).

## Modelling assumptions

- A system call that fails for good never reports EAGAIN; `send` with a non-empty buffer takes at
  least one byte or fails. `eventfd` succeeds (the source aborts otherwise); `timerfd_create`, `socket`,
  `pipe` and `accept` succeed or fail cleanly.
- Name resolution is an oracle: pending, failed, or 1 to 32 addresses, each IPv4 or IPv6.
- Timer ids and counters are unbounded integers, times are real numbers, and the clock counts
  nanoseconds.
- Applying socket options and binding to a local address succeed or fail; whether options changed
  while connecting is left open.
- A blocking call polls any number of times (`patience`) before a signal interrupts it.
- Descriptors registered by others stay open; for the components here this is proved (`RegsOpen`).

## Model

| member | source | states |
|---|---|---|
| `Wire.LenRoundTrip` | libxcm/tp/common/mbuf.h:150-184 | decoding the encoded length gives it back, for every 32-bit length |
| `Wire.EncodeLen` | libxcm/tp/common/mbuf.h:150-160 | the four bytes, the most significant one first, add up to the length |
| `Wire.FrameInBytes` | libxcm/tp/common/mbuf.h:150-160 | a frame is two zero bytes, the high and the low byte of the length, and the message |
| `Wire.HeaderInBytes` | libxcm/tp/common/mbuf.h:172-184 | a received header is oversized exactly when one of its first two bytes is not zero, and empty exactly when all are zero |
| `Wire.HeaderRoundTrip` | libxcm/tp/common/mbuf.h:150-184 | encoding a decoded header gives the four bytes back, for every header |
| `Wire.CompleteIsFrame` | libxcm/tp/common/mbuf.h:162-203 | a stream classified as starting with a complete message starts with the frame of exactly that message |
| `Wire.DecodeFrames` | libxcm/tp/common/mbuf.h:150-203 | decoding the frames of any messages followed by any bytes finds these messages and then decodes the rest |
| `Wire.DecodeIsLossless` | libxcm/tp/common/mbuf.h:150-203 | re-encoding what was decoded, plus the rest, is the original stream, and no complete message is left in the rest |
| `Wire.FramedPrefix` | libxcm/tp/common/mbuf.h:150-203 | framing is prefix-free: if the frames of one list begin those of another, the first list begins the second |
| `MessageBuffer.Mbuf.EnsureCapacity` | libxcm/tp/common/mbuf.h:97-111 | growing the buffer keeps its bytes and gives at least the capacity asked for |
| `MessageBuffer.Mbuf.Set` | libxcm/tp/common/mbuf.h:150-160 | the buffer holds the frame of the message: 0, 0, high and low byte of the length, and the message |
| `MessageBuffer.Mbuf.Append` | libxcm/tp/common/mbuf.h:114-118 | the bytes come behind the ones buffered |
| `MessageBuffer.Mbuf.QueriesAgree` | libxcm/tp/common/mbuf.h:162-203 | header validity, payload length and completeness agree with the reference decoder's classification of the buffered bytes |
| `Lower.DeadForever` | include/xcm.h:288-289 | over any sequence of calls on a byte stream phases only move forward, and once it is closed or broken it stays so and every later call of a kind has the same answer |
| `TcpSpec.FlushKeepsCore` | libxcm/tp/tcp/xcm_tp_tcp.c:262-298 | a flush that stops anywhere keeps the frame accounting and counters; it succeeds exactly when nothing is left, and a dead connection takes nothing |
| `TcpSpec.SendKeepsInv` | libxcm/tp/tcp/xcm_tp_tcp.c:300-328 | every outcome of a send keeps the invariant; the message is acknowledged exactly on success, and EAGAIN means it was not accepted |
| `TcpSpec.AssembleKeepsInv` | libxcm/tp/tcp/xcm_tp_tcp.c:330-453 | every outcome of a receive, after any short read, keeps the invariant: what was read is the frames of the assembled messages plus one partial frame |
| `TcpSpec.StepKeepsInv` | libxcm/tp/tcp/xcm_tp_tcp.c:262-492 | every send, receive and finish, with any answers of the lower socket, keeps the whole connection invariant |
| `EndToEnd.RunKeepsInv` | libxcm/tp/tcp/xcm_tp_tcp.c:262-492 | in every state of every interleaved run of two endpoints both satisfy the invariant and neither has read more than the other has written |
| `EndToEnd.Conservation` | libxcm/tp/tcp/xcm_tp_tcp.c:262-453 | frames of accepted messages = frames of assembled messages, partial receive buffer, bytes in flight and unsent remainder, in this order; the assembled messages are a prefix of the accepted ones |
| `EndToEnd.OnlyAcknowledgedArrive` | libxcm/tp/tcp/xcm_tp_tcp.c:300-328 | what arrives is a prefix of the messages whose send succeeded |
| `EndToEnd.EndToEndDelivery` | libxcm/tp/tcp/xcm_tp_tcp.c:262-453 | conservation and in-order, boundary-exact delivery in both directions, in every state of every run |
| `EndToEnd.NothingOutstanding` | libxcm/tp/tcp/xcm_tp_tcp.c:262-453 | when everything is flushed and read, exactly the acknowledged messages have arrived and no partial frame is left |
| `EndToEnd.ReceiveDelivers` | libxcm/tp/tcp/xcm_tp_tcp.c:418-453 | a receive hands over one message, whole if it fits the capacity and cut off exactly there otherwise, and answers with the number of bytes; or it hands over nothing |
| `EndToEnd.NothingCutOff` | libxcm/tp/tcp/xcm_tp_tcp.c:418-453 | over any run in which every receive has room for the largest message, the application is given exactly what was assembled |
| `EndToEnd.DeliveredToApplication` | libxcm/tp/tcp/xcm_tp_tcp.c:262-453 | over such runs, what one application is given is a prefix of what the other had acknowledged, and all of it when nothing is outstanding |
| `EndToEnd.CountersAcrossTheWire` | libxcm/tp/tcp/xcm_tp_tcp.c:285-324 | over whole runs, from_app minus to_lower is exactly the pending frame in messages and bytes, from_lower and to_app message counts agree, and no end counts more from its lower layer than the other has counted into its own |
| `EndToEnd.ChunkingIsInvisible` | libxcm/tp/tcp/xcm_tp_tcp.c:330-453 | the assembled messages and the partial frame are what the reference decoder finds in the bytes consumed, however they were cut into reads; the buffer stays below 65539 bytes; the connection is bad exactly when the pending header is oversized |
| `EndToEnd.NeverMalformed` | libxcm/tp/tcp/xcm_tp_tcp.c:262-453 | over whole runs of two endpoints neither is ever bad, nor has the beginning of an empty or oversized frame buffered |
| `EndToEnd.EmptyFrameIsNeverCompleted` | libxcm/tp/tcp/xcm_tp_tcp.c:330-453 | with a zero-length frame buffered, a receive reads and assembles nothing; it answers with the end of the stream exactly when the connection is now closed, or was broken by EPIPE with a frame pending, and otherwise with the errno of the connection |
| `EndToEnd.EmptyFrameEndsReception` | libxcm/tp/tcp/xcm_tp_tcp.c:330-453 | over any run of calls afterwards, with any peer, nothing more is read or assembled |
| `EndToEnd.OversizedHeaderIsSticky` | libxcm/tp/tcp/xcm_tp_tcp.c:405-453 | after an oversized header every call gives EPROTO and changes nothing |
| `EndToEnd.BadForever` | libxcm/tp/tcp/xcm_tp_tcp.c:405-492 | over any run of calls a connection failed by an oversized header never changes again and answers EPROTO |
| `EndToEnd.DeadConnection` | libxcm/tp/tcp/xcm_tp_tcp.c:418-453 | the exact answer of every call on a connection whose lower socket is closed or broken, and that nothing more is written, read or assembled |
| `EndToEnd.DeadSend` | libxcm/tp/tcp/xcm_tp_tcp.c:300-328 | a send on a dead connection fails with its errno and is never acknowledged; the message is put in the buffer and counted if and only if no frame was pending, and otherwise buffer, history and counters are unchanged |
| `EndToEnd.DeadStays` | libxcm/tp/tcp/xcm_tp_tcp.c:262-492 | over any run of calls a dead connection keeps its phase, its streams and any pending frame |
| `EndToEnd.RepeatedCalls` | include/xcm.h:288-289 | over any run, repeated sends and finishes on a dead connection answer alike; repeated receives do if and only if it was not broken by EPIPE, or a frame is pending at both or at neither |
| `EndToEnd.EpipeAnswersDiffer` | libxcm/tp/tcp/xcm_tp_tcp.c:418-434 | a run from the initial state in which a receive breaks the connection and answers EPIPE, a send fails with it, and the next receive answers with the end of the stream |
| `TcpTransport.TcpConn.TryFinishSend` | libxcm/tp/tcp/xcm_tp_tcp.c:262-298 | the loop ends and takes a flush step: a prefix of the unsent bytes is written, and the buffer is emptied and counted exactly when all of them are |
| `TcpTransport.TcpConn.Send` | libxcm/tp/tcp/xcm_tp_tcp.c:300-328 | takes a send step, with the errors for empty and oversized messages and for a bad connection, and keeps the invariant |
| `TcpTransport.TcpConn.BufferReceive` | libxcm/tp/tcp/xcm_tp_tcp.c:330-353 | one read for exactly the missing bytes, appended to the buffer; a short read gives EAGAIN |
| `TcpTransport.TcpConn.Assemble` | libxcm/tp/tcp/xcm_tp_tcp.c:355-416 | takes an assembly step: reads never cross a frame boundary, a complete frame is delivered, whole if it fits the capacity, an oversized header makes the connection bad |
| `TcpTransport.TcpConn.Receive` | libxcm/tp/tcp/xcm_tp_tcp.c:418-453 | takes a receive step, flushing first, and keeps the invariant |
| `TcpTransport.TcpConn.Finish` | libxcm/tp/tcp/xcm_tp_tcp.c:474-492 | takes a finish step, in which the answer of the lower socket comes before that of the flush, and keeps the invariant |
| `TcpTransport.TcpConn.Update` | libxcm/tp/tcp/xcm_tp_tcp.c:455-472 | no lost wake-up: the lower socket awaits exactly the application's condition, plus room to send while frame bytes are unsent; a dead one rings its bell; an established BTCP one is polled for input exactly if receiving is awaited, and for output exactly if sending is or a frame is unsent |
| `XcmApi.XcmConn.TpSend` | libxcm/tp/common/xcm_tp.c:193-203 | a send step, after which the poll set is up to date |
| `XcmApi.XcmConn.TpReceive` | libxcm/tp/common/xcm_tp.c:205-215 | a receive step, after which the poll set is up to date |
| `XcmApi.XcmConn.TpFinish` | libxcm/tp/common/xcm_tp.c:222-231 | a finish step, after which the poll set is up to date |
| `XcmApi.XcmConn.Await` | libxcm/core/xcm.c:49-53 | the new condition is awaited and nothing else changes |
| `XcmApi.XcmConn.SocketFinish` | libxcm/core/xcm.c:69-78 | success means that nothing is pending: all accepted frames are with the lower socket and the counters agree; failure means an interrupted wait or a failed connection |
| `XcmApi.XcmConn.MsgBsend` | libxcm/core/xcm.c:350-363 | however often the send is retried, the message is accepted at most once, and acknowledged exactly on success; the answer is that of the last send made, or an interrupted wait after one to be tried again |
| `XcmApi.XcmConn.XcmSend` | libxcm/core/xcm.c:365-383 | a successful blocking send leaves nothing pending, and a blocking send never answers EAGAIN; its answer follows from that of the last send made; one that fails acknowledged its message only if it was interrupted or the connection failed with that errno |
| `XcmApi.XcmConn.SetBlocking` | libxcm/core/xcm.c:431-453 | a connection made blocking has nothing pending; on failure the mode is unchanged |
| `XcmApi.BytestreamBsend` | libxcm/core/xcm.c:330-348 | on success the whole buffer has been taken, once and in order, otherwise a proper prefix of it, with the answer of the last send or an interrupted wait |
| `XcmApi.SendOutcome` | libxcm/tp/tcp/xcm_tp_tcp.c:300-328 | what a send means for accepted and acknowledged messages |
| `XcmApi.FinishOutcome` | libxcm/tp/tcp/xcm_tp_tcp.c:474-492 | a successful finish means an empty send buffer, all accepted frames written and equal counters |
| `XcmApi.SilentOnlyAfterBadHeader` | libxcm/tp/tcp/xcm_tp_tcp.c:455-472 | a failed connection that does not ring was failed by a bad header, and over BTCP the failed connections that do not ring are exactly those |
| `XcmApi.BadHeaderIsReachable` | libxcm/tp/tcp/xcm_tp_tcp.c:368-416 | such a connection is reached by one read of an oversized header |
| `Tracks.EligibleMember` | libxcm/tp/tcp/tconnect.c:142-154 | the addresses a track is to try are exactly those of the families it has a socket for |
| `Tracks.EligibleOrdered` | libxcm/tp/tcp/tconnect.c:158-246 | they come in resolver order, each once |
| `Tracks.Track.AddressDiscipline` | libxcm/tp/tcp/tconnect.c:158-246 | at any time the addresses taken up are strictly increasing, of supported families, and none up to the current one was passed over |
| `Tracks.Track.BadMeansExhausted` | libxcm/tp/tcp/tconnect.c:158-262 | a bad track has taken up every supported address and each failed, for an answer of the kernel to a call made for it or an expired timer; its reason is non-zero, that of the last failure, or ENOENT when none was eligible |
| `Tracks.Track.ConnectNext` | libxcm/tp/tcp/tconnect.c:158-246 | the recursion ends, with the track connecting, connected or bad; only its own registration and timer change, and it never starts with a registration in place |
| `Tracks.Track.AbortConnect` | libxcm/tp/tcp/tconnect.c:248-262 | the registration and the timer of the attempt are gone, and nothing else |
| `Tracks.Track.ProcessInitialDelay` | libxcm/tp/tcp/tconnect.c:264-273 | the delay is left only after its timer, which is live, has expired |
| `Tracks.Track.ProcessConnecting` | libxcm/tp/tcp/tconnect.c:275-304 | the attempt succeeds, goes on, or is followed by the next address; the kernel is asked each time, its answer decides, and timers are only asked for while live |
| `Tracks.Track.GetConnectedFd` | libxcm/tp/tcp/tconnect.c:315-346 | a socket that the kernel has last reported as connected is handed over deregistered and no longer the track's; otherwise EAGAIN exactly while the track is at work, then waiting for a timer that had not expired when the call began and a connect the kernel was asked about in this call; a socket reported as connected is never withheld; or its reason |
| `Tracks.Track.Destroy` | libxcm/tp/tcp/tconnect.c:348-359 | no registration and no timer of the track is left |
| `TcpConnect.Tconnect.Create` | libxcm/tp/tcp/tconnect.c:377-402 | on failure nothing is left open or registered; on success exactly two sockets and a registered timer descriptor are new |
| `TcpConnect.Tconnect.Connect` | libxcm/tp/tcp/tconnect.c:416-543 | each algorithm creates the tracks it calls for: with IPv6 addresses in the list the IPv4 track waits, without them it starts at once; each has the given timeout and local address |
| `TcpConnect.Tconnect.GetConnectedFd` | libxcm/tp/tcp/tconnect.c:545-588 | one winner: at most one track hands its socket over, which the kernel has reported as connected and which leaves this object; EAGAIN exactly when some track is at work; a hard error means all are exhausted; without a winner the kernel has reported none as connected; no attempt is forgotten, and no track is left waiting for a timer that had expired when the call began |
| `TcpConnect.Tconnect.Destroy` | libxcm/tp/tcp/tconnect.c:590-605 | every socket still owned is closed, once, every registration and timer removed, and those of others untouched |
| `TcpConnect.Tconnect.TrackWakesUp` | libxcm/tp/tcp/tconnect.c:158-346 | a track at work has a live timer, for a connect under way set to the connect timeout after it was issued; once it has expired, or the connecting socket is writable, the XCM descriptor is readable |
| `TcpConnect.Tconnect.NoEarlyIpv4` | libxcm/tp/tcp/tconnect.c:416-474 | Happy Eyeballs head start (section 6 of RFC 6555): with any IPv6 address in the list, no IPv4 connect was issued within 200,000,000 ns of the request, among all attempts ever recorded (which only grow) |
| `TcpConnect.Tconnect.OwnRegsAreOwnFds` | libxcm/tp/tcp/tconnect.c:63-107 | the registrations owned are for the descriptors owned, and nobody else's are |
| `TcpConnect.OthersUnaffected` | libxcm/core/xpoll.c:195-246 | replacing one owned registration by another leaves those of everybody else as they were |
| `BtcpTransport.Btcp.AssertionsHold` | libxcm/tp/tcp/xcm_tp_btcp.c:153-183 | the run-time assertions hold in every state between calls |
| `BtcpTransport.Btcp.constructor` | libxcm/tp/tcp/xcm_tp_btcp.c:201-236 | a new connection socket owns one silent bell and nothing else, and no other holder of the descriptor pool is touched |
| `BtcpTransport.Btcp.Deinit` | libxcm/tp/tcp/xcm_tp_btcp.c:238-258 | from any state, everything the socket owns is taken down and nothing else: registrations, bell, descriptors, timers; the other holders of the descriptor pool are untouched |
| `BtcpTransport.Btcp.BeginConnect` | libxcm/tp/tcp/xcm_tp_btcp.c:277-322 | leads to connecting, ready or unusable, with everything owned once and others undisturbed |
| `BtcpTransport.Btcp.Initiate` | libxcm/tp/tcp/xcm_tp_btcp.c:277-322 | the tracks of the configured algorithm are under way with the configured timeout and local address, or the call failed for good |
| `BtcpTransport.Btcp.TryFinishResolution` | libxcm/tp/tcp/xcm_tp_btcp.c:324-352 | the resolver is asked; the query is gone unless it is still pending; not found makes the socket unusable with ENOENT, and addresses become the targets |
| `BtcpTransport.Btcp.TryFinishConnect` | libxcm/tp/tcp/xcm_tp_btcp.c:354-397 | the winning socket changes owner and is registered before the connection establishment is destroyed; nothing leaks; ready only if the kernel reported the socket connected, unusable only if every track gave up or setting up the socket failed |
| `BtcpTransport.Btcp.TryEstablish` | libxcm/tp/tcp/xcm_tp_btcp.c:399-414 | only sockets being established change, and only forward; afterwards no resolver answer is left unread no track waits for a timer that had expired when the call began, and the kernel has been asked about every connect; the new state is warranted by the answers |
| `BtcpTransport.Btcp.Connect` | libxcm/tp/tcp/xcm_tp_btcp.c:432-478 | after a failed call no registration, bell, descriptor or timer of the socket is left; a successful one leaves a valid socket on its way up, with the default algorithm and timeout where none was set, towards the address given; a malformed address is EINVAL; the other holders of the descriptor pool are untouched |
| `BtcpTransport.Btcp.Accept` | libxcm/tp/tcp/xcm_tp_btcp.c:566-618 | likewise for accept, pool holders included, with EACCES when a connect-only attribute was set, and otherwise the answers of the calls made |
| `BtcpTransport.Btcp.Close` | libxcm/tp/tcp/xcm_tp_btcp.c:544-554 | after close nothing of the socket is left in the poll set or open, and the other holders of the descriptor pool are untouched |
| `BtcpTransport.Btcp.Send` | libxcm/tp/tcp/xcm_tp_btcp.c:620-670 | meets the send relation that the messaging layer relies on, and the one send(2) call made took exactly the bytes reported, which extend the history of its descriptor; its errno is the answer, EPIPE closing and others breaking the connection; states only move forward, closed and unusable are absorbing |
| `BtcpTransport.Btcp.Receive` | libxcm/tp/tcp/xcm_tp_btcp.c:672-720 | meets the receive relation, with exactly the bytes the one recv(2) call gave, likewise; none of them means closed |
| `BtcpTransport.Btcp.Finish` | libxcm/tp/tcp/xcm_tp_btcp.c:787-821 | meets the finish relation, likewise |
| `BtcpTransport.Btcp.Update` | libxcm/tp/tcp/xcm_tp_btcp.c:722-759 | a ready socket is polled for exactly the awaited condition, a closed or unusable one rings, as does one with an unread answer of the resolver; the other holders of the descriptor pool are untouched |
| `BtcpTransport.Btcp.UpdateWakesUp` | libxcm/tp/tcp/xcm_tp_btcp.c:722-759 | after an update, a dead connection, and an established one that has become readable while receiving is awaited, or writable while sending is, make the XCM descriptor readable |
| `BtcpTransport.Btcp.ConnectingWakesUp` | libxcm/tp/tcp/xcm_tp_btcp.c:354-397 | a connecting socket always has a track at work, and the expiry of its timer, or its socket becoming writable, makes the XCM descriptor readable |
| `BtcpTransport.Btcp.ResolvingWakesUp` | libxcm/tp/tcp/xcm_tp_btcp.c:324-352 | while a name is being resolved, a readable resolver pipe makes the XCM descriptor readable |
| `BtcpTransport.Btcp.Bystander` | libxcm/tp/tcp/xcm_tp_btcp.c:153-183 | a socket stays valid whatever the owner of another poll set does to the shared pool and to descriptors that are not its own |
| `BtcpTransport.Btcp.StaysValid` | libxcm/tp/tcp/xcm_tp_btcp.c:153-183 | a socket stays valid whatever others do to the same poll set, as long as its registrations, bell and descriptors are left alone |
| `Dns.Query.Result` | libxcm/tp/dns/xcm_dns_glibc.c:207-232 | fetching addresses ends the registration of the pipe; otherwise EAGAIN or ENOENT and nothing changes |
| `XpollTable.FreeSlotExists` | libxcm/core/xpoll.c:106-130 | a free slot exists exactly when the count is below the capacity |
| `XpollTable.FreeBellExists` | libxcm/core/xpoll.c:268-299 | the same for bells |
| `XpollTable.Xpoll.AllocateFdRegIdx` | libxcm/core/xpoll.c:77-130 | always finds a free slot, growing the table if it has to, and ids keep their registrations |
| `XpollTable.Xpoll.RegEpollMod` | libxcm/core/xpoll.c:141-193 | the epoll set equals the registrations with a non-empty event; each operation issued is legal |
| `XpollTable.Xpoll.FdRegAdd` | libxcm/core/xpoll.c:195-214 | adds one entry under an unused id to the map of registrations |
| `XpollTable.Xpoll.FdRegMod` | libxcm/core/xpoll.c:227-235 | changes the event of one entry |
| `XpollTable.Xpoll.FdRegDel` | libxcm/core/xpoll.c:237-246 | removes one entry |
| `XpollTable.Xpoll.UpdateActiveFd` | libxcm/core/xpoll.c:322-339 | an active descriptor is held and registered exactly when there is a bell, and polled for input exactly when one rings |
| `XpollTable.Xpoll.BellRegAdd` | libxcm/core/xpoll.c:341-354 | adds one bell under an unused id, and keeps the above |
| `XpollTable.Xpoll.BellRegMod` | libxcm/core/xpoll.c:368-379 | changes one bell, and keeps the above |
| `XpollTable.Xpoll.BellRegDel` | libxcm/core/xpoll.c:381-392 | removes one bell, and keeps the above |
| `XpollTable.Xpoll.WhatIsPolled` | libxcm/core/xpoll.c:141-193 | every registration with a non-empty event, and the active descriptor while a bell rings, is in the epoll set with that event |
| `XpollTable.Xpoll.KeptByOthers` | libxcm/core/xpoll.c:322-339 | what other users do to the shared pool leaves this instance in order |
| `ActiveFd.GetKeepsInv` | libxcm/tp/common/active_fd.c:33-82 | taking a descriptor keeps the pool in order: counts between 1 and 100 that equal the numbers of holders |
| `ActiveFd.PutKeepsInv` | libxcm/tp/common/active_fd.c:84-107 | so does returning one |
| `ActiveFd.EveryRunKeepsPool` | libxcm/tp/common/active_fd.c:33-107 | counts between 1 and 100 that equal the numbers of holders, in every state of every interleaving of takes and returns by any number of users |
| `ActiveFd.ClosedByLastHolder` | libxcm/tp/common/active_fd.c:84-107 | a descriptor is closed exactly when its last holder returns it |
| `ActiveFd.ActiveFdPool.Take` | libxcm/tp/common/active_fd.c:33-82 | takes a step of the pool; the descriptor is open and pooled |
| `ActiveFd.ActiveFdPool.Return` | libxcm/tp/common/active_fd.c:84-107 | takes a step of the pool; the entry is always found |
| `TimerMgr.TimeSpecRoundsDown` | libxcm/core/timer_mgr.c:86-104 | the armed value is the expiry time rounded down to a nanosecond, with both fields in range |
| `TimerMgr.ArmedInTime` | libxcm/core/timer_mgr.c:86-104 | an expired time was armed no later than now, and never as all zeros, which would disarm |
| `TimerMgr.RemovedTimer` | libxcm/core/timer_mgr.c:135-140 | removing a list element removes exactly its id |
| `TimerMgr.Timers.UpdateEpoll` | libxcm/core/timer_mgr.c:106-128 | disarmed exactly when no timer is outstanding, otherwise armed at the minimum |
| `TimerMgr.Timers.Schedule` | libxcm/core/timer_mgr.c:142-165 | one new live id, never used by a live timer, with the right expiry time |
| `TimerMgr.Timers.Reschedule` | libxcm/core/timer_mgr.c:167-173 | the old id is replaced by a new one |
| `TimerMgr.Timers.HasExpired` | libxcm/core/timer_mgr.c:185-192 | true exactly when the time of a live timer has passed |
| `TimerMgr.Timers.TryCancel` | libxcm/core/timer_mgr.c:194-204 | removes the timer if it is live and tells whether it was |
| `TimerMgr.Timers.Ack` | libxcm/core/timer_mgr.c:213-221 | removes a live timer and clears the id |
| `TimerMgr.Timers.Destroy` | libxcm/core/timer_mgr.c:223-242 | no timer, registration or descriptor of the manager is left |
| `TimerMgr.Timers.ExpiredImpliesReadable` | libxcm/core/timer_mgr.c:86-128 | an expired outstanding timer implies a readable timer descriptor |
| `TimerMgr.Timers.ReadableImpliesDue` | libxcm/core/timer_mgr.c:86-128 | a readable timer descriptor implies an outstanding timer due within the nanosecond |
| `Control.RemovedClients` | libxcm/ctl/ctl.c:113-132 | swap-removal removes exactly one client, descriptor and registration, and keeps the others distinct and registered |
| `Control.RemoveKeepsTable` | libxcm/ctl/ctl.c:113-132 | removal keeps the table invariant, with the server descriptor polled again, and everybody else's registrations |
| `Control.AcceptKeepsTable` | libxcm/ctl/ctl.c:293-319 | so does accepting, with the server descriptor polled exactly while there is room |
| `Control.PollKeepsTable` | libxcm/ctl/ctl.c:233-291 | so does changing the pending flag and the event of a client together |
| `Control.OthersKeepTable` | libxcm/ctl/ctl.c:93-111 | the table is not disturbed by another owner of registrations in the same poll set who changes only what is its own |
| `Control.ClientsKeepOthers` | libxcm/ctl/ctl.c:233-338 | changes of the clients alone do not disturb the registrations and descriptors of that owner |
| `Control.Ctl.RemoveClient` | libxcm/ctl/ctl.c:113-132 | the table becomes the swap-removed one, valid again |
| `Control.Ctl.ProcessClient` | libxcm/ctl/ctl.c:233-291 | one call is made for the client and its answer decides what becomes of it; a served client is polled for output exactly when a response is pending; a failed one is the only one out of order |
| `Control.Ctl.AcceptClient` | libxcm/ctl/ctl.c:293-319 | the server descriptor is polled, and a client added exactly when one was accepted and the table stays valid |
| `Control.Ctl.Process` | libxcm/ctl/ctl.c:321-338 | the recursive loop ends; every client there was is attended to, and the server descriptor when there is room; n clients become at most min(n + 1, MAX), the table stays valid and others are undisturbed |
| `Control.Ctl.Destroy` | libxcm/ctl/ctl.c:134-161 | every client and the server descriptor are closed and deregistered, and nothing else |
| `TpSocket.ServedInTime` | libxcm/tp/common/xcm_tp.c:82-113 | over any series of calls the control interface goes unserved if and only if their weights stay within 256, a successful call weighing 1, one to be tried again 64 and one failed for good nothing |
| `TpSocket.ScheduleInNumbers` | libxcm/tp/common/xcm_tp.c:82-113 | 256 successful calls in a row, or four to be tried again, pass without service, and no more |
| `TpSocket.Socket.constructor` | libxcm/tp/common/xcm_tp.c:281-289 | a control interface added to a socket leaves both in order, owning different things in one poll set |
| `TpSocket.Socket.BtcpKept` | libxcm/tp/common/xcm_tp.c:74-80 | what the control interface does leaves the socket valid and the two apart |
| `TpSocket.Socket.CtlKept` | libxcm/tp/common/xcm_tp.c:193-231 | what the socket does leaves the control interface valid and the two apart |
| `TpSocket.Socket.ConsiderCtl` | libxcm/tp/common/xcm_tp.c:92-113 | the control interface is served exactly when the schedule says so, the counter follows it, both stay in order, and nothing of others changes |
| `TpSocket.Socket.Send` | libxcm/tp/common/xcm_tp.c:193-203 | send, control interface and update in turn: the send relation, the bytes, the schedule and the poll set as promised, both in order, others and other pool holders undisturbed |
| `TpSocket.Socket.Receive` | libxcm/tp/common/xcm_tp.c:205-215 | likewise for receive, where the end of the stream does not count for the schedule |
| `TpSocket.Socket.Finish` | libxcm/tp/common/xcm_tp.c:222-231 | likewise for finish |
| `TpSocket.Socket.Close` | libxcm/tp/common/xcm_tp.c:155-163 | nothing of the socket or its control interface is left in the poll set or open, and nothing else is gone |
| `StringList.JoinOfSplit` | common/slist.c:76-117 | joining undoes splitting for every text and every delimiter |
| `StringList.SplitOfJoin` | common/slist.c:76-117 | splitting undoes joining if and only if no element holds the delimiter, the list is not one empty string, and a NUL delimiter has at most one element |
| `StringList.JoinFits` | common/slist.c:76-99 | the joined text and its terminator fit the computed buffer, exactly so for a proper delimiter |
| `StringList.Slist.Join` | common/slist.c:76-99 | the returned buffer holds the joined text, terminated, in a buffer of exactly that size |
| `StringList.Split` | common/slist.c:101-117 | the list holds the pieces of the text |
| `StringList.Slist.Clone` | common/slist.c:18-27 | a separate list with the same elements |
| `StringList.Slist.Has` | common/slist.c:67-74 | tells whether the string is an element |

## Left out

- OpenSSL-driven code (the BTLS transport, certificate loading, the context store): its behaviour is that of a foreign library. So it is not shown that BTLS meets the relations of `Lower`, and its own rule for what to poll is not modelled.
- The resolver back ends (c-ares, glibc): foreign calls, replaced by the oracle in `Dns`.
- Socket options and TCP attributes, socket address layout, scope ids and interface lookups: only their success or failure is modelled.
- Address parsing and printing, attribute maps and tables, and the contents of control messages: they would add only easy members.
- The UX, SCTP and UTLS transports, and the server sockets of TCP and BTCP: thin mappings onto kernel sockets or delegation.
- The control interface of server sockets, and a socket without one (whose calls are those of `Btcp`).
- xcm_receive and xcm_accept in blocking mode: the same retry loop as the sends, around one call.
- xcm_cleanup after fork, where a process releases memory without closing what another one owns.
- Logging, tools, language bindings and the test programs.
- Memory is never exhausted, and the mutex around the descriptor pool is taken to serialize its operations, so that each take and each return is one step.
- TimerMgr.Timers.Schedule: does not model the wrap-around of ids, which the source passes through an int (libxcm/core/timer_mgr.c:144), nor the rounding of double-precision arithmetic.
- ActiveFd.ActiveFdPool.Take: does not model a failing eventfd call, on which the source aborts the process.
- XcmApi.XcmConn.SocketFinish: a finite number of polls stands for the endless loop; the case that poll is never interrupted and never makes progress is one of non-termination and has no outcome to describe.
- XcmApi.XcmConn.Await: a waiting poll is not modelled beyond its return; that it wakes up is what `TcpConn.Update` and `Btcp.UpdateWakesUp` state.
- TcpConnect.Tconnect.NoEarlyIpv4: speaks of the clock readings at which connects were issued, not of when the kernel sent the packets.
