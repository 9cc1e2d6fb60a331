# zpr: verified model of the gRPC message machinery

zpr gives Object Pascal programs a gRPC client and server through a C ABI. This project models the part that moves
messages, and proves in Dafny what that part promises: messages arrive whole, once and in order; every RPC is answered
exactly once; nothing is lost except where loss is the design, and then it is counted.

Every protocol is a state machine with one label per lock region, atomic update or host call. `Step` is total: a label
that is not possible in a state changes nothing. A schedule is any list of labels, so a lemma about
`Run(INIT, schedule)` speaks of every interleaving of the connection task, pump, reaper, host and peer, every chunking and
every sequence of buffer sizes. The objects the program updates in place are classes; each of their methods is
proved against the value function that the machine's step of the same name uses, so both speak of the same operation.

| file | component |
|---|---|
| `Bytes.dfy`, `Ffi.dfy`, `Channels.dfy` | bytes and chunks; the bounded copy; the library channels, with only the guarantees relied on |
| `Frames.dfy` | length-prefixed frames ("gRPC over HTTP2", section "Requests") and the append-then-drain decoder |
| `Inbound.dfy` | request body to host: pump, channel of 8, held-message slot |
| `Text.dfy` | text across the C boundary: read up to a NUL, taken if it is UTF-8 (section 4 of RFC 3629) |
| `Trailers.dfy`, `Outbound.dfy` | host to response body: channel of 8, `OutboundBody`, trailers ("Responses": Status-Message) |
| `CallTable.dfy`, `PendingLimit.dfy`, `CallQueues.dfy` | the queued server's call table: protocol, limit, object |
| `Shutdown.dfy` | winding the server up from any state |
| `Server.dfy` | the call table and one call's response run together |
| `ClientStream.dfy`, `Bidi.dfy` | the client's stream reader with its lossy ring; the bidirectional sender |
| `Tunnel.dfy` | the CONNECT scan (section 9.3.6 of RFC 9110, section 2.1 of RFC 9112) and the replaying stream |
| `Host.dfy` | the Pascal grow-and-retry loops and once-only completion |

How the steps of the call table map to the program: `Check` is the full-queue test (crates/zpr/src/grpc_server.rs:473-483),
`Load` and `Mint` the deadline load and id counter (485-486), `Insert` the map insertion with its clock reading (487-498),
`Push` the queue push (499); `Remove`, `SendHost`, `CountHost` are `zpr_grpc_call_complete` (873-880); `Arm`, `ReadClock`,
`Expire`, `SendReaper`, `CountReaper` one tick of `reap_loop` (616-645); `Accept` is one step because it counts under
the lock (730-745); `SetLimit` and `SetDeadline` are the two stores of a configure call (675-676); `Stop` joins the server
thread (1012-1020), whose runtime (569-578) waits for running regions and then drops every task with the response body it
owns; `Free` and `FreeOne` are `zpr_grpc_queue_free` (916-922).

## Where the code and its comments differ

The model follows the code.

- `live` is said to hold accepted calls (crates/zpr/src/grpc_server.rs:114); it is filled on arrival, and the deadline runs from
  arrival. So accepted = completed + reaped + live is not a law: `CallTable.CountersBalance` gives
  exactly when it holds, and `CallTable.Conservation` the laws that always do.
- New calls are said to be refused at `max_pending` (crates/zpr/src/grpc_server.rs:117); check and push are separate lock regions, so the limit can be
  exceeded. `PendingLimit` bounds by how much, and shows the bound is reached.
- Calls already accepted are said to keep their deadline (crates/zpr/src/grpc_server.rs:657-658); a deadline of 0 stops their reaping
  too (`CallTable.ZeroDeadlineReapsNothing`).
- A non-zero flag byte is meant to drop the connection's framing (crates/zpr/src/grpc_server.rs:244-245); it drops one buffer, and decoding goes on with
  later bytes. `Frames.ChunkIndependence` says exactly which streams still decode the same under every chunking.
- The final free is said to leave no client waiting on trailers (crates/zpr/src/grpc_server.rs:909-910); it runs after the stop, and
  by then the runtime has dropped every response body, so its UNAVAILABLE goes to nobody (`Server.FreeReachesNoClient`).
  While the server runs, whatever the host or the reaper answers can arrive (`Server.NoAnsweredClientLeftHanging`).
- Freeing a Pascal call object is said to complete the call if the host did not (pascal/Zpr.pas:323-338). A completion whose message is not
  UTF-8 up to its first NUL is refused by the library before it looks for the call (crates/zpr/src/grpc_server.rs:861-869), but the
  object already takes itself for completed and drops the return code (pascal/Zpr.pas:1791-1797), so its destructor does
  nothing. `Host.CompletedExactlyOnce` gives exactly when a call outlives its object, `Host.RefusedTextLeavesCallLive`
  an input, and `Server.NeglectedClientHangs` what it means for the client when no deadline is set.
- A failing request body is reported to the host as a finished client (`Inbound.BodyErrorLooksLikeEnd`);
  `Inbound.DoneMeansAllIffBodyExhausted` gives exactly when CLIENT_DONE means that everything arrived.
- The caller-buffer read is said to return 0 when the server finished cleanly (crates/zpr/src/grpc.rs:905-906); from a ring it returns 0
  for "empty so far" as well (954-958). `ClientStream.ZeroMeansEmptyOrFinished` gives exactly when.
- Buffering twice is called "idempotent-ish" (crates/zpr/src/grpc.rs:989-990); it is an error that changes nothing (`ClientStream.SwitchIsOneWay`).
- A too-large CONNECT head is cut off by bytes read, not by head size: between 16386 and 16896 bytes the chunking decides
  (`Tunnel.ChunkingDecidesBetween`).

## Model

| member | source | states |
|---|---|---|
| Frames.DecodeInvertsEncode | crates/zpr/src/grpc_server.rs:239-263 | A decode yields message m and leaves rest if and only if the buffer is m's encoding followed by rest and m is shorter than 2^32 bytes |
| Frames.EncodeLayout | crates/zpr/src/grpc_server.rs:257-263 | The Length-Prefixed-Message on the wire: flag 0, four length bytes, most significant first, the message |
| Frames.DecodeOutcome | crates/zpr/src/grpc_server.rs:239-255 | Exactly when an attempt to decode wants more bytes, meets a non-zero flag, or yields a frame, and which |
| Frames.RoundTripExactlyBelowLimit | crates/zpr/src/grpc_server.rs:257-263 | The 32-bit length cast makes 2^32 the exact limit: a message survives encode and decode iff it is shorter |
| Frames.ChunkIndependence | crates/zpr/src/grpc_server.rs:239-255 | Every chunking of a byte stream decodes to the same messages and residue if and only if the stream meets no non-zero flag with more than a header behind it |
| Frames.DrainSplits | crates/zpr/src/grpc_server.rs:363-369 | Draining in two instalments, keeping the residue in between, equals draining at once |
| Frames.ResidueHoldsNoFrame | crates/zpr/src/grpc_server.rs:365-369 | What a drain leaves behind never contains a complete frame |
| Frames.DrainOfEncoded | crates/zpr/src/grpc_server.rs:239-263 | Encoded messages followed by an incomplete tail drain to exactly those messages and that tail |
| Frames.DrainTakesEncodings | crates/zpr/src/grpc_server.rs:239-255 | For any bytes, what a drain removes as frames is exactly the encoding of the messages it returns |
| Frames.DrainOfPrefix | crates/zpr/src/grpc_server.rs:357-376 | However a stream of whole frames is cut short, what decodes is a prefix of what was sent, and all of it if it was not cut |
| Frames.FrameBuffer.TryDecodeOne | crates/zpr/src/grpc_server.rs:239-255 | The in-place decoder does what the inverse of the encoder says, and discards the buffer on a non-zero flag |
| Ffi.CopyInto | crates/zpr/src/ffi.rs:122-143 | The copy is all or nothing: the whole message, or an untouched buffer and the true length |
| Inbound.ReadConserves | crates/zpr/src/grpc_server.rs:766-800 | One host read moves at most one message, to the host or into the slot, never out of order; a short buffer keeps the message and reports its size |
| Inbound.ReadOutcome | crates/zpr/src/grpc_server.rs:774-799 | Exactly which code, length and slot a read leaves, from the message next in line, the buffer and whether the sender is gone |
| Inbound.InboundFidelity | crates/zpr/src/grpc_server.rs:357-376 | For every message list, chunking, interleaving and buffer sizes, the host has been handed a prefix of the client's list; CLIENT_DONE only after everything forwarded was delivered, and after everything sent if the whole body arrived |
| Inbound.CanAlwaysFinish | crates/zpr/src/grpc_server.rs:357-376 | No reachable state is stuck: some continuation delivers the whole list and then reports the end |
| Inbound.WholeListCanArrive | crates/zpr/src/grpc_server.rs:357-376 | After any schedule without removal or body error the host can still be handed the client's whole list, and then the end |
| Inbound.DoneIsStable | crates/zpr/src/grpc_server.rs:782-798 | Once reported, CLIENT_DONE is the answer of every read until the call is removed |
| Inbound.HeldIsStable | crates/zpr/src/grpc_server.rs:774-793 | Whatever the other parties do between two reads, the slot is unchanged, or the call is gone |
| Inbound.LiveUntilRemoved | crates/zpr/src/grpc_server.rs:769-772 | A call is live exactly until it is removed |
| Inbound.DoneMeansAllIffBodyExhausted | crates/zpr/src/grpc_server.rs:357-376 | Over every list, cut, chunking and interleaving: after CLIENT_DONE the host has the whole list if and only if the pump had taken the whole body and the body was the client's whole stream |
| Inbound.BodyErrorLooksLikeEnd | crates/zpr/src/grpc_server.rs:372-373 | Wherever the body fails, an ordinary CLIENT_DONE follows, and messages are missing if and only if part of the client's stream was outstanding |
| Inbound.PumpInbound | crates/zpr/src/grpc_server.rs:357-376 | For any body, well-framed or not, the pump forwards what its chunks decode to, in order, and all of it unless the receiver went away |
| Inbound.ForwardDecoded | crates/zpr/src/grpc_server.rs:365-369 | The decode-and-send loop sends the drained messages in order while the host consumes at any pace |
| Text.TextIsWholeIff | pascal/Zpr.pas:1842-1842 | Text read up to a NUL is what was put there if and only if it holds no NUL and nothing readable follows it |
| Text.ValidUtf8Exact | crates/zpr/src/ffi.rs:177-182 | The validity test for text from the host accepts exactly the UTF-8 encodings of sequences of Unicode scalar values |
| Text.RefusedIffUnreadable | crates/zpr/src/grpc_server.rs:861-869 | A completion's message is refused if and only if what precedes its first NUL encodes no sequence of scalar values; otherwise just that is received |
| Text.TextIsReceived | crates/zpr/src/ffi.rs:177-182 | Every text without a NUL is received whole, whatever follows a NUL behind it |
| Trailers.PercentRoundTrip | crates/zpr/src/grpc_server.rs:268-278 | A percent-decoder (section 2.1 of RFC 3986) recovers every status message |
| Trailers.PercentEncodeInjective | crates/zpr/src/grpc_server.rs:268-278 | Distinct messages have distinct encodings |
| Trailers.PercentEncodeShape | crates/zpr/src/grpc_server.rs:268-278 | The encoding is printable ASCII, exactly two bytes longer per escaped byte, hence one to three times the length |
| Trailers.PlainIffKept | crates/zpr/src/grpc_server.rs:268-278 | Exactly the messages of printable ASCII without a percent sign travel unchanged |
| Trailers.PercentEncodeMessage | crates/zpr/src/grpc_server.rs:268-278 | The encoding loop produces header-safe text that decodes to its input |
| Trailers.TrailersCarryStatus | crates/zpr/src/grpc_server.rs:280-289 | Trailers carry the code, and a message exactly when there is one, from which the text is recovered |
| Trailers.TrailersInjective | crates/zpr/src/grpc_server.rs:280-289 | Equal trailers mean equal answers |
| Outbound.OutboundFidelity | crates/zpr/src/grpc_server.rs:316-352 | Over every interleaving the connection gets accepted writes as data frames in order, then, only after all of them, one trailers frame with the status of the party that removed the call |
| Outbound.AnswerIsFinal | crates/zpr/src/grpc_server.rs:872-881 | The first removal settles party, status and accepted writes for good |
| Outbound.SilentAfterTrailers | crates/zpr/src/grpc_server.rs:348-348 | After the trailers nothing is ever emitted again |
| Outbound.EndOnlyAfterTrailers | crates/zpr/src/grpc_server.rs:328-350 | In every reachable state a poll answers the end of the body if and only if the trailers have been handed over |
| Outbound.WriteAcceptedIff | crates/zpr/src/grpc_server.rs:833-839 | A write is taken exactly while the call is live, its client there and fewer than 8 are waiting; otherwise nothing changes |
| Outbound.StatusNeverPolledTwice | crates/zpr/src/grpc_server.rs:337-347 | The status receiver is not polled again once it was ready |
| Outbound.ClientDecodesTheWrites | crates/zpr/src/grpc_server.rs:331-333 | The response data decodes to exactly the writes emitted, with nothing left over, and to all of them once trailers are out |
| Outbound.AnsweredCallFinishes | crates/zpr/src/grpc_server.rs:326-351 | Once a party has removed the call the response can be driven to its trailers with nothing missing |
| Outbound.OutboundBody.Poll | crates/zpr/src/grpc_server.rs:326-351 | From the channels and phase at entry: exactly when it is pending, when it is the end of the body and which data frame it returns; the loop terminates by a falling state rank, never polls a spent status receiver, and does what the protocol's rounds do |
| Outbound.PollIsARun | crates/zpr/src/grpc_server.rs:328-350 | A whole poll is at most two rounds of the protocol and emits exactly what it returns |
| CallTable.ExactlyOneAnswer | crates/zpr/src/grpc_server.rs:485-499 | Every minted id is in exactly one place; no status is sent twice; after the final free has drained the table every id has its status |
| CallTable.Conservation | crates/zpr/src/grpc_server.rs:730-745 | In every reachable state: every arrival is refused, on its way to an id, or has one; every id is on its way to the queue, waiting or accepted; and not yet inserted, live, being answered or counted in one of three ways. With nothing in flight accepted + pending = completed + reaped + live + freed |
| CallTable.CountersBalance | crates/zpr/src/grpc_server.rs:110-138 | In every reachable state, exactly when accepted = completed + reaped + live; with nothing in flight before the free, exactly when nothing is waiting |
| PendingLimit.CountersComeApart | crates/zpr/src/grpc_server.rs:110-138 | For every n a run ends with nothing in flight and accepted n short of completed + reaped + live |
| CallTable.RegisteredBeforeVisible | crates/zpr/src/grpc_server.rs:487-499 | Waiting and accepted ids are distinct, in push order, and each is live, being answered or answered |
| CallTable.ShortAcceptKeepsFront | crates/zpr/src/grpc_server.rs:730-745 | A too-small accept buffer changes neither contents nor order, and a retry of the reported size gets the same call whatever happened in between |
| CallTable.DeadlineBound | crates/zpr/src/grpc_server.rs:616-633 | If the last sweep is at most P old no live call is P past its stamp; the reaper never answered a call before its stamp |
| CallTable.LifetimeBound | crates/zpr/src/grpc_server.rs:485-497 | While every deadline in force, 0 counting as 2^62 - 1 ms, lies between lo and hi, a live call is younger than hi plus the age of the last sweep, and none is reaped younger than lo |
| CallTable.StampIsFixed | crates/zpr/src/grpc_server.rs:495-497 | The expiry stamped on arrival is never changed by any reconfiguration |
| CallTable.ZeroDeadlineReapsNothing | crates/zpr/src/grpc_server.rs:616-618 | While the deadline is 0 nothing is reaped, not even calls already stamped |
| CallTable.SweepRemovesExactlyExpired | crates/zpr/src/grpc_server.rs:619-633 | An undisturbed sweep removes exactly the calls whose expiry has come |
| CallTable.OverdueCallIsSwept | crates/zpr/src/grpc_server.rs:616-633 | With a deadline in force an idle reaper takes out any live call once its stamp has passed |
| CallTable.UndisturbedArrival | crates/zpr/src/grpc_server.rs:473-499 | An arrival at a queue with room is live under the next id for the lifespan of the deadline in force (2^62 - 1 ms if that is 0) and last in line |
| Shutdown.CanAlwaysWindUp | crates/zpr/src/grpc_server.rs:909-923 | No reachable state is stuck: with nobody new arriving, the parties' own steps wind the server up, and then everyone who ever arrived was refused or has been sent a status |
| PendingLimit.OvershootIsBounded | crates/zpr/src/grpc_server.rs:473-499 | With at most k arrivals in flight and no limit above L, waiting plus in-flight never exceeds L - 1 + k |
| PendingLimit.SequentialArrivalsRespectLimit | crates/zpr/src/grpc_server.rs:473-499 | Arrivals handled one at a time never exceed the limit |
| PendingLimit.OvershootIsReached | crates/zpr/src/grpc_server.rs:473-499 | For every limit and k some run with at most k arrivals in flight ends with L - 1 + k waiting |
| CallQueues.EndAll | crates/zpr/src/grpc_server.rs:637-645 | Every call of a batch is answered and every other call is untouched |
| CallQueues.CallQueue.constructor | crates/zpr/src/grpc_server.rs:153-168 | A fresh queue is the protocol's initial one: ids from 1, limit 1024, deadline 30000 ms |
| CallQueues.CallQueue.CheckDoor | crates/zpr/src/grpc_server.rs:473-483 | An arrival is refused exactly when the queue is full, and only then counted as refused |
| CallQueues.CallQueue.HandleQueued | crates/zpr/src/grpc_server.rs:457-507 | An undisturbed arrival at a full queue gets RESOURCE_EXHAUSTED trailers and leaves only its count; any other is registered under a fresh id with fresh channels and a body listening to them |
| CallQueues.CallQueue.Accept | crates/zpr/src/grpc_server.rs:719-746 | 1 with the first call in line and its whole path if that fits; otherwise the queue exactly as it was, with 0, or with -2 or -1 and the path's length |
| CallQueues.CallQueue.ReadInto | crates/zpr/src/grpc_server.rs:752-801 | The next request message, held if it does not fit; no other call and no counter changes |
| CallQueues.CallQueue.Write | crates/zpr/src/grpc_server.rs:808-842 | The write is queued, refused as full, or fails because the client is gone or the call is not live |
| CallQueues.CallQueue.Complete | crates/zpr/src/grpc_server.rs:850-883 | If what precedes the first NUL of the message encodes Unicode text, a live call is removed, answered with that text and counted once; any other message, and an id that is not live, is refused and changes nothing |
| CallQueues.CallQueue.Configure | crates/zpr/src/grpc_server.rs:659-679 | A zero limit is refused and changes nothing; otherwise both limits take the new values |
| CallQueues.CallQueue.TakeExpired | crates/zpr/src/grpc_server.rs:621-633 | The locked part of a sweep takes out exactly the expired calls |
| CallQueues.CallQueue.AnswerExpired | crates/zpr/src/grpc_server.rs:619-645 | Exactly the expired calls are removed, answered DEADLINE_EXCEEDED and counted |
| CallQueues.CallQueue.Sweep | crates/zpr/src/grpc_server.rs:610-649 | A tick with a zero deadline changes nothing at all; otherwise it answers the expired calls and no others |
| CallQueues.CallQueue.Free | crates/zpr/src/grpc_server.rs:912-923 | Every call still live is answered UNAVAILABLE and none is left |
| Server.ClientSeesTheAnswer | crates/zpr/src/grpc_server.rs:316-352 | Whole table and one call together: the response ends only once the table has the call as answered, after every accepted write, in trailers with the status the host gave in the step that completed the call, or the reaper's DEADLINE_EXCEEDED, never the final free's |
| Server.LiveCallTakesWrites | crates/zpr/src/grpc_server.rs:820-839 | A host write is accepted exactly while the table has the call live, its client is there and fewer than 8 are waiting |
| Server.NoAnsweredClientLeftHanging | crates/zpr/src/grpc_server.rs:872-881 | From every reachable state, a call taken out while its response body is there can be taken to its trailers, with nothing missing, by polls and the answering party's own remaining steps alone |
| Server.NeglectedClientHangs | crates/zpr/src/grpc_server.rs:599-618 | With the deadline at 0, a live call that its host does not complete gets no trailers from anyone, whatever else happens |
| Server.FreeReachesNoClient | crates/zpr/src/grpc_server.rs:909-923 | After the stop nothing more is emitted: a client ends up with trailers if and only if it had them at the stop, and none gets the final free's answer |
| Server.HungUpIsSilent | crates/zpr/src/grpc_server.rs:316-352 | A client that hung up is given nothing more, whatever happens |
| ClientStream.OneQueuePosition | crates/zpr/src/grpc.rs:847-888 | Both read calls share one position: unbuffered deliveries are a prefix of the wire, and what was taken before the switch, the held message included, is delivered in order before any ring message |
| ClientStream.PullReadOutcome | crates/zpr/src/grpc.rs:859-868 | Exactly what an unbuffered read answers: 1 with the next message of the wire while there is one, then 0 after a clean end and -1 after a failure |
| ClientStream.SwitchIsOneWay | crates/zpr/src/grpc.rs:1004-1029 | A second buffer call is refused and changes ring, counters and held message in nothing; the drop counter only grows |
| ClientStream.RingConservation | crates/zpr/src/grpc.rs:1036-1062 | Taken off the wire = delivered + held + waiting + dropped; the ring is the newest stretch within capacity; deliveries strictly increase in wire position |
| ClientStream.DroppedCountsTheLost | crates/zpr/src/grpc.rs:1040-1045 | The drop counter is exactly the number of positions overtaken, none of them from before the switch |
| ClientStream.ConservationSinceSwitch | crates/zpr/src/grpc.rs:923-974 | Since buffering began: received = delivered from the ring + held from it + depth + dropped |
| ClientStream.RoomIffNoDrop | crates/zpr/src/grpc.rs:1040-1045 | Over any run nothing is dropped exactly when every message the pump takes finds the ring below capacity |
| ClientStream.RingRefinesFifo | crates/zpr/src/grpc.rs:859-882 | The ring is a plain queue if and only if every push found room, and then the host got what the unbuffered reader would have given |
| ClientStream.ZeroMeansEmptyOrFinished | crates/zpr/src/grpc.rs:945-960 | In ring mode 0 is answered exactly when nothing is held or waiting and no failure was met, whether or not the stream has ended; the error exactly when a drained ring's pump met a failure |
| ClientStream.EndIsSticky | crates/zpr/src/grpc.rs:945-960 | Once the pump has stopped and the ring is drained, every later read gives the same 0 or the same error, and nothing more |
| ClientStream.ZeroIsNotTheEnd | crates/zpr/src/grpc.rs:954-958 | After a 0 the next message can still come whenever the wire holds one |
| ClientStream.Ring.PumpOnce | crates/zpr/src/grpc.rs:1036-1061 | One pump round keeps the newest messages, counts the discarded one, and stops at end or failure |
| ClientStream.GrpcClientStream.Read | crates/zpr/src/grpc.rs:839-889 | The allocating read hands over the next message in line, held, wire or ring, with 1, and exactly when it answers 0 or -1 instead |
| ClientStream.GrpcClientStream.ReadInto | crates/zpr/src/grpc.rs:910-975 | The caller-buffer read hands over the next message whole with 1, or holds it, leaves the buffer untouched and reports its size, with -2 exactly when it is longer than the buffer |
| ClientStream.GrpcClientStream.Buffer | crates/zpr/src/grpc.rs:992-1029 | Buffering starts once, with a non-zero capacity and an empty ring of just that capacity, and otherwise changes nothing |
| ClientStream.GrpcClientStream.Stats | crates/zpr/src/grpc.rs:1076-1102 | Depth and drops of the ring, zeroes when unbuffered |
| Bidi.SendsArriveInOrder | crates/zpr/src/grpc.rs:571-603 | The server is given exactly the accepted sends in order, at most a window outstanding, and sees the end only after all of them |
| Bidi.SendOutcome | crates/zpr/src/grpc.rs:589-601 | In every reachable state: 1 and the message queued exactly if fewer than a window are outstanding, 0 exactly if a full window is, -1 if the half is closed or the server gone; only 1 changes anything |
| Bidi.CloseSendReachesServer | crates/zpr/src/grpc.rs:618-622 | After half-close the server's next polls give it every accepted send and then the end |
| Bidi.ClosedHalfStaysClosed | crates/zpr/src/grpc.rs:613-623 | After half-close no send is ever accepted |
| Bidi.HungUpForGood | crates/zpr/src/grpc.rs:597-600 | Once the server has hung up every send fails and changes nothing |
| Bidi.GrpcBidiStream.Send | crates/zpr/src/grpc.rs:580-602 | Exactly when a send is queued (1), refused as full (0) or fails (-1), and that only the first changes the channel |
| Tunnel.HeadEndFinds | crates/zpr/src/grpc.rs:220-222 | The scan finds the end of the first CRLFCRLF, and only that |
| Tunnel.TerminatorIsCrlfCrlf | crates/zpr/src/grpc.rs:220-220 | The terminator looked for is the text CR LF CR LF |
| Tunnel.ScanExact | crates/zpr/src/grpc.rs:212-226 | For every outcome of every read: the head is found iff its end arrived before any end of file or error and no earlier read ended beyond the limit; head and surplus are the stream cut at that end; otherwise which failure |
| Tunnel.ScanBounds | crates/zpr/src/grpc.rs:212-226 | A head ending by byte 16385 is found under every chunking, one ending after byte 16896 under none |
| Tunnel.ChunkingDecidesBetween | crates/zpr/src/grpc.rs:223-225 | For every head between those bounds one chunking finds it and another refuses it |
| Tunnel.ScanEnds | crates/zpr/src/grpc.rs:214-226 | At most 16385 reads that bring bytes |
| Tunnel.ScanHead | crates/zpr/src/grpc.rs:212-226 | The loop decides as the scan does and never holds more than 16896 bytes |
| Tunnel.ConnectExact | crates/zpr/src/grpc.rs:212-235 | Exactly when the handshake succeeds, and when the proxy's answer is refused, for every chunking, end of file and error |
| Tunnel.TunnelFidelity | crates/zpr/src/grpc.rs:171-181 | Reads of an established tunnel yield exactly the bytes after the first CRLFCRLF, none lost or repeated at the join |
| Tunnel.TunnelDelivers | crates/zpr/src/grpc.rs:171-181 | As many reads with room as there are bytes left, from a socket that yields, deliver every byte after the head |
| Tunnel.PrefixedStream.Read | crates/zpr/src/grpc.rs:171-181 | Each read takes its bytes off the front of what remains, surplus first and as much of it as there is room for; without surplus it is empty only if the room, the socket's yield or the rest is |
| Host.ReadMessage | pascal/Zpr.pas:1750-1779 | Two native calls exactly if the next message is longer than 65536 bytes, else one; on success the whole message that was next in line, whatever others do in between; "not yet" and "client done" only when none was |
| Host.AcceptCall | pascal/Zpr.pas:1820-1842 | Two native calls exactly if the first path is longer than 512 bytes, else one; the call that was first in line with its whole path, and exactly when the method name read from that buffer is the path |
| Host.CompletedExactlyOnce | pascal/Zpr.pas:1741-1748 | Over every list of completions with other parties in between and the destructor at the end: the library is told exactly once, and the call outlives its object if and only if nobody else took it out and the message of that one status was refused |
| Host.FreeingCompletes | pascal/Zpr.pas:334-338 | Freeing an object never completed answers its live call |
| Host.RefusedTextLeavesCallLive | pascal/Zpr.pas:1791-1797 | After one completion with a message that is not UTF-8, the call is still live and unanswered when the object has been freed |
| Host.GrpcCall.Complete | pascal/Zpr.pas:1791-1797 | Only the first completion reaches the queue; it answers the call if it is live and the message is accepted, and spends the object either way; no other call's channels change |
| Host.GrpcCall.Destroy | pascal/Zpr.pas:1741-1748 | Freeing an object with no completion answers UNAVAILABLE; otherwise it, like every other call's channels, is left as it is |

## Left out

- Sockets, HTTP/2, TLS, task scheduling and wakers, server threads and accept loops.
- The callback server mode (`handle`, `GrpcTrampoline`): foreign calls over the same pump and response body.
- Raw pointers (except the null output of the copy), buffer allocation and free, panic guard, last-error text, lock poisoning; null out-parameters other than that.
- Protobuf and JSON conversion, the HTTP client, transcoding, channel cache, proxy resolution, metadata.
- The width of `usize`: with 32 bits, which pascal/Zpr.pas:493 allows, 5 + length wraps for a length field of 2^32 - 5 or more (crates/zpr/src/grpc_server.rs:249-250); the decoder's lemmas are for a wider host.
- Wrap-around of the 64-bit id and counters after 2^64 calls; times are natural numbers of milliseconds advanced by a tick.
- Tunnel.ConnectExact: the judgement of the status line is a parameter, because it goes through the library's Unicode whitespace and lossy decoding; the lemmas hold for every judgement.
- Host.AcceptCall: the path is turned into a string through a pointer that is read up to a NUL (pascal/Zpr.pas:1842), and nothing writes one: a path over 512 bytes fills its buffer exactly. The bytes after the buffer are a parameter, and the contract says when the name is right; the decoding of UTF-8 is not modelled.
- Server.ClientSeesTheAnswer: joins the table with the response of one call; the request side of that call is proved separately in `Inbound`, with removal as a step.
- The digits of `grpc-status` and the texts of the reaper's and the final free's answers; texts are parameters.
- The pump's exit when the client handle is dropped: nobody can read the ring any more.
- A failing pull is repeatable in the model; what the library answers after a stream has failed is not modelled.
- The status sender is an optional field in the program; in the model a live call always still has it, and sending twice is excluded by proof.
