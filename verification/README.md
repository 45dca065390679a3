# The packet path and the configuration logic of the ovbox client

This project models the part of the client that moves audio packets between the devices of a
session, and the part that keeps a running session in step with its configuration.

* **Sequence numbers and reordering** (`Wire`, `Buffers`, `Sorter`, `SorterRuns`, `LossCounter`,
  `LossyStreams`, `Receiver`, `Delivery`). A sender numbers its messages per destination port with
  16-bit numbers. The receiver's sorter holds back at most one message that seems to have overtaken
  another one, and counts received, lost and misplaced messages. `Sorter` is the sorter on values,
  `Receiver` the same with buffers updated in place and a message pointer that is redirected to
  them. `SorterRuns` and `LossCounter` say what holds over every run with arbitrary arrivals,
  `Delivery` what is delivered for every schedule of neighbour swaps, from `packmsg` to
  `process_msg`, and `LossyStreams` exactly when streams that lose messages without being reordered
  are delivered as they arrive.
* **The TCP tunnel** (`Tunnel`). Datagrams are framed by a length and carried over sockets that
  transfer arbitrary pieces, ask to be retried, fail or end.
* **Session and audio** (`Settings`, `Reconcile`, `RenderBackend`). Setters decide by comparison
  whether a running session has to be restarted; a configuration is a fixed sequence of such calls.
  A snapshot of the settings the session and the device audio was started with, and a log of all
  starts and stops, make it possible to say that no necessary restart is forgotten and no
  unnecessary one is made.
* **Peers and routing** (`Endpoints`, `Routing`, `Ping`). Registrations, pings and status checks
  lead to announcements of new and lost connections; every local packet is copied to a set of
  recipients, encrypted where both sides can. Pings are answered in place in the receive buffer.
* **Statistics and configuration data** (`PingStat`, `Reports`, `JsonMerge`, `Plugins`).

Objects whose methods change them are classes; each method is tied to a function on values or to a
history kept in a ghost field, and the lemmas are about those. `Numbers` has the integer widths and
the conversions to 16 and 64 bits.

## What the code does differently from what one might expect

* A held message and the next one of its stream are compared as plain integers, while their
  numbers are modular. At the 16-bit boundary a message can therefore overtake the held one
  (`SorterRuns.OvertakenAtBoundary`). `SorterRuns.HeldPairOrderedIff` gives the exact condition.
* The comment at src/ovboxclient.h:50-52 says that a missing message can be fitted in if it
  arrives within a certain time. There is no such time: a timeout of the socket does not empty the
  sorter, only the next message of any stream does.
* The `lost` counter adds `difference - 1` for every message that moves. If messages are swapped at
  the very start or end of a stream, nothing is missing but the counter drops below zero and wraps
  to a huge number (`Delivery.LostCounterUnderSwaps`, with the exact condition). Reports hide
  this, as an increase of more than 2^30 is reported as 0.
* After every gap the sorter holds a message back, also if messages are only lost and never
  reordered. A second gap right after the first drops a message that did arrive: of 1, 3, 5 only 1
  is delivered and 3 is gone (`LossyStreams.EveryGapOverwrites`). `LossyStreams.LossyKeptIff` says
  exactly when nothing is dropped or misplaced.
* The encryption state counts active peers that are not sent anything. It can be 1 although the
  only copy that is sent is encrypted (`Routing.SilentPeerLowersState`); `Routing.FullStateIff` and
  `Routing.SealedMeansFullState` say exactly when it is 2. An encrypted copy that does not fit is
  sent as an empty datagram (`Routing.CopiesHaveContent`, `Routing.FullMessageSentEmpty`).
* A ping that is answered only after a report stays reported as lost, if the next report has more
  answers than new pings (`Reports.LateAnswerReportedTwice`). By `Reports.PingReporter.Update` the
  reported losses are the unanswered pings plus exactly this surplus of answers over all reports.
* Channel ids do not take part in the comparison of settings, and one manual audio device is
  exchanged for another without restarting anything.
* Merging two configuration updates beforehand can differ from merging them one after the other, in
  two ways: a null of the earlier one removes something that the later one does not replace
  (`JsonMerge.NullBreaksAssociativity`), or a leaf of the configuration keeps the earlier one from
  being merged and the later one replaces what clashes with it
  (`JsonMerge.ClashBreaksAssociativity`). `JsonMerge.MergeOrderIff` says exactly when the two ways
  agree, failures included, for any three trees.
* A repeated update changes nothing in the configuration (`JsonMerge.MergeAbsorbs`). It restarts
  nothing either, if the audio restart flag is not set (`Reconcile.ConfiguredIdempotent`); with the
  flag set, every repetition restarts the session (`Reconcile.RestartFlagRestarts`).
* `cid_setpingtime` is not called anywhere in the repository; it is modelled as defined.

## Model

| member | source | states |
|---|---|---|
| Wire.PacketRoundTrip | src/common.h:142-247 | the accessors read back secret, sender, port, signed number and payload of every packed message |
| Wire.PacketLayout | src/common.h:142-247 | byte by byte: secret, sender, port and number, each with its least significant byte first, then the payload |
| Wire.PackMsg | src/common.cc:66-78 | the packet is exactly the prefix of the buffer, the rest is untouched; 0 and no write if it does not fit |
| Wire.AddMsg | src/common.cc:80-87 | appends to what is in the buffer and touches nothing else; 0 and no write if it does not fit |
| Buffers.MsgBuf.constructor | src/udpsocket.cc:628-633 | an empty, invalid buffer of its own |
| Buffers.MsgBuf.Copy | src/udpsocket.cc:635-644 | the copy is valid exactly if the source is, and has its sender id, port, number, size and bytes |
| Buffers.MsgBuf.Unpack | src/udpsocket.cc:660-671 | valid exactly if the length covers a header and fits the buffer; the fields are those in the bytes |
| Buffers.MsgBuf.Pack | src/udpsocket.cc:651-658 | pack then unpack restores every field and the payload, and is valid exactly if header and payload fit |
| Buffers.Socket.NextNumber | src/udpsocket.cc:388-394 | a data message gets the count of messages packed for its port so far, modulo 2^16; control ports get 0 |
| Buffers.Socket.PackMsg | src/udpsocket.cc:385-395 | what is packed carries the given payload under the session's secret, the own id, the given port and the next number; the rest of the buffer is untouched; a message that does not fit still uses up a number |
| Buffers.Socket.Receive | src/udpsocket.cc:433-447 | a datagram is accepted if and only if it has a header and its first four bytes are the session's secret; all fields are those of its first BUFSIZE bytes |
| Receiver.MessageSorter.constructor | src/ovboxclient.h:73-77 | a new sorter knows no numbers, holds nothing and has counted nothing |
| Receiver.MessageSorter.Deliver | src/ovboxclient.cc:711-713 | a delivered message advances the output number of its stream and is checked against it |
| Receiver.MessageSorter.Enroll | src/ovboxclient.cc:685-692 | arrival is booked and both differences are 16-bit distances to the previous input and output numbers |
| Receiver.MessageSorter.ReleaseNew | src/ovboxclient.cc:699-714 | redirects the caller's pointer to the held message and parks the new one, or releases the new one |
| Receiver.MessageSorter.ProcessNew | src/ovboxclient.cc:677-715 | one call on a valid message, with both buffers and the caller's, refines the sorter on values |
| Receiver.MessageSorter.Process | src/ovboxclient.cc:675-731 | every call, also with the pointer redirected to an internal buffer, refines the sorter on values; what the pointer refers to afterwards is not valid |
| Receiver.Client.ProcessMsg | src/ovboxclient.cc:432-434 | the buffer is released and its message handled once |
| Receiver.Client.HandleNext | src/ovboxclient.cc:370-371 | one turn of the loop: the message is handled, the next call releases another one that was waiting or ends the loop |
| Receiver.Client.Drain | src/ovboxclient.cc:368-372 | the pointer-to-pointer loop terminates and handles exactly the batch of the received message |
| Receiver.Client.Sendsrv | src/ovboxclient.cc:361-374 | for all receptions and timeouts, what is handled is what the sorter on values delivers for the accepted messages |
| Receiver.AcceptedNext | src/udpsocket.cc:433-447 | of everything received, exactly the datagrams of the session are handed on, with the fields of their bytes and in their order |
| Receiver.ForeignIgnored | src/udpsocket.cc:439-444 | a timeout, a short datagram or one with another secret, wherever it comes, changes neither the deliveries nor any counter |
| SorterRuns.ReceiveForm | src/ovboxclient.cc:366-373 | the drain loop for one message in closed form: book in, then book out all that is released |
| SorterRuns.ReceiveQuiet | src/ovboxclient.cc:366-373 | at most two deliveries per message; the second buffer is empty again, the first holds the new message exactly after a gap |
| SorterRuns.RunInvariant | src/ovboxclient.cc:675-731 | in every reachable state between receptions the second buffer is empty, a held message carries the last input number and is more than 1 ahead of the output; maps and counters agree with the lists of arrivals and deliveries |
| SorterRuns.NextMessage | src/ovboxclient.cc:675-731 | the law of the next message in terms of past arrivals and deliveries alone: held, released, or released with the held one, and in which order |
| SorterRuns.ControlPassesThrough | src/ovboxclient.cc:677-684 | a message for a port up to 12 is delivered at once, before a held one, and changes no count of arrivals |
| SorterRuns.DataIsCounted | src/ovboxclient.cc:685-688 | every message for another port is counted as received, for its sender only |
| SorterRuns.HeldIsLast | src/ovboxclient.cc:694-698 | a held message is always the very last arrival, so the next valid message replaces or releases it |
| SorterRuns.Conservation | src/ovboxclient.cc:694-730 | over every run arrivals are, as a multiset of whole messages, delivered plus held plus overwritten ones |
| SorterRuns.CountersOverRuns | src/ovboxclient.cc:685-729 | over every run the four counters are, modulo 2^64, data messages, skipped numbers, modular descents in order of arrival and in order of delivery |
| SorterRuns.HeldPairInOrder | src/ovboxclient.cc:690-730 | without a 16-bit boundary a held message and the next of its stream leave in order of their numbers, unless a further gap replaces the held one |
| SorterRuns.HeldPairOrderedIff | src/ovboxclient.cc:700-702 | whenever the new one leaves no gap, they leave in modular order if and only if the plain comparison agrees with the modular one |
| SorterRuns.OvertakenAtBoundary | src/ovboxclient.cc:700-702 | for all messages with these numbers, 32768 overtakes the held 32767 |
| LossCounter.LossIsSumOverPorts | src/ovboxclient.cc:688-692 | a sender's loss is the sum of the losses on its 2^16 ports |
| LossCounter.StreamLossTelescopes | src/ovboxclient.h:60-66 | on a stream with steps below 2^15 the wrapped differences add up to last minus first unwrapped number, less the arrivals that moved |
| LossCounter.LostCounterTelescopes | src/ovboxclient.cc:685-692 | after every run the counter is that sum over all ports, modulo 2^64 |
| LossCounter.StreamLossCountsMissing | src/ovboxclient.cc:688-692 | in any order without immediate repeats, the loss is the numbers spanned less the messages that came |
| LossCounter.CompleteStreamsLoseNothing | src/ovboxclient.cc:688-692 | the counter is 0 if every stream is complete, starts with its first and ends with its last number, in any order between |
| LossyStreams.LossyKeptIff | src/ovboxclient.cc:690-715 | for every interleaving of streams that lose messages but are not reordered: every stream is delivered or held completely and in order if and only if no message after a gap is followed by another such message, by the next of its stream across the 16-bit boundary, or had the largest gap |
| LossyStreams.KeptBefore | src/ovboxclient.cc:675-731 | on every run with arbitrary arrivals, a stream that is not delivered completely and in order never will be |
| LossyStreams.RisingNumbers | src/ovboxclient.h:60-66 | unbounded numbers that rise in steps below 2^15 are what is meant by not reordered |
| LossyStreams.EveryGapOverwrites | src/ovboxclient.cc:694-698 | while every message follows a gap, only the first is delivered and only the last is held |
| Delivery.SwapsAreUndone | src/ovboxclient.cc:675-731 | for every interleaving of numbered streams with disjoint neighbour swaps arriving back to back, delivery is exactly in the original order and nothing stays held |
| Delivery.NumberedNeverDescends | src/ovboxclient.cc:711-713 | consecutive numbers never count as an output error, also across the wrap-around |
| Delivery.EverySwapDescends | src/ovboxclient.cc:699 | every swap counts as exactly one input error |
| Delivery.SwapLoss | src/ovboxclient.cc:688-692 | a stream's loss is minus one for a swap at its start and minus one for a swap at its end |
| Delivery.LostCounterUnderSwaps | src/ovboxclient.cc:685-692 | the counter wraps below zero by the number of such swaps, and is 0 if and only if there is none |
| Delivery.PackedIsNumbered | src/udpsocket.cc:385-395 | the messages packed for a data port carry 1, 2, 3, ... modulo 2^16 |
| Delivery.PackedPayload | src/udpsocket.cc:385-395 | among the messages packed for a port, the one of a call has the place and the payload of the call |
| Delivery.EndToEnd | src/ovboxclient.cc:361-379 | from the senders' calls through bytes and swaps to the deliveries: of every data port all messages, once, the k-th with sender, port and payload of the k-th call; no output error, one input error per swap, for runs of any length |
| Tunnel.FrameLayout | src/ovtcpsocket.cc:178-191 | byte by byte: the length, least significant byte first, then the datagram |
| Tunnel.ParseFramed | src/ovtcpsocket.cc:232-258 | reading back the frames of any datagrams, with anything behind them, gives these datagrams |
| Tunnel.PrefixParses | src/ovtcpsocket.cc:232-258 | any initial part of the bytes gives exactly the datagrams whose frames are complete in it |
| Tunnel.TunnelForwardsPrefix | src/ovtcpsocket.cc:178-258 | what is forwarded is a prefix of what was sent, and all of it if and only if all bytes arrived |
| Tunnel.Outbound.NbWrite | src/ovtcpsocket.cc:146-176 | for every plan of partial writes and retries the bytes on the wire are a prefix of the buffer, all of it on success; on failure nothing is ever written again |
| Tunnel.Outbound.Send | src/ovtcpsocket.cc:178-191 | a prefix of the frame is written, the whole frame on success |
| Tunnel.Outbound.UdpReceive | src/ovtcpsocket.cc:193-214 | the wire carries a prefix of the frames of all datagrams, whatever failed in between; and all of them if the socket can transfer often enough |
| Tunnel.Inbound.NbRead | src/ovtcpsocket.cc:125-144 | for every plan of partial reads and retries the buffer gets the next bytes of the connection, fewer only if nothing can be read any more |
| Tunnel.Inbound.ReadHeader | src/ovtcpsocket.cc:233-238 | a complete length, or the connection is over and what was read is less than a frame |
| Tunnel.Inbound.HandleFrame | src/ovtcpsocket.cc:239-257 | one round forwards exactly the payload of a complete frame, after an incomplete one nothing; and exactly when the terminating zero lands inside the buffer |
| Tunnel.Inbound.HandleConnection | src/ovtcpsocket.cc:216-268 | the loop forwards exactly the complete frames among the bytes read, and ends only when nothing can be read any more or at an oversized frame |
| Tunnel.Carry | src/ovtcpsocket.cc:125-268 | both ends together, for every plan of both sockets: received is a prefix of sent, equal if and only if all bytes were read; everything arrives if both sockets can transfer as often as there are bytes |
| Tunnel.NotOversized | src/ovtcpsocket.cc:239-242 | reading the frames of a proper sender never ends at an oversized one |
| Settings.ChannelsDiffer | src/ov_types.cc:124-168 | differs exactly if length or some channel differs in anything but its id |
| Settings.DeviceDiffers | src/ov_types.cc:170-193 | differs exactly if some field or the channels differ |
| Settings.AscendingMembers | src/ov_types.cc:443-461 | iterating a map in key order visits every key once |
| Settings.StageDiffers | src/ov_types.cc:437-462 | the walk over both maps in lock step decides equality of key sets and of all devices |
| Settings.AgreeIff | src/ov_types.cc:124-193 | settings agree under these comparisons if and only if they are equal once all channel ids are removed |
| RenderBackend.Backend.constructor | src/ov_types.cc:266-272 | neither session nor audio active, no restart pending |
| RenderBackend.Backend.StartSession | src/ov_types.cc:274-278 | the session runs with the stored settings, no restart is pending |
| RenderBackend.Backend.EndSession | src/ov_types.cc:280-283 | the session is over, a pending restart remains pending |
| RenderBackend.Backend.RestartSessionIfNeeded | src/ov_types.cc:285-295 | a pending restart ends a running session and starts it, otherwise only a missing session is started |
| RenderBackend.Backend.StartAudioBackend | src/ov_types.cc:297-300 | audio is active |
| RenderBackend.Backend.StopAudioBackend | src/ov_types.cc:302-305 | audio is inactive |
| RenderBackend.Backend.ConfigureAudioBackend | src/ov_types.cc:337-359 | the device is stored and audio is active; the session is ended and audio stopped and started exactly if another device is configured, unless both are manual, or audio is only started if it was not active |
| RenderBackend.Backend.SetThisdev | src/ov_types.cc:361-366 | a device that differs is stored with a restart pending |
| RenderBackend.Backend.SetRelayServer | src/ov_types.cc:404-418 | another server ends a running session and leaves a restart pending |
| RenderBackend.Backend.RequireSessionRestart | src/ov_types.cc:425-428 | a restart is pending |
| RenderBackend.Backend.ClearStage | src/ov_render_tascar.cc:1113-1122 | the stage is empty and a running session is over |
| RenderBackend.Backend.AddStageDevice | src/ov_render_tascar.cc:1766-1778 | a running session gets a pending restart exactly if the stage now differs |
| RenderBackend.Backend.RmStageDevice | src/ov_render_tascar.cc:1780-1792 | likewise for a removed device |
| RenderBackend.Backend.SetStage | src/ov_render_tascar.cc:1794-1804 | likewise for a whole stage |
| RenderBackend.Backend.SetRenderSettings | src/ov_render_tascar.cc:1877-1891 | settings that differ are stored with a restart pending |
| RenderBackend.Client.BuildStage | src/ov_client_orlandoviols.cc:892-897 | an id is on the stage exactly if a listed device has it, and then with the last such device |
| RenderBackend.Client.ConfigureAudio | src/ov_client_orlandoviols.cc:759-779 | the audio part, including a requested restart, around which a running session is ended, up to its end or to any exception |
| RenderBackend.Client.ConfigureRoom | src/ov_client_orlandoviols.cc:784-900 | the room part up to its end or to any exception that leaves it between two calls |
| RenderBackend.Client.ParseConfig | src/ov_client_orlandoviols.cc:758-903 | the calls of one configuration, in order, are the function the lemmas below are about; nothing is called after a request to quit, and without a fault it is applied to the end |
| RenderBackend.Client.Service | src/ov_client_orlandoviols.cc:665-704 | all configurations are applied in order up to a request to quit; then the shutdown leaves nothing running, and starts and stops were in order throughout |
| Reconcile.ApplySound | src/ov_types.cc:274-418 | every call keeps: an active session without pending restart runs with settings equal to those stored |
| Reconcile.RestartSoundness | src/ov_render_tascar.cc:1766-1804 | the same for every state reachable by any calls in any order |
| Reconcile.AudioSoundness | src/ov_types.cc:337-359 | after any calls in any order the device that audio was started with last is the stored one, or both are manual |
| Reconcile.ConfiguredInv | src/ov_client_orlandoviols.cc:758-903 | every configuration, also one left by an exception after any of its calls, keeps: audio never stops under a session, a session implies audio, sessions start once and end once, restarts are not forgotten |
| Reconcile.ConfiguredConverges | src/ov_client_orlandoviols.cc:901-903 | a completed configuration leaves session and audio active on exactly the wanted settings, audio on the wanted device or both manual, and no restart pending |
| Reconcile.ConfiguredIdempotent | src/ov_client_orlandoviols.cc:758-903 | repeating it without the audio restart flag starts, stops and changes nothing |
| Reconcile.RestartFlagRestarts | src/ov_client_orlandoviols.cc:770-778 | with the audio restart flag set, every repetition ends the session, stops and starts audio and starts the session again, and nothing else |
| Reconcile.StageOfMeaning | src/ov_client_orlandoviols.cc:892-897 | an id is a key exactly if some device has it, its value is the last such device |
| Reconcile.ConfiguredEvents | src/ov_client_orlandoviols.cc:758-903 | all starts and stops of session and audio that a completed configuration causes, and their order, from the state before and the configuration alone: each happens exactly when needed, the session's if it was off, a restart was pending, audio is stopped or the wanted settings do not agree with the stored ones |
| Reconcile.ChangeMeans | src/ov_types.cc:361-418 | the comparisons in the setters find a change exactly if the wanted settings do not agree with the stored ones |
| Reconcile.ConfiguredDoneIff | src/ov_client_orlandoviols.cc:758-903 | a configuration is applied to the end exactly if it does not ask to quit and no exception comes in a part it has |
| Reconcile.ServedConverges | src/ov_client_orlandoviols.cc:665-704 | after any configurations, faulty ones included, one without a fault leaves session and audio running on its settings |
| Reconcile.NothingAfterQuit | src/ov_client_orlandoviols.cc:758 | once a configuration asked to quit, later ones change nothing |
| Endpoints.EndpointList.CidRegister | src/callerlist.cc:53-68 | a registration that gets the lock stores end point, mode and version and restarts the time-out; no other peer changes |
| Endpoints.EndpointList.CidSetLocalIp | src/callerlist.cc:70-78 | the local address of that peer is stored, nothing else changes |
| Endpoints.EndpointList.CidSetPingTime | src/callerlist.cc:80-94 | a ping is one step of that peer; without the lock it still refreshes the time-out |
| Endpoints.EndpointList.CidSetPubkey | src/callerlist.cc:96-118 | a key of the right length is stored for the peer or the server, others for nobody, and nothing else changes |
| Endpoints.EndpointList.CheckPeer | src/callerlist.cc:133-147 | one peer's countdown and announcement, no other peer changes |
| Endpoints.EndpointList.CheckStatus | src/callerlist.cc:128-148 | one round is one step of every peer; the announcements about each peer are those of its own history |
| Endpoints.LostFollowsNew | src/callerlist.cc:133-147 | over every history each "lost" directly follows a "new" of the same peer |
| Endpoints.NewTwiceNeedsModeChange | src/callerlist.cc:60-61 | two "new" without a "lost" between them need a registration with a changed mode |
| Endpoints.Countdown | src/callerlist.cc:62-141 | time-out and announced flag as a function of the status checks since the last sign of life |
| Endpoints.LostAtTick121 | src/callerlist.cc:128-148 | a status check announces the loss exactly if it is the 121st since the last refresh |
| Endpoints.SilentWithoutRefresh | src/callerlist.cc:133-147 | a peer that never gave a sign of life is never announced |
| Endpoints.NewAfterRefreshIff | src/callerlist.cc:60-138 | the first status check after a sign of life announces a peer as new if and only if it was not announced or registered with another mode |
| Endpoints.KeptUntilLost | src/callerlist.cc:53-147 | until a peer is lost, end point, mode and version change only by a registration, the local address and the key only by being told |
| Endpoints.RegistrationLasts | src/callerlist.cc:53-68 | whatever happens in the next 120 status checks, a peer has end point, mode and version of its last registration |
| Endpoints.RegistrationKept | src/callerlist.cc:53-68 | the same until the peer is lost |
| Endpoints.LocalIpKept | src/callerlist.cc:70-78 | a peer has the local address it told last, until it is lost |
| Endpoints.PubkeyKept | src/callerlist.cc:96-118 | a peer has the last key of the right length it told, until it is lost |
| Endpoints.LostIsForgotten | src/callerlist.cc:141-144 | of a peer announced as lost nothing is left |
| Endpoints.PingStatistics | src/callerlist.cc:80-165 | number, sum, largest and smallest are those of the positive ping times that came with the lock since the peer was lost or logged last |
| Endpoints.EndpointList.LogStatistics | src/callerlist.cc:149-165 | exactly the active peers are logged, with their statistics, which start again |
| Routing.RoutePeer | src/ovboxclient.cc:527-573 | the body of the loop against the recipient, address and encryption rules |
| Routing.Route | src/ovboxclient.cc:520-592 | every recipient gets exactly one copy, every other peer none, the server one exactly if needed; each copy goes to the local address exactly in the same network with local sending on, and is encrypted exactly if both sides can; the state is 2, 1 or 0 as all, some or none of the counted targets are encrypted |
| Routing.RecipientsOnTable | src/ovboxclient.cc:527-587 | who gets a copy, said on the modes, time-outs and addresses in the table alone |
| Routing.CopiesOnTable | src/ovboxclient.cc:538-590 | where each copy goes and what is in it, said on the table alone |
| Routing.StateOnTable | src/ovboxclient.cc:535-592 | whether any and whether all counted targets are encrypted, said on the table alone |
| Routing.OneCopyEach | src/ovboxclient.cc:527-573 | the copies for one peer among all that are sent |
| Routing.CountsMean | src/ovboxclient.cc:591-592 | comparing the two counts decides whether any and whether all counted targets are encrypted |
| Routing.SealedCopiesBelow | src/ovboxclient.cc:538-567 | the copies for peers are all encrypted exactly if every recipient can decrypt |
| Routing.FullStateIff | src/ovboxclient.h:157-160 | for every table the state is 2 exactly if some target is counted, every copy is encrypted and every counted peer that gets none could decrypt |
| Routing.FullStateMeansSealed | src/ovboxclient.h:157-160 | at state 2 every copy that is sent is encrypted |
| Routing.SealedMeansFullState | src/ovboxclient.cc:535-554 | when some copy is sent and all are encrypted, the state is 2 if and only if every counted peer that gets none could decrypt |
| Routing.SilentPeerLowersState | src/ovboxclient.cc:535-554 | a table of 32 in which it is not |
| Routing.FullMessageSentEmpty | src/common.cc:92-93 | a table of 32 and a message that fills the buffer, of which the encrypted copy is sent empty |
| Routing.CopiesHaveContent | src/common.cc:92-93 | every copy has content if and only if the encrypted message fits the buffer or no copy is encrypted |
| Ping.SendPing | src/udpsocket.cc:312-324 | the datagram is the packet of addressee (through the server only), time stamp and end point |
| Ping.ProcessPing | src/ovboxclient.cc:381-404 | the answer is on port 3, 8 or 10 for a ping on port 2, 7 or 9, with the own id as sender and, through the server, the pinging device as addressee; no other byte changes |
| Ping.PingComesBack | src/ovboxclient.cc:381-430 | for all three kinds the answer decodes to the answerer, the port that belongs to the ping's, and the exact time stamp that was packed |
| Ping.EncryptMsg | src/common.cc:89-100 | the header is copied, the rest is the sealed box of the payload; 0 and no write if it does not fit |
| Ping.DecryptMsg | src/common.cc:102-121 | the header is copied, the rest is the opened payload; what cannot be opened is passed on as it is |
| Ping.EncryptRoundTrip | src/common.cc:89-121 | decryption undoes encryption, which adds a fixed length |
| PingStat.Collector.constructor | src/ovboxclient.cc:738-741 | an empty ring |
| PingStat.Collector.AddValue | src/ovboxclient.cc:743-754 | after any number of calls the ring is the window of the last values, oldest first from the index on, and `sum` is their sum |
| PingStat.RingAdd | src/ovboxclient.cc:743-754 | overwriting the slot at the index turns the window of a history into that of the longer one |
| PingStat.Collector.FilledIsWindow | src/ovboxclient.cc:769-770 | the filled part holds exactly the last min(count, N) values of the history, and `sum` is their sum |
| PingStat.OrderStatistics | src/ovboxclient.cc:772-783 | all indices are in range, the branch using the index after the median cannot be reached, the percentile is at the nearest position to 0.99 (n - 1), minimum <= median <= 99th percentile |
| PingStat.Collector.UpdatePingStat | src/ovboxclient.cc:756-787 | true minimum, median (odd and even counts), mean and percentile of the window; loss is newly sent less newly received, at least 0 |
| PingStat.SortedUnique | src/ovboxclient.cc:771 | a sorted sequence is determined by its elements, so the statistics do not depend on how it is sorted |
| Reports.WrappedDifference | src/ov_types.cc:507-513 | adding a wrapped difference to a wrapped sum leads to the new total |
| Reports.ReportAccounts | src/ovboxclient.cc:762-766 | one more report keeps the account: answers and new pings add up to those collected and sent modulo 2^64, and answers and losses together are the pings sent plus the surplus of answers over new pings, summed over all reports |
| Reports.LateAnswerReportedTwice | src/ovboxclient.cc:762-764 | two reports with one loss although both pings were answered |
| Reports.PingReporter.constructor | src/ov_types.cc:489-493 | a reporter that has reported nothing |
| Reports.PingReporter.Update | src/ovboxclient.cc:756-766 | the report has true minimum, median, mean and percentile of the collector's window; over any sequence of reports the answers add up to the collector's total modulo 2^64; losses are exactly pings less answers, plus the surplus of answers in single reports, so that no unanswered ping is missing from them |
| Reports.ClientStats.UpdatePackages | src/ovboxclient.cc:314-319 | reported counters add up to the totals modulo 2^64, whatever other reporters do; the reported loss is at most 2^30, and is the true increase unless that is larger |
| Reports.ClientStats.Update | src/ovboxclient.cc:311-323 | the same for one call on packages and all three kinds of pings |
| JsonMerge.JsonMerge | src/ov_tools.cc:112-131 | the loop, in any order of the keys, computes the merge; it terminates on the right tree |
| JsonMerge.MergedLeaf | src/ov_tools.cc:112-131 | each leaf of the result is the right side's where that side decides, otherwise the left side's |
| JsonMerge.MergeFailsIffClash | src/ov_tools.cc:118-120 | for every right side, an exception is thrown exactly if it is a leaf as a whole, or a leaf on the left meets a non-empty object on the right |
| JsonMerge.EmptyIsIdentity | src/ov_tools.cc:114-115 | the empty object is a two-sided identity |
| JsonMerge.MergeIdempotent | src/ov_tools.cc:112-131 | merging a tree into itself changes nothing |
| JsonMerge.MergeAbsorbs | src/ov_tools.cc:112-131 | merging the same update again changes nothing |
| JsonMerge.CoversIff | src/ov_tools.cc:112-131 | a merge yields the right side exactly if that replaces everything on the left |
| JsonMerge.StepByStepFailsIff | src/ov_tools.cc:112-131 | merging two updates in turn fails if and only if the earlier one clashes with the configuration, the later one with the earlier, or the later one with a leaf of the configuration that the earlier one leaves in place |
| JsonMerge.BeforehandFailsIff | src/ov_tools.cc:112-131 | merging them beforehand fails if and only if they clash with each other, the later one clashes with the configuration, or the earlier one does where the later one does not replace it |
| JsonMerge.MergeOrderIff | src/ov_tools.cc:112-131 | for any configuration and two updates, merging in turn is the same as merging beforehand, failures included, if and only if: when a leaf blocks the former, one blocks the latter as well, and when none does, no null of the earlier update is exposed; all said on the three trees alone |
| JsonMerge.FailedOrderIff | src/ov_tools.cc:112-131 | when the earlier one clashes with the configuration, the two ways agree if and only if the updates clash, the later one clashes with the configuration, or some clash of the earlier one is at a place the later one does not replace |
| JsonMerge.ClashBreaksAssociativity | src/ov_tools.cc:118-120 | a triple of trees without nulls where merging in turn fails and merging beforehand does not |
| JsonMerge.NullFreeExposesNothing | src/ov_tools.cc:118-124 | an update without nulls exposes none |
| JsonMerge.MergeAssociative | src/ov_tools.cc:112-131 | for an earlier update without nulls, both ways agree if and only if it can be merged, or merging beforehand is blocked as well |
| JsonMerge.NullBreaksAssociativity | src/ov_tools.cc:118-124 | a triple of trees with an exposed null |
| Plugins.PluginList.StoreParams | src/ov_types.cc:528-541 | under the name of the last string, number or boolean given for it is its text, all other parameters are untouched |
| Plugins.GivenMeaning | src/ov_types.cc:528-541 | what is given for a name is the text of the last string, number or boolean under it, or nothing if there is none |
| Plugins.PluginList.UpdatePluginCfg | src/ov_types.cc:515-548 | the loop in place computes the updated list, and exactly when it does not read past its end |
| Plugins.UpdatedMeaning | src/ov_types.cc:515-548 | names in order of the configuration, every given parameter stored, older ones survive exactly where the name matched, the tail is untouched |
| Plugins.UpdateIdempotent | src/ov_types.cc:515-548 | applying the same configuration again changes nothing |

## Left out

- Messages: the `sender` address, which `copy` does not carry over, and the timer of a message buffer.
- Buffers.Socket.PackMsg: port 12 itself (`MAXSPECIALPORT`) is numbered like a data port but bypasses the sorter; it is modelled so, and `Delivery` makes promises for higher ports only.
- Receiver.Client.ProcessMsg: what is done with a message after it has been released (forwarding, answering, decrypting for local receivers) is not part of it.
- Sorter.State: the nested maps from sender to port are one map keyed by both; the maps inserted by a mere lookup of a sender are not represented.
- Receiver.MessageSorter.Enroll: input errors are counted together with the arrival, before the check for a gap; a message that is held is ahead, so that this makes no difference.
- Delivery.EndToEnd: arbitrary reordering and streams interleaved inside a swapped pair are not delivered in order by the program; of these `SorterRuns` says what holds.
- Threads: every registration, ping, status check and reception is one step; a failed `try_lock` is a flag of the step. Data races are not modelled.
- Sockets: what a call on a socket returns is a parameter or a plan. Time-outs, addresses, name resolution and priorities are not modelled.
- Tunnel.Inbound.HandleFrame: what the program does after it stored the terminating zero outside of the buffer, which its contract says happens exactly for frames of `BUFSIZE` bytes and after a failed read.
- Tunnel.Outbound.UdpReceive: the loop ends with the given datagrams, not with a flag; both directions of a connection are modelled separately.
- Reconcile.Configured: `set_extra_config`, the default values and the reading of single entries, and the error reports; an exception can come between any two calls, but not out of ending a session or stopping audio.
- RenderBackend.Backend.StartSession: exceptions while a session is built, entries the session adds to the stored maps while it is built, and the audio server changing rate or period size.
- RenderBackend.Client.Service: reading files and asking the server for updates; it receives the merged configurations.
- Live changes that avoid a restart on purpose (`set_stage_device_gain`, `update_plugincfg`, positions).
- Settings.DeviceDiffers: numbers are real, so a NaN that differs from itself does not occur.
- Endpoints.EndpointList.CheckStatus: the count of rounds after which the ping times are logged; `LogStatistics` is a step of its own. The two numbers of received and lost packages in a peer's entry are left out.
- Endpoints.EndpointList.CidSetPubkey: the key is stored also when it is the same, which changes nothing; logging is left out.
- Routing.Route: one message, after it was received and packed; the packet is represented by its length. Packing a message that is too long, which yields length 0, is excluded.
- `xrecsrv` and proxy clients; the server rule of `xrecsrv` differs from that of `recsrv`.
- Ping.TimeStamp: of an empty pong through the server the program reads old bytes behind the message; here it has no time stamp.
- Ping.EncryptRoundTrip: the sealed box is an arbitrary pair of functions with a fixed overhead, where opening undoes sealing.
- PingStat.Collector.AddValue: real numbers, no rounding; the percentile factor 0.99 is exact. `sent` and `received` are unbounded and cut to 64 bits in reports.
- PingStat.Sort: an insertion sort stands for `std::sort`; by `PingStat.SortedUnique` the result is the same.
- Reports.PingReporter.Update: a reporter always reports from the same collector, as one device has.
- JsonMerge.JsonMerge: arrays, numbers, strings and booleans are leaves; an empty array as a whole update, which changes nothing, is not distinguished from other leaves.
- Plugins.PluginList.UpdatePluginCfg: what follows from reading past the end of the list; numbers are formatted by a parameter.
- Port-number formulas, string formatting, the metronome, sound cards and the building of the audio session.
