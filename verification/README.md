# A verified model of the Sponge TCP/IP stack

Sponge is a user-space TCP/IP stack: a TCP sender and receiver over byte streams, a connection that joins
them, the TCP and IPv4 wire formats, a network interface that resolves neighbours with ARP, and a router. This project
models that stack in Dafny and proves what it is for: the bytes an application reads are a prefix of the
bytes its peer wrote, whatever the network does, and nothing on the way down to the wire or along the route
loses, reorders or alters what it is given.

Each stateful part appears twice. A *value* and functions over it say what an operation does
(`ReassemblerModel`, `SenderModel`, `ConnectionModel`, `InterfaceModel`, ...). A *class* with the fields and
the loops of the source does it in place, and every method is proved to take the object's `View()` where the
function says. Properties over whole runs are proved of the functions, so they hold of the objects.

| files | part |
|---|---|
| `Bytes`, `WrappingIntegers`, `ByteStream` | bytes, sequence numbers, the byte stream |
| `SegmentMap`, `ReassemblerModel`, `ReassemblerSteps`, `StreamReassembler`, `ReassemblerRuns`, `ReassemblerRoom` | reassembly: merging intervals, capacity, end of stream |
| `TcpSegment`, `SenderModel`, `SenderSteps`, `TcpSender`, `SenderRuns` | the sender: window filling, acknowledgments, timer |
| `TcpReceiver`, `ReceiverWindow`, `DataPath`, `EarlyEnd`, `ClosedLoop` | the receiver, and both ends over a lossy network |
| `TcpState`, `ConnectionModel`, `ConnectionRuns`, `ConnectionOutput`, `ConnectionAnswers`, `TcpConnection`, `FullDuplex` | the connection: phases, output, answers, closing, and two of them over a lossy network |
| `TraceSteps`, `EdgeBehind`, `EarlyEndRuns`, `ConnectionTraces` | runs in which a property fails |
| `Checksum`, `Parser`, `SealedRecord`, `TcpWire`, `Ipv4Wire`, `TcpOverIp`, `WireLayout` | the wire formats |
| `InterfaceModel`, `NetworkInterface`, `InterfaceRuns`, `InterfaceExact` | ARP resolution |
| `Prefixes`, `Router` | longest-prefix routing |

`dafny verify dfyconfig.toml` checks everything.

Where the code does not do what its documentation suggests, the model follows the code, and a lemma states
exactly when the property holds:

- In-order data is cut at free space that stored bytes have already used up, so bytes that would fit are dropped
  (`InOrderLoss`; `InOrderLossExample`).
- A push that starts beyond the window is not cut at the window, because the distance wraps around
  (`WindowKept`, `OutOfOrderLoss`; `BeyondWindowExample`).
- The sender fills past a right edge that lies behind what it has sent (`FillRespectsEdge`; `EdgeIsPassed`).
- A FIN ends the receiver's stream as soon as nothing is stored, even if bytes before it are missing: when it
  carries no payload, when its payload is cut, and when it was remembered (`PrematureFin`; `CutFinEndsEarly`,
  `RememberedFinEndsEarly`). The receiver then acknowledges a byte it does not have (`AckIsHonest`), and the sender
  drops it (`UnassembledIsPopped`).
- An old acknowledgment can leave one byte unsent with the close condition met, and the connection ends cleanly
  (`CloseCondition`; `StaleAckLeavesByte`).
- Ending an outbound stream a second time stops the active side from lingering (`LingersUnlessPassive`,
  `EndClearsLinger`; `EndingTwiceStopsLingering`).
- A stream accepts data after its end. The sender can cope with that exactly until its FIN is sent (`WriteValid`).
- The datagram and segment parsers ignore the verdict of the header parsers, so that any IPv4 header checksum
  is let through (`DatagramAccepted`, `SegmentAccepted`; `AnyChecksumAccepted`).
- An IPv4 length field that wraps around 16 bits breaks the round trip of headers with options only
  (`DatagramRoundTrip`), and wrap-around of the 32-bit checksum sum breaks nothing (`SealVerifies`).

## Model
| member | source | states |
|---|---|---|
| WrappingIntegers.UnwrapNearest | libsponge/wrapping_integers.cc:26-55 | for every 64-bit checkpoint the unwrapped position wraps back to the seqno, and no other 64-bit position that does is closer |
| WrappingIntegers.UnwrapTie | libsponge/wrapping_integers.cc:26-55 | of two positions half a cycle away the one in the checkpoint's own cycle is taken |
| WrappingIntegers.UnwrapWrap | libsponge/wrapping_integers.cc:11-55 | unwrapping undoes wrapping whenever the checkpoint is less than 2^31 away |
| WrappingIntegers.UnwrapStepBack | libsponge/tcp_receiver.cc:26-29 | a seqno stepped back by one unwraps to the stream index it stands for |
| WrappingIntegers.UnsignedSubIsModular | libsponge/stream_reassembler.cc:134-140 | the unsigned difference is the difference modulo 2^64 |
| ByteStreams.StreamConservation | libsponge/byte_stream.cc:15-71 | over every run what the reader got followed by what is buffered is what was accepted, in order |
| ByteStreams.TransfersAreMaximal | libsponge/byte_stream.cc:15-52 | a write leaves bytes out only if the stream is then full, a read yields fewer than asked for only if it is then empty |
| ByteStreams.ByteStream.constructor | libsponge/byte_stream.hh:30-30 | a new stream is empty with the given capacity |
| ByteStreams.ByteStream.Write | libsponge/byte_stream.cc:15-27 | accepts the longest prefix that fits and returns its length |
| ByteStreams.ByteStream.PeekOutput | libsponge/byte_stream.cc:30-40 | the next bytes in order, as many as there are, the stream unchanged |
| ByteStreams.ByteStream.PopOutput | libsponge/byte_stream.cc:43-52 | advances the reader by at most what is buffered |
| ByteStreams.ByteStream.Read | libsponge/byte_stream.cc:58-71 | returns what peeking shows and removes exactly that |
| ByteStreams.ByteStream.EndInput | libsponge/byte_stream.cc:73-75 | ends the input and changes nothing else |
| ByteStreams.ByteStream.SetError | libsponge/byte_stream.hh:47-47 | marks the stream as failed and changes nothing else |
| SegmentMap.TotalCountsHeld | libsponge/stream_reassembler.cc:142-148 | the sum of the stored lengths is the number of distinct positions stored |
| SegmentMap.BlockStores | libsponge/stream_reassembler.cc:52-114 | replacing the overlapped segments by the merged block stores exactly the old positions and the new range, each once |
| SegmentMap.BlockSize | libsponge/stream_reassembler.cc:52-114 | a merge needs exactly as much more room as positions were missing |
| SegmentMap.BlockAgrees | libsponge/stream_reassembler.cc:52-114 | merging bytes of a stream into segments of that stream gives bytes of that stream |
| SegmentMap.MergeLoop | libsponge/stream_reassembler.cc:52-114 | the erase-while-iterating loop computes the closed form of the merge over the whole map |
| ReassemblerModel.InsertApart | libsponge/stream_reassembler.cc:52-132 | re-inserting a cut tail inside the drain loop touches no other segment, so the iterator stays good |
| ReassemblerModel.TrimCut | libsponge/stream_reassembler.cc:116-132 | what trimming leaves when a stored segment straddles the first unassembled byte |
| ReassemblerModel.TrimUncut | libsponge/stream_reassembler.cc:116-132 | what trimming leaves when every segment passed lies before the first unassembled byte |
| ReassemblerSteps.DrainKeeps | libsponge/stream_reassembler.cc:24-41 | draining keeps the invariant, loses no position and invents none |
| ReassemblerSteps.InOrderCut | libsponge/stream_reassembler.cc:134-140 | the window never cuts in-order data more than the free space does |
| ReassemblerSteps.InsertStores | libsponge/stream_reassembler.cc:52-114 | exactly which positions are stored after an insertion that is cut at the free space |
| ReassemblerSteps.Push | libsponge/stream_reassembler.cc:5-50 | every push keeps segments non-empty, disjoint, behind a gap and within capacity, and the output only grows |
| StreamReassemblers.StreamReassembler.constructor | libsponge/stream_reassembler.hh:71-72 | a new reassembler is the empty model value |
| StreamReassemblers.StreamReassembler.UnassembledBytes | libsponge/stream_reassembler.cc:142-148 | the loop returns the number of distinct positions stored |
| StreamReassemblers.StreamReassembler.TruncateData | libsponge/stream_reassembler.cc:134-140 | the prefix that free space and window leave, with the unsigned difference |
| StreamReassemblers.StreamReassembler.MergeOverlaps | libsponge/stream_reassembler.cc:53-106 | the erase-while-iterating loop leaves the closed form of the merge: the overlapped segments gone and the data extended by their ends, or dropped if one segment encloses it |
| StreamReassemblers.StreamReassembler.InsertSegment | libsponge/stream_reassembler.cc:52-114 | refines the closed-form insertion |
| StreamReassemblers.StreamReassembler.CutSegment | libsponge/stream_reassembler.cc:116-132 | one round of trimming, with its nested insertion, leaves a usable iterator |
| StreamReassemblers.StreamReassembler.TryAssemble | libsponge/stream_reassembler.cc:116-132 | refines trimming: no stored position lies before the first unassembled byte, the others stay |
| StreamReassemblers.StreamReassembler.ExtendInOrder | libsponge/stream_reassembler.cc:24-41 | writes what fits, then moves every segment that has become contiguous to the output |
| StreamReassemblers.StreamReassembler.TakeData | libsponge/stream_reassembler.cc:20-45 | stores or writes the part of a push that is not assembled yet |
| StreamReassemblers.StreamReassembler.CloseIfComplete | libsponge/stream_reassembler.cc:47-49 | the end-of-input test |
| StreamReassemblers.StreamReassembler.AbsorbTail | libsponge/stream_reassembler.cc:20-49 | the new part of a push, then the end-of-input test |
| StreamReassemblers.StreamReassembler.AbsorbData | libsponge/stream_reassembler.cc:11-49 | a push once its eof mark is noted |
| StreamReassemblers.StreamReassembler.PushSubstring | libsponge/stream_reassembler.cc:5-50 | refines the push function on the whole state |
| ReassemblerRuns.RunRefines | libsponge/stream_reassembler.cc:5-132 | for every run of pushes of substrings of S and reads the output is S up to the first unassembled byte, and stored segments agree with S and lie strictly behind it |
| ReassemblerRuns.RunCapacity | libsponge/stream_reassembler.cc:24-41 | in every run buffered and stored positions together never exceed the capacity |
| ReassemblerRuns.RunEof | libsponge/stream_reassembler.cc:6-49 | in every run the output is ended if and only if some push carried the eof mark and all of S has been written |
| ReassemblerRuns.InOrderKeeps | libsponge/stream_reassembler.cc:24-41 | exactly which positions are known after in-order data: those known before, and as many new ones as the capacity leaves room for |
| ReassemblerRuns.InOrderLoss | libsponge/stream_reassembler.cc:24-41 | in-order data loses nothing if and only if it fits in the capacity beyond buffered and stored bytes, or what is cut off is stored |
| ReassemblerRuns.OutOfOrderLoss | libsponge/stream_reassembler.cc:43-140 | out-of-order data is kept in full if and only if a stored segment has all of it, or its missing positions fit the free space and the merged block fits the unsigned distance to the end of the window |
| ReassemblerRuns.WindowLoss | libsponge/stream_reassembler.cc:43-140 | from a state in the window, for data that starts in it, that means: it ends in the window and its missing positions fit the free space |
| ReassemblerRuns.WindowKept | libsponge/stream_reassembler.cc:134-140 | stored bytes stay in the window if and only if the data does not start beyond it or there is no space |
| ReassemblerRuns.BeyondWindowExample | libsponge/stream_reassembler.cc:134-140 | a push beyond the window of a new reassembler is stored outside the window |
| ReassemblerRuns.RunDelivers | libsponge/stream_reassembler.cc:5-140 | with room for S and its longest piece, pieces that cover S deliver all of S in any order, with any overlap and any reads |
| ReassemblerRuns.InOrderLossExample | libsponge/stream_reassembler.cc:24-41 | a reachable state in which a push whose missing bytes would fit loses its last byte |
| ReassemblerRoom.TakeKeepsLongestPrefix | libsponge/stream_reassembler.cc:52-140 | of the block that out-of-order data makes with the segments it overlaps a prefix is stored, which reaches the end of the block or of the window, or the reassembler is full; the rest of the map stays |
| ReassemblerRoom.PushKeepsLongestPrefix | libsponge/stream_reassembler.cc:5-140 | the same for a whole push, of the part that is not assembled yet |
| ReassemblerRoom.CutExample | libsponge/stream_reassembler.cc:134-140 | four bytes at position 1 in a new reassembler of capacity 4: the first three are stored |
| SenderSteps.LengthsSpan | libsponge/tcp_sender.cc:57-65 | the cached count of bytes in flight is the distance from the oldest outstanding segment to the next seqno |
| SenderSteps.NextSegmentIsCut | libsponge/tcp_sender.cc:67-125 | each round builds the exact cut at the next seqno, of size between 1 and the available space, so no byte read is discarded |
| SenderSteps.Fill | libsponge/tcp_sender.cc:67-125 | filling keeps accounting, timer rules and faithfulness, and terminates as bytes written + 2 - next seqno falls |
| SenderSteps.DropAcked | libsponge/tcp_sender.cc:144-162 | dropping acknowledged segments keeps the invariant and stops at the first that is not fully acknowledged |
| SenderSteps.Acknowledge | libsponge/tcp_sender.cc:129-165 | any acknowledgment keeps the invariant, and nothing sent or written goes back |
| SenderSteps.TickValid | libsponge/tcp_sender.cc:168-182 | time keeps the invariant, and emits the oldest outstanding segment or nothing |
| SenderSteps.CountersTellEmitted | libsponge/tcp_sender.cc:67-125 | the next seqno is positive if and only if a SYN was emitted, and two more than the bytes read if and only if a FIN was |
| SenderSteps.FillEmitted | libsponge/tcp_sender.cc:67-125 | filling emits what it counts |
| TcpSenders.RetransmissionTimer.Start | libsponge/tcp_sender.cc:13-18 | the timer runs from zero towards the given timeout |
| TcpSenders.RetransmissionTimer.Update | libsponge/tcp_sender.cc:20-28 | time adds up while the timer runs, and it expires at its timeout |
| TcpSenders.RetransmissionTimer.Reset | libsponge/tcp_sender.cc:30-35 | the timer is off |
| TcpSenders.TCPSender.constructor | libsponge/tcp_sender.cc:41-55 | a new sender is the initial model value |
| TcpSenders.TCPSender.BytesInFlight | libsponge/tcp_sender.cc:57-65 | the loop over the queue returns the cached count, which is the span of the queue |
| TcpSenders.TCPSender.CutSegment | libsponge/tcp_sender.cc:88-108 | the next segment and the stream after it |
| TcpSenders.TCPSender.SendSegment | libsponge/tcp_sender.cc:88-123 | one round of filling |
| TcpSenders.TCPSender.ReadyToSend | libsponge/tcp_sender.cc:70-86 | the tests at the head of the loop |
| TcpSenders.TCPSender.FillWindow | libsponge/tcp_sender.cc:67-125 | refines the filling function on the whole state |
| TcpSenders.TCPSender.PopFront | libsponge/tcp_sender.cc:149-161 | drops the oldest segment and restarts or stops the timer |
| TcpSenders.TCPSender.DropAcknowledged | libsponge/tcp_sender.cc:144-162 | the loop refines dropping everything acknowledged |
| TcpSenders.TCPSender.AcceptAck | libsponge/tcp_sender.cc:140-165 | an acknowledgment of something sent |
| TcpSenders.TCPSender.AckReceived | libsponge/tcp_sender.cc:129-165 | refines the acknowledgment function on the whole state |
| TcpSenders.TCPSender.Tick | libsponge/tcp_sender.cc:168-182 | refines the passing of time on the whole state |
| TcpSenders.TCPSender.SendEmptySegment | libsponge/tcp_sender.cc:188-192 | queues a bare segment that occupies no sequence space |
| SenderRuns.Step | libsponge/tcp_sender.cc:57-192 | every operation, with any acknowledgments, keeps accounting, timer rules and faithfulness |
| SenderRuns.WriteValid | libsponge/byte_stream.cc:15-27 | writing, even after the end of the stream, keeps the invariant if and only if the FIN was not sent or nothing is accepted |
| SenderRuns.RunAccounts | libsponge/tcp_sender.cc:57-182 | in every run the next seqno is the bytes read, plus one if a SYN was emitted, plus one if a FIN was; outstanding segments are contiguous exact cuts that end there, the cached count is their sum and their span, everything ever emitted is bare or an exact cut, and every position below the next seqno was emitted |
| SenderRuns.FillFillsWindow | libsponge/tcp_sender.cc:67-125 | with the next seqno at most ackno + max(1, window), filling does not pass that edge and stops at it unless SYN, all bytes and the FIN of an ended stream are sent |
| SenderRuns.FillRespectsEdge | libsponge/tcp_sender.cc:70-77 | the edge ackno + max(1, window) is respected if and only if it is not behind the next seqno or everything has been sent |
| SenderRuns.NextSegmentIsFull | libsponge/tcp_sender.cc:88-108 | each segment carries as many bytes as 1000, the stream and the distance to the edge allow, with the SYN first and the FIN behind the last byte if there is room |
| SenderRuns.AckOpensWindow | libsponge/tcp_sender.cc:129-165 | after an accepted acknowledgment the next seqno is at most ackno + max(1, window), and equal to it or everything is sent |
| SenderRuns.BadAckChangesWindow | libsponge/tcp_sender.cc:133-139 | an acknowledgment of something never sent sets the window and does nothing else |
| EdgeBehind.EdgeIsPassed | libsponge/tcp_sender.cc:70-77 | a run after which filling sends a byte past the right edge |
| SenderRuns.FillDrains | libsponge/tcp_sender.cc:67-125 | filling empties the stream if and only if the window as computed has room for all of it |
| SenderRuns.BackoffIsExponential | libsponge/tcp_sender.cc:168-182 | the timeout is the initial one times two to the number of consecutive retransmissions |
| SenderRuns.BackoffFitsTimer | libsponge/tcp_sender.cc:168-182 | under the cap of 8 attempts every timeout fits the 32-bit timer |
| SenderRuns.RunRetransmits | libsponge/tcp_sender.cc:144-182 | in every run a tick appends the oldest outstanding segment if and only if something is outstanding and the time since the timer started has reached the initial timeout times two to the number of retransmissions, and otherwise nothing |
| SenderRuns.TickBacksOff | libsponge/tcp_sender.cc:168-182 | a retransmission with an open window doubles the timeout and counts, one with a closed window does neither, and the timer restarts at zero |
| SenderRuns.AckResetsBackoff | libsponge/tcp_sender.cc:144-162 | an acknowledgment resets count and timeout if and only if it is accepted and covers the oldest outstanding segment |
| SenderRuns.RunKeeps | libsponge/tcp_sender.cc:57-182 | every run keeps this: a running timer shows, in 32 bits, the time since it was started, and every position of the sequence space that counts as sent was emitted |
| TcpReceivers.Receive | libsponge/tcp_receiver.cc:4-39 | every segment keeps the invariant, and the stream only grows |
| TcpReceivers.TCPReceiver.constructor | libsponge/tcp_receiver.hh:33-35 | a new receiver is the initial model value |
| TcpReceivers.TCPReceiver.SegmentReceived | libsponge/tcp_receiver.cc:4-39 | refines the receiving function on the whole state |
| TcpReceivers.TCPReceiver.ProcessPayload | libsponge/tcp_receiver.cc:23-30 | the payload goes to the reassembler at its stream index, unless a non-SYN segment has the initial seqno |
| TcpReceivers.TCPReceiver.ProcessFin | libsponge/tcp_receiver.cc:32-38 | a FIN is remembered, and ends the stream once nothing is stored |
| TcpReceivers.TCPReceiver.Ackno | libsponge/tcp_receiver.cc:41-50 | the wrapped position of the first byte missing, counting SYN and FIN, once there is a SYN |
| TcpReceivers.TCPReceiver.WindowSize | libsponge/tcp_receiver.cc:52-54 | the capacity less what is buffered, unread, in the stream |
| TcpReceivers.WindowNeverShrinks | libsponge/tcp_receiver.cc:41-54 | over every run of segments and reads the acknowledged position and the advertised right edge never decrease |
| ReceiverWindow.WindowEndsAtCapacity | libsponge/tcp_receiver.cc:52-54 | over every run the window ends exactly a capacity behind the last byte read, and the header shows it capped at 65535 |
| ReceiverWindow.WindowIsKept | libsponge/tcp_receiver.cc:52-54 | while nothing is stored, data that starts in the window is taken without loss if and only if it ends in the window |
| ReceiverWindow.AcknoTellsAssembled | libsponge/tcp_receiver.cc:41-50 | over every run the ackno is the first SYN's seqno plus SYN, bytes assembled and end of stream, in 32 bits, and there is none before a SYN |
| DataPath.PayloadPlaced | libsponge/tcp_receiver.cc:23-30 | the receiver recovers the stream index at which the sender cut if that is less than 2^31 from where it is |
| DataPath.NextSafe | libsponge/tcp_receiver.cc:4-39 | one step of sender, network or receiver keeps the joint invariant |
| DataPath.EndToEnd | libsponge/tcp_sender.cc:67-182 | for streams of any length and every run with any acknowledgments and any loss, duplication and reordering, in which no payload arrives 2^31 or more from the receiver's position, the bytes that reached the receiver's stream are a prefix of those written at the sender |
| DataPath.SmallEndToEnd | libsponge/tcp_sender.cc:67-182 | for streams of less than 2^31 - 2 bytes the same with nothing asked of the network |
| ClosedLoop.AcksAreForSentData | libsponge/tcp_sender.cc:129-142 | when acknowledgments are the receiver's own, each carries a position that was sent and acknowledged, and unwraps to it at the sender unless it is 2^31 or more away |
| ClosedLoop.SmallAcksAreForSentData | libsponge/tcp_sender.cc:129-142 | for streams of less than 2^31 - 2 bytes each unwraps to such a position, however late |
| ClosedLoop.PoppedAreCovered | libsponge/tcp_sender.cc:144-162 | a segment is popped if and only if it ends at or before the ackno |
| ClosedLoop.PoppedWereAssembled | libsponge/tcp_sender.cc:144-162 | in every run in which no delivery ends the stream early, every segment popped from the outstanding queue has been fully assembled |
| EarlyEnd.PushKnows | libsponge/stream_reassembler.cc:5-140 | exactly which positions a push leaves written or stored, in terms of the state before |
| EarlyEnd.EndedMeansEmpty | libsponge/tcp_receiver.cc:32-38 | the input is ended after a delivery if and only if it was before, or a FIN has been seen and nothing is stored |
| EarlyEnd.PrematureFin | libsponge/tcp_receiver.cc:23-38 | for every delivery, with or without FIN and payload, an ended stream is complete if and only if the segment is not heard, or no FIN was seen, or a kept byte lies behind a missing one, or nothing is missing |
| EarlyEnd.AckIsHonest | libsponge/tcp_receiver.cc:41-50 | the receiver acknowledges only assembled bytes if and only if an ended stream is complete |
| EarlyEndRuns.CutFinEndsEarly | libsponge/tcp_receiver.cc:23-38 | a FIN whose payload is inside the window ends the stream without its last byte, which is acknowledged |
| EarlyEndRuns.RememberedFinEndsEarly | libsponge/tcp_receiver.cc:32-38 | after a remembered FIN a segment without FIN ends the stream with a byte missing |
| EarlyEndRuns.UnassembledIsPopped | libsponge/tcp_sender.cc:144-162 | a run in which a FIN overtakes a lost byte and the sender pops the segment with that byte |
| TcpState.SynInFlight | libsponge/tcp_helpers/tcp_state.cc:94-110 | the next seqno equals the bytes in flight if and only if the SYN is outstanding |
| TcpState.FinInFlight | libsponge/tcp_helpers/tcp_state.cc:94-110 | the FIN is outstanding if and only if it was sent and anything is outstanding |
| TcpState.SummaryIsTruePhase | libsponge/tcp_helpers/tcp_state.cc:94-110 | over every run of a sender the summary computed from counters is the phase shown by the segments emitted and outstanding |
| ConnectionModel.Process | libsponge/tcp_connection.cc:79-117 | receiving a segment keeps both halves sound |
| ConnectionModel.Supply | libsponge/tcp_connection.cc:123-129 | writing keeps both halves sound, as long as nothing is written behind a FIN that was sent |
| ConnectionModel.EndInputStream | libsponge/tcp_connection.cc:159-167 | ending the stream keeps both halves sound |
| ConnectionModel.Pass | libsponge/tcp_connection.cc:142-157 | a tick below the retransmission cap keeps both halves sound |
| ConnectionRuns.TimeoutsFit | libsponge/tcp_connection.cc:132-142 | in every run up to a reset at most 8 retransmissions happen in a row, and every timeout is the exact power-of-two multiple and fits 32 bits |
| ConnectionRuns.CloseCondition | libsponge/tcp_connection.cc:69-77 | when the close condition holds, the sender is in FIN_ACKED if and only if its stream is at eof; otherwise exactly one byte is unsent |
| ConnectionRuns.CleanClose | libsponge/tcp_connection.cc:132-157 | in every run with monotone accepted acknowledgments a tick ends the connection if and only if the sender is in FIN_ACKED, the inbound stream has ended with nothing stored and, if it lingers, ten initial timeouts have passed since a segment arrived |
| ConnectionRuns.RunWaits | libsponge/tcp_connection.cc:85-133 | over every run the time since the last segment is the sum of the ticks since one arrived |
| ConnectionTraces.StaleAckLeavesByte | libsponge/tcp_connection.cc:69-77 | a run of a connection after a stale acknowledgment in which the close condition holds and a tick ends it cleanly in SYN_ACKED with one byte unsent |
| ConnectionOutput.RunOnlyCuts | libsponge/tcp_connection.cc:44-67 | over every run everything a connection has sent is bare or the exact cut of its stream at its seqno |
| ConnectionOutput.AnnouncedWindowNeverShrinks | libsponge/tcp_connection.cc:44-67 | over every run a later segment neither acknowledges less nor takes back window that an earlier one announced |
| ConnectionOutput.EverySegmentAnswered | libsponge/tcp_connection.cc:97-112 | a segment that occupies sequence space, or a keep-alive probe, is answered at once with the receiver's current ackno and window |
| ConnectionAnswers.BareNotAnswered | libsponge/tcp_connection.cc:91-110 | a segment that occupies no sequence space and is no probe is not acknowledged: only SYN, data or FIN go out when it arrives |
| ConnectionAnswers.AnswersOnce | libsponge/tcp_connection.cc:91-110 | with nothing left to send, one bare segment at the next seqno answers a segment that occupies sequence space or is a probe, and nothing answers any other |
| ConnectionAnswers.RunFlushes | libsponge/tcp_connection.cc:44-67 | over every run nothing is left in the sender's queue between calls |
| ConnectionAnswers.GivesUpAfterEight | libsponge/tcp_connection.cc:132-141 | a tick puts the streams in error if and only if there were 8 retransmissions in a row; then it sends exactly one reset and ends the connection |
| ConnectionOutput.SummaryIsTruePhase | libsponge/tcp_helpers/tcp_state.cc:94-110 | over every run of a connection up to a reset the summary computed from counters is the phase shown by the segments sent and outstanding |
| ConnectionOutput.ReceiverPhaseIsTrue | libsponge/tcp_helpers/tcp_state.cc:82-92 | over every run up to a reset the receiver's summary is LISTEN until a SYN has arrived, and then FIN_RECV if and only if the stream has ended |
| ConnectionOutput.LingersUnlessPassive | libsponge/tcp_connection.cc:112-117 | over every run the connection stops lingering if and only if the inbound stream ended before the outbound one, or the outbound stream was ended again with both done and room to drain it |
| ConnectionOutput.EndClearsLinger | libsponge/tcp_connection.cc:159-167 | ending the stream clears the flag of a lingering connection if and only if both streams had ended and the window has room for what is left |
| ConnectionTraces.EndingTwiceStopsLingering | libsponge/tcp_connection.cc:159-167 | a run in which the active side lingers, and the same run with the stream ended again in which it does not |
| FullDuplex.BothWays | libsponge/tcp_connection.cc:79-157 | over every run of two connections and a network that loses, duplicates and reorders, each inbound stream is a prefix of the other end's outbound stream |
| FullDuplex.EndedIsWhole | libsponge/tcp_connection.cc:79-157 | if no arrival ends a stream early, an end whose inbound stream has ended has received all that the other end wrote |
| TcpConnections.TCPConnection.constructor | libsponge/tcp_connection.hh:96-96 | a new connection is the initial model value |
| TcpConnections.TCPConnection.StampSegment | libsponge/tcp_connection.cc:50-65 | window capped at 65535, and ackno once there is one |
| TcpConnections.TCPConnection.ClearSenderBuffer | libsponge/tcp_connection.cc:44-67 | every segment of the sender is stamped and queued, in order |
| TcpConnections.TCPConnection.KillConditionCheck | libsponge/tcp_connection.cc:69-77 | decides the close condition |
| TcpConnections.TCPConnection.FillAndClear | libsponge/tcp_connection.cc:125-126 | sends what the window permits |
| TcpConnections.TCPConnection.Write | libsponge/tcp_connection.cc:123-129 | refines writing on the whole state, and returns how much was accepted |
| TcpConnections.TCPConnection.Connect | libsponge/tcp_connection.cc:169-173 | sends the SYN |
| TcpConnections.TCPConnection.EndStream | libsponge/tcp_connection.cc:159-167 | refines ending the stream on the whole state |
| TcpConnections.TCPConnection.ReplyTo | libsponge/tcp_connection.cc:97-104 | something goes back for a segment that occupies sequence space |
| TcpConnections.TCPConnection.AnswerProbe | libsponge/tcp_connection.cc:106-110 | a keep-alive probe is answered |
| TcpConnections.TCPConnection.UpdateSender | libsponge/tcp_connection.cc:91-110 | the sender's part in receiving a segment |
| TcpConnections.TCPConnection.ExchangeSegment | libsponge/tcp_connection.cc:87-110 | both halves see the segment |
| TcpConnections.TCPConnection.UpdateLinger | libsponge/tcp_connection.cc:114-116 | clears the linger flag when the inbound stream ends first |
| TcpConnections.TCPConnection.ProcessSegment | libsponge/tcp_connection.cc:87-117 | refines receiving on the whole state |
| TcpConnections.TCPConnection.KillConnection | libsponge/tcp_connection.cc:29-37 | sets both streams in error and makes the connection inactive |
| TcpConnections.TCPConnection.SendResetSegment | libsponge/tcp_connection.cc:39-42 | queues a stamped reset |
| TcpConnections.TCPConnection.SegmentReceived | libsponge/tcp_connection.cc:79-117 | a reset kills at once, any other segment is processed |
| TcpConnections.TCPConnection.CloseWhenDone | libsponge/tcp_connection.cc:145-154 | the connection ends if all is done and it has lingered |
| TcpConnections.TCPConnection.ElapseTime | libsponge/tcp_connection.cc:133-142 | time passes at connection and sender |
| TcpConnections.TCPConnection.PassTime | libsponge/tcp_connection.cc:142-157 | a tick below the retransmission cap |
| TcpConnections.TCPConnection.Tick | libsponge/tcp_connection.cc:132-157 | refines the tick on the whole state, with the reset after too many retransmissions |
| Checksums.Fold | libsponge/util/util.cc:100-108 | the folded sum is at most 65535, congruent to the sum, and zero only for zero |
| Checksums.InternetChecksum.constructor | libsponge/util/util.cc:87-87 | the accumulator starts at the initial sum, on a word boundary |
| Checksums.InternetChecksum.Add | libsponge/util/util.cc:89-98 | adds the 16-bit words of the data in 32 bits, with the parity carried over |
| Checksums.InternetChecksum.Value | libsponge/util/util.cc:100-108 | the loop returns the complement of the folded sum |
| Checksums.WeightJoins | libsponge/util/util.cc:89-98 | with the parity carried over the sum is that of the joined data |
| Checksums.AddedTwice | libsponge/util/util.cc:89-98 | two calls add what one call with the joined data adds |
| Checksums.VerifiesIff | libsponge/util/util.cc:100-108 | the value is 0 if and only if the sum is a positive multiple of 65535 |
| Checksums.CompletedVerifies | libsponge/util/util.cc:100-108 | every 32-bit sum completed with its own checksum stays in 32 bits and verifies |
| SealedRecords.SealVerifies | libsponge/tcp_helpers/tcp_segment.cc:30-45 | a record whose 16-bit field at an even place holds the checksum of the rest verifies, for every initial sum and data of any length |
| Parsers.NumberOfEncoded | libsponge/util/parser.cc:26-60 | reading the bytes of a number that fits gives the number |
| Parsers.EncodedNumber | libsponge/util/parser.cc:26-60 | writing the number that bytes spell gives the bytes |
| Parsers.NetParser.constructor | libsponge/util/parser.hh:38-38 | a new parser has the whole buffer and no error |
| Parsers.NetParser.CheckSize | libsponge/util/parser.cc:20-24 | too little data is recorded as an error |
| Parsers.NetParser.ParseInt | libsponge/util/parser.cc:26-43 | the number that the next bytes spell, which are consumed; zero and nothing consumed after a failure |
| Parsers.NetParser.RemovePrefix | libsponge/util/parser.cc:45-51 | skips bytes, or fails without skipping |
| Parsers.UnparseInt | libsponge/util/parser.cc:53-60 | the shifting loop appends the number in network byte order |
| Parsers.RecordRoundTrip | libsponge/util/parser.cc:26-60 | reading a written record of fixed-width fields gives every field back and leaves what follows |
| TcpWire.SerializeHeader | libsponge/tcp_helpers/tcp_header.cc:51-78 | the fields in wire order, extended to the advertised length; refused below the minimum |
| TcpWire.ParseHeaderFrom | libsponge/tcp_helpers/tcp_header.cc:17-48 | refines header parsing: fields, verdict and parser state |
| TcpWire.HeaderRoundTrip | libsponge/tcp_helpers/tcp_header.cc:17-78 | a written header followed by any payload parses to itself and leaves the payload |
| TcpWire.TCPSegment.Parse | libsponge/tcp_helpers/tcp_segment.cc:12-23 | refines segment parsing; a bad checksum changes nothing |
| TcpWire.TCPSegment.Serialize | libsponge/tcp_helpers/tcp_segment.cc:30-45 | the sealed header and the payload |
| TcpWire.SegmentRoundTrip | libsponge/tcp_helpers/tcp_segment.cc:12-45 | under the same pseudo-header sum a serialized segment parses without error to the same fields and payload but for the checksum, if and only if its data offset fits four bits |
| TcpWire.SegmentAccepted | libsponge/tcp_helpers/tcp_segment.cc:12-23 | a buffer parses without error if and only if it verifies, holds the fixed header, and is as long as its data offset says |
| Ipv4Wire.SerializeHeader | libsponge/tcp_helpers/ipv4_header.cc:78-110 | the fields in wire order, extended to the advertised length; refused for other versions and below the minimum |
| Ipv4Wire.ReadHeader | libsponge/tcp_helpers/ipv4_header.cc:31-47 | the ten reads give the header that the bytes spell |
| Ipv4Wire.ParseHeaderFrom | libsponge/tcp_helpers/ipv4_header.cc:23-75 | refines header parsing: fields, verdict and parser state |
| Ipv4Wire.HeaderRoundTrip | libsponge/tcp_helpers/ipv4_header.cc:23-110 | a sealed header whose length field is true parses without error to itself |
| Ipv4Wire.IPv4Datagram.Parse | libsponge/tcp_helpers/ipv4_datagram.cc:11-21 | refines datagram parsing |
| Ipv4Wire.IPv4Datagram.Serialize | libsponge/tcp_helpers/ipv4_datagram.cc:23-41 | the sealed header and the payload; refused when the payload has the wrong size |
| Ipv4Wire.DatagramRoundTrip | libsponge/tcp_helpers/ipv4_datagram.cc:11-41 | every datagram that can be serialized parses without error to the same fields and payload but for the checksum, if and only if header length and offset fit their bits and the length field did not wrap, or there are no options |
| Ipv4Wire.DatagramAccepted | libsponge/tcp_helpers/ipv4_datagram.cc:11-21 | which buffers parse without error, decided on version, header length and length bytes alone |
| Ipv4Wire.AnyChecksumAccepted | libsponge/tcp_helpers/ipv4_datagram.cc:11-21 | a datagram with a true length field parses without error with any checksum in its header |
| TcpOverIp.WrapSerializable | libsponge/tcp_helpers/tcp_over_ip.cc:75-90 | the datagram around a segment can be written if and only if the segment has at most 65535 bytes |
| TcpOverIp.StackRoundTrip | libsponge/tcp_helpers/tcp_over_ip.cc:26-90 | what one end wraps and serializes the other end unwraps from the bytes, with the same fields and payload, and the ends are then each other's peers |
| TcpOverIp.SegmentSurvives | libsponge/tcp_helpers/tcp_over_ip.cc:26-90 | the segments of the protocol model are what the bytes on the wire carry |
| WireLayout.TcpHeaderLayout | libsponge/tcp_helpers/tcp_header.cc:51-78 | byte by byte where each field and flag of section 3.1 of RFC 793 is |
| WireLayout.Ipv4HeaderLayout | libsponge/tcp_helpers/ipv4_header.cc:78-110 | byte by byte where each field and flag of section 3.1 of RFC 791 is |
| WireLayout.PseudoSumIsWeight | libsponge/tcp_helpers/ipv4_header.cc:125-131 | the initial sum is the sum of the 16-bit words of the pseudo-header |
| WireLayout.SentVerifies | libsponge/tcp_helpers/tcp_over_ip.cc:75-90 | what is sent verifies over pseudo-header and segment |
| WireLayout.TakenExactly | libsponge/tcp_helpers/tcp_over_ip.cc:26-73 | decided on addresses and bytes: a segment is taken if and only if it is TCP, verifies over pseudo-header and segment, holds its header and is for this end, from its peer or as the SYN it listens for; only that SYN changes the adapter |
| WireLayout.SentLayout | libsponge/tcp_helpers/tcp_over_ip.cc:75-90 | the bytes of a datagram with a segment in it: addresses, ports, lengths, TTL 128, DF, and the payload behind the headers |
| WireLayout.Ipv4Verdict | libsponge/tcp_helpers/ipv4_header.cc:23-75 | the verdict on a header for every buffer, decided on its bytes |
| NetworkInterfaces.NetworkInterface.constructor | libsponge/network_interface.cc:20-29 | a new interface knows and waits for nothing |
| NetworkInterfaces.NetworkInterface.SendDatagram | libsponge/network_interface.cc:34-68 | refines sending on the whole state |
| NetworkInterfaces.NetworkInterface.RecvFrame | libsponge/network_interface.cc:71-127 | refines receiving on the whole state, and hands up exactly the datagrams meant for it |
| NetworkInterfaces.NetworkInterface.Tick | libsponge/network_interface.cc:130-133 | refines the passing of time on the whole state |
| NetworkInterfaces.NetworkInterface.RemoveExpiredCache | libsponge/network_interface.cc:135-143 | the erase-while-iterating loop keeps exactly the mappings at most 30000 ms old |
| NetworkInterfaces.NetworkInterface.SendPendingDatagrams | libsponge/network_interface.cc:145-156 | the erase-while-iterating loop sends exactly the datagrams for the hop, in order, and keeps the others in order |
| InterfaceRuns.RequestsSpaced | libsponge/network_interface.cc:44-64 | over every run two ARP requests for the same address are more than 5000 ms apart |
| InterfaceRuns.DatagramsConserved | libsponge/network_interface.cc:34-156 | over every run, for each hop, what was sent followed by what waits is what was submitted, in order; some wait if and only if a request is outstanding, and then the hop is not cached |
| InterfaceRuns.MappingsCurrent | libsponge/network_interface.cc:130-156 | over every run each data frame goes to an address that an ARP message gave for its hop at most 30000 ms before |
| InterfaceRuns.Resolution | libsponge/network_interface.cc:34-156 | between two interfaces the request for an unknown neighbour is answered, both learn each other's true mapping, and the waiting datagram leaves in a frame that the neighbour accepts |
| InterfaceRuns.SendSpaced | libsponge/network_interface.cc:44-64 | a new request is far from every earlier one even though learning erases the record |
| InterfaceExact.CacheIsExact | libsponge/network_interface.cc:86-143 | over every run an address is cached if and only if an ARP message from it was accepted at most 30000 ms ago, with what the last one said |
| InterfaceExact.SubmitEmits | libsponge/network_interface.cc:34-68 | over every run exactly what a datagram provokes: its frame if the hop is known, else a request if and only if none waits for the hop or the last request is more than 5000 ms old |
| InterfaceExact.ArriveEmits | libsponge/network_interface.cc:71-127 | over every run exactly what a frame provokes: nothing if it is for another address, a datagram handed up, or the waiting datagrams in order and a reply if and only if it asks for this interface |
| Prefixes.MaskMatchesPrefix | libsponge/router.cc:44-45 | the mask test holds if and only if destination and prefix agree after division by 2^(32 - length), for lengths 0 to 32 |
| Routers.Router.AddInterface | libsponge/router.hh:64-67 | the new interface gets the next index |
| Routers.Router.AddRoute | libsponge/router.cc:22-30 | the route joins the end of the table |
| Routers.Router.FindRoute | libsponge/router.cc:40-51 | the scan finds the first of the longest matching routes, or that none matches |
| Routers.Router.RouteOneDatagram | libsponge/router.cc:33-66 | refines forwarding: one interface gets the datagram, or none |
| Routers.Router.RouteAll | libsponge/router.cc:68-77 | terminates with every queue empty and every datagram forwarded, in order |
| Routers.DecisionIsRight | libsponge/router.cc:33-66 | a datagram is dropped if and only if its TTL is at most 1 or no route matches; otherwise it goes to the best route's interface and hop with TTL one less and never 0 |
| Routers.ForwardAllByPort | libsponge/router.cc:68-77 | each interface sends exactly what is handed to it, in order |
| Routers.EachHandedOnce | libsponge/router.cc:68-77 | handed and dropped datagrams add up to those received |
| Routers.BestExists | libsponge/router.cc:40-51 | when any route matches, one is the best |
| Routers.RoutingContinuesRun | libsponge/router.cc:59-64 | what the router does to an interface continues that interface's run, so all run properties carry over |

## Left out
- Sockets, file descriptors, the event loop, TUN and TAP devices, threads and the applications.
- Eventual delivery: the code fixes no fairness, so the claims are about safety, bounds and termination.
- `Address` resolution and the random initial sequence number: addresses are numbers, the initial seqno is an input.
- Ethernet and ARP serialization: frames are values; a frame that does not parse is `Unusable`.
- Sharing of buffers, the copies of queues made to walk them, and the reference to a popped queue element in `_clear_sender_buffer`: sequences are values.
- The destructor of a connection, and what a connection does after a reset.
- Segments without ACK before any SYN was seen: the source reads an ackno that is not there and throws.
- 64-bit wrap-around of positions, counters and time, except where a difference in the source wraps around for ordinary inputs.
- Merging ARP and router frames with the byte-level formats: an interface carries datagrams as values, and the router owns its interfaces as values.
- Long methods of the source are split into several methods here; each is proved to do its part of the whole.
- SenderRuns.Step: does not model writing behind a FIN that was sent, which `WriteValid` shows to break the accounting.
- ConnectionModel.Supply: does not model writing behind a FIN that was sent, for the same reason.
- TcpConnections.TCPConnection.Write: does not model writing behind a FIN that was sent, for the same reason.
- DataPath.EndToEnd: for runs in which no payload arrives 2^31 or more from the receiver's position, because 32-bit seqnos cannot tell such positions apart.
- DataPath.PayloadPlaced: for payloads less than 2^31 from the receiver's position, for the same reason.
- DataPath.NextSafe: for payloads less than 2^31 from the receiver's position, for the same reason.
- FullDuplex.BothWays: for runs in which no payload arrives 2^31 or more from the receiver's position, for the same reason.
- ClosedLoop.PoppedWereAssembled: for runs in which no delivery ends the stream early; `PrematureFin` says exactly which do, and `UnassembledIsPopped` what happens then.
- FullDuplex.EndedIsWhole: for runs in which no arrival ends a stream early, as before.
- ConnectionRuns.CleanClose: for runs in which accepted acknowledgments do not go back; `StaleAckLeavesByte` shows what they do otherwise. An ended inbound stream is a complete one only under the condition of `PrematureFin`.
- TcpConnections.TCPConnection.SegmentReceived: does not model what happens after a reset.
