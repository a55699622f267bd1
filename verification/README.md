# D2TP transport, deadline scheduler and two nginx cores in Dafny

This project models the hard core of CEDOS and proves what it promises:

- the D2TP transport of `libdtp`: reassembly in the read buffer, the send window with its retransmission
  queue, acknowledgements, timeouts, fast retransmits, resumption after an address change, the FIN, and whole
  runs of a sender and a receiver over a network that loses, duplicates and reorders;
- the earliest-deadline-first scheduler and the deadline queue it reads;
- the header builder, the option parsers and the flow-ID index;
- from the bundled nginx, the configuration tokenizer with its refilled buffer, and CRC-32.

`dafny verify dfyconfig.toml` checks the whole project.

## How it is built

What the source changes in place is a class here: the read buffer with its linked list of nodes
(`ReadBuffer.dfy`), the send window (`SendWindow.dfy`), the deadline queue (`DeadlineQueue.dfy`), the flow-ID
bins (`FlowIdMap.dfy`), the tokenizer's buffer (`ConfReader.dfy`), and header bytes in an array
(`HeaderCodec.dfy`). Each method of the two transport classes and of the tokenizer is proved equal to a
function on values (`ReceiveSpec.dfy`, `SendSpec.dfy`, `ConfTokens.dfy`), and the properties are proved of
those functions: `Intervals.dfy` and `ReceiveSpec.dfy` for reassembly, `SendInvariant.dfy`,
`SendProperties.dfy`, `SendEffects.dfy` and `SendSafety.dfy` for the sender, `Connection.dfy`,
`SegmentSizes.dfy`, `Recovery.dfy`, `FaultyRuns.dfy` and `FullBuffer.dfy` for whole runs of a side that closes
first or not at all, and `SecondClose.dfy` and `SecondCloseRuns.dfy` for one that closes second. For the
tokenizer `ConfGrammar.dfy` is an independent grammar, `ConfParse.dfy` and `ConfRoundTrip.dfy` prove the two
directions of reading exactly that grammar, and `ConfPrint.dfy` prints and reads back. Positions count from the first byte after the key exchange.
Every handler is one atomic step.

## What turned out about the code

- `DTPWriteAvail` subtracts the bytes in flight from the peer's window in unsigned arithmetic. The window is
  honoured exactly while the bytes in flight do not exceed it; once it has shrunk below them it is ignored
  (`SendableIs`, `WindowAccounting`, `ExceededWindowIsIgnored`). Two bytes and a closed window are enough
  (`ClosedWindowIsIgnored`).
- Otherwise a call sends exactly what the windows allow, in packets of 1472 bytes but for the last
  (`WriteAvailSends`), and no packet in any run is longer (`PacketsFit`).
- The smallest write buffer for which a fast retransmit cannot push the congestion window past the buffer is
  8711 bytes, `6 * 1452 - 1` (`AvoidanceFitsExactly`); the largest for which the product in
  `MoveCongestionWindow` fits an `int`, a FIN behind a full buffer counted, is 1458887 bytes
  (`ProductFitsExactly`).
- A timeout of data takes a FIN back and moves `lastByteWritten` down by one. If the peer already has that FIN,
  its acknowledgement is one more than what is written, the cursors cross, and segments past the end of the
  stream go out, from every fresh connection with room to read (`AckBeyondWrittenHappens`). When this is so is exact
  (`AckBeyondWrittenExactly`, `AckRightExactly`). It does no harm to the receiving application: what is
  delivered stays a prefix of what was written, and the FIN results hold (`EndToEndSafety`,
  `FinCompleteness`). But the sender never gets out of it: the cursors stay crossed and the state FIN_WAIT_1,
  whatever follows (`CrossedForever`).
- An address change that resumes the transfer while a timed-out FIN stands in front of `lastByteSent` sends the
  FIN's place in the sequence as a data byte, exactly then (`ResumeKeeps`). From every state in which it happens
  that byte can be delivered behind everything written (`CorruptingContinuation`), so that this is the exact
  condition: an event is followed only by runs that deliver a prefix of what was written if and only if it is not
  this one (`SafeExactlyIfTame`). Before `dtp_close`, and in a connection without address change, nothing has to be
  excluded while the receiving side does not close (`DataPhaseSafety`, `WithoutAddressChangeSafety`).
- Nothing is lost for good while the receiving side does not close: from whatever a run has led to, crossed cursors
  included, reads, acknowledgements with room for one byte, timeouts and arrivals alone can deliver the rest of the
  stream, and the FIN if there was a `dtp_close` (`Recoverable`, `EveryRunCanFinish`).
- A side that closes second does not wait: once the peer's FIN is in, `DTPWriteAvail` sends the own FIN even if
  data is left. Its steps are those of a first closer, and keep the invariant, if and only if at every such call
  what is left fits the windows (`SecondFinExactly`, `SecondStepExactly`, `SecondCloserSafety`). Otherwise the FIN
  takes the place of a byte; two bytes and a window of one are enough to lose the second one
  (`SecondByteIsLost`). The first closer, in FIN_WAIT, takes a FIN with any number: it has every byte if and only
  if it expected that number (`SecondCloserComplete`). And in LAST_ACK any acknowledgement closes the connection,
  also in the call that sends the FIN; only that of the FIN finds the queue empty (`LastAckTakesAny`).
- The `memmove` of `HandleACKPacket` reads one byte past the write buffer exactly when a FIN is queued behind a
  completely full buffer and the acknowledgement is not for the FIN (`ShiftReadsInsideExactly`). Runs lead there with
  every write buffer of at most 1452 bytes (`OverreadHappens`) and, if addresses change, with every write buffer
  (`OverreadAtAnySize`).
- The backward pass of the scheduler uses 0 for "nothing yet". It computes the latest start exactly if no
  shorter rest of the queue has latest start 0 (`PassIsExactly`, `SentinelExample`); otherwise it forgets everything
  behind some flow (`PassForgets`).
- The queue is ordered by whole seconds while the pass counts microseconds. The queue order is optimal for the
  whole-second deadlines always (`EdfOptimal`, `NoOrderStartsLater`), and for the deadlines with microseconds,
  whatever the sizes, exactly if it is sorted by them too (`ExactOptimalExactly`,
  `WholeSecondOrderIsNotExact`).
- The tokenizer reports "too long parameter" exactly when the next byte is 4096 bytes away from where the last
  word or comment, or else the call, started, and the file goes on; blanks count, and where the buffer boundary
  falls does not matter (`ReadToken`, `LimitedAgainstAll`). It reads exactly the language of a small grammar, in
  every call and with every error (`ReadsTheGrammar`); words in any style come back as they were printed
  (`RoundTrip`). A word in double quotes fits if and only if its escaped text has at most 4093 bytes, or 4094 for
  the last one (`QuotedRoundTrip`). A variable cannot begin a bare word: `${` is the word `$` and the start of a
  block (`VariableCannotBegin`).

## Model

| member | source | states |
|---|---|---|
| Intervals.InsertCovers | libdtp/src/dtp_transport.c:2621-2726 | after an insertion exactly the old positions and those of the new interval are covered |
| Intervals.InsertNormal | libdtp/src/dtp_transport.c:2621-2726 | the list stays sorted, disjoint and non-adjacent and inside its bounds, however many intervals one packet merges |
| Intervals.InsertTotal | libdtp/src/dtp_transport.c:2621-2675 | the total length grows by the new length less the counted overlaps |
| Intervals.FreshIsNewPositions | libdtp/src/dtp_transport.c:2536-2557 | length less counted overlaps is the number of positions not covered before |
| Intervals.NormalFormIsUnique | libdtp/src/dtp_transport.c:2621-2726 | two normal lists that cover the same positions are equal |
| ReceiveSpec.AcceptCovers | libdtp/src/dtp_transport.c:2609-2726 | a packet adds exactly its positions between nextByteExpected and the end of the buffer |
| ReceiveSpec.AcceptReturnsNewBytes | libdtp/src/dtp_transport.c:2614-2675 | the value returned, when positive, is the number of bytes that were missing |
| ReceiveSpec.AcceptKeepsInv | libdtp/src/dtp_transport.c:2559-2784 | list and cursors agree again after every packet and the copy stays inside the read buffer |
| ReceiveSpec.ExpectedIsFirstMissing | libdtp/src/dtp_transport.c:2718-2726 | nextByteExpected is the first position that has not arrived, and nothing outside [lastByteRead, lastByteRcvd) is covered |
| ReceiveSpec.AcceptAgrees | libdtp/src/dtp_transport.c:2609-2620 | if the packet carries stream bytes, or lies past the stream, every covered position of the stream still holds its byte |
| ReceiveSpec.AcceptAllCovers | libdtp/src/dtp_transport.c:2559-2784 | after any sequence of packets exactly the old positions and those the packets brought between nextByteExpected and the end of the buffer are covered |
| ReceiveSpec.OrderDoesNotMatter | libdtp/src/dtp_transport.c:2559-2784 | the same packets, in any order and repeated any number of times, leave the same list, nextByteExpected and lastByteRcvd |
| ReceiveSpec.AcceptAllAgrees | libdtp/src/dtp_transport.c:2609-2620 | and, if they carry bytes of one stream, the same byte at every covered position |
| ReceiveSpec.RecvKeepsInv | libdtp/src/dtp_socket.c:604-642 | sliding the buffer and draining the head keep list and cursors in agreement |
| ReceiveSpec.RecvAgrees | libdtp/src/dtp_socket.c:604-642 | the bytes handed out are the next bytes of the stream; blocking happens exactly when nothing is ready and no FIN came |
| ReceiveSpec.RecvCovers | libdtp/src/dtp_socket.c:604-642 | after a read exactly the old positions from the new lastByteRead on are covered |
| ReceiveSpec.AmountRead | libdtp/src/dtp_socket.c:604-642 | a read or peek hands out the smaller of what is asked for and what is there in order; a peek changes nothing |
| ReceiveSpec.MissingArrives | libdtp/src/dtp_transport.c:2609-2726 | a packet that starts with the first missing byte moves nextByteExpected, whatever else has arrived |
| ReceiveSpec.EverythingRead | libdtp/src/dtp_socket.c:604-642 | once everything has arrived one read returns the rest of the stream and leaves an empty list |
| ReadBuffer.Node.CalculateOverlap | libdtp/src/dtp_transport.c:2536-2557 | whether two intervals overlap or touch, and the number of positions they share |
| ReadBuffer.ReadBuffer.MergeNode | libdtp/src/dtp_transport.c:2621-2716 | the surgery on the linked list yields the list with the new interval inserted and counts the overlaps |
| ReadBuffer.ReadBuffer.MoveCursors | libdtp/src/dtp_transport.c:2718-2726 | nextByteExpected and lastByteRcvd follow the head and the end of the list |
| ReadBuffer.ReadBuffer.HandleNormalPacket | libdtp/src/dtp_transport.c:2559-2784 | the in-place handler on array and linked list refines the reassembly function, result included |
| ReadBuffer.ReadBuffer.Recv | libdtp/src/dtp_socket.c:501-698 | dtp_recv on array and linked list refines its function; the mismatch of head and lastByteRead the original looks for does not occur |
| ReadBuffer.ReadBuffer.HandleFin | libdtp/src/dtp_transport.c:1874-1968 | a FIN is accepted once everything before it has arrived |
| SendInvariant.SendableIs | libdtp/src/dtp_transport.c:525-534 | what may be sent, through the mixed signed and unsigned arithmetic; the window counts exactly while it is not exceeded |
| SendInvariant.SendLoopKeeps | libdtp/src/dtp_transport.c:536-649 | the sending loop keeps the invariant, sends only right segments and moves sent and segSent alike |
| SendInvariant.SendFinKeeps | libdtp/src/dtp_transport.c:740-801 | the FIN is queued behind all data with the number of the end of the stream |
| SendInvariant.WriteAvailKeeps | libdtp/src/dtp_transport.c:489-673 | DTPWriteAvail keeps the whole invariant and emits only segments that tell the truth about the stream |
| SendInvariant.RemoveTiles | libdtp/src/dtp_transport.c:1992-2058 | an acknowledgement leaves a queue that tiles exactly the bytes after it, also when it cuts a packet |
| SendInvariant.RemoveBeforeFin | libdtp/src/dtp_transport.c:1992-2058 | the same with a FIN at the end of the queue, which stays until it is acknowledged itself |
| SendInvariant.AcknowledgeKeeps | libdtp/src/dtp_transport.c:2140-2184 | cursors, queue and shifted buffer agree after full and partial acknowledgements, also above a rolled-back lastByteSent |
| SendInvariant.WireRight | libdtp/src/dtp_transport.h:377-397 | each queued packet, taken from the re-based buffer, carries exactly the stream bytes its header names |
| SendInvariant.FastRetransmitKeeps | libdtp/src/dtp_transport.c:1970-1990 | a fast retransmit keeps the invariant and repeats right bytes |
| SendInvariant.HandleAckKeeps | libdtp/src/dtp_transport.c:2060-2216 | HandleACKPacket keeps the invariant and emits right segments for every acknowledgement up to lastByteWritten |
| SendInvariant.TimeoutIsGoBackN | libdtp/src/dtp_transport.c:2934-3011 | the packet loop does nothing unless the head is due; then exactly the head stays, marked and sent again, and sent returns to its end |
| SendInvariant.HandleTimeoutKeeps | libdtp/src/dtp_transport.c:2934-3011 | a timeout discards no unacknowledged byte below lastByteSent and keeps the invariant |
| SendInvariant.ResumeKeeps | libdtp/src/dtp_transport.c:1725-1803 | resuming after RSP or AUTH keeps the invariant, and sends right segments, if and only if no timed-out FIN is pending |
| SendInvariant.SlowStartKeeps | libdtp/src/dtp_transport.c:317-336 | a slow start keeps the invariant if and only if no timed-out FIN is pending |
| SendInvariant.SendKeeps | libdtp/src/dtp_socket.c:863-991 | dtp_send extends the stream by exactly the bytes it accepts, also after dtp_close while still established, and by none once a FIN was sent |
| SendInvariant.CloseKeeps | libdtp/src/dtp_socket.c:1107-1234 | dtp_close sends what is left and then the FIN |
| SendProperties.WindowAccounting | libdtp/src/dtp_transport.c:531-649 | the loop ends inside the peer's window exactly if it started there, and segSent stays below the larger of its old value and cwnd |
| SendProperties.ExceededWindowIsIgnored | libdtp/src/dtp_transport.c:531-534 | with more in flight than the window, data goes out exactly as if the window were open |
| SendProperties.NoStall | libdtp/src/dtp_transport.c:536-539 | with nothing in flight, data to send, an open window and cwnd of one packet, something is sent |
| SendProperties.AvoidanceFitsExactly | libdtp/src/dtp_transport.c:1246-1253 | a fast retransmit stays within the write buffer from every window if and only if the buffer has 8711 bytes |
| SendProperties.MovedCwndGrows | libdtp/src/dtp_transport.c:1233-1244 | the congestion window stays between one packet and the write buffer |
| SendProperties.ProductFitsExactly | libdtp/src/dtp_transport.c:1233-1244 | for every state of the invariant and every acknowledgement of something written, FIN included, the product of acknowledged bytes and packet size fits an int, if and only if the buffer has at most 1458887 bytes |
| SendProperties.WriteAvailFrame | libdtp/src/dtp_transport.c:489-673 | in any state DTPWriteAvail leaves buffer, windows and the acknowledged cursor alone |
| SendProperties.AckKeepsCongestionOk | libdtp/src/dtp_transport.c:2060-2216 | HandleACKPacket keeps cwnd and ssthresh in bounds, in any state and for any acknowledgement |
| SendProperties.TimeoutKeepsCongestionOk | libdtp/src/dtp_transport.c:2934-3011 | so does the packet loop of a timeout |
| SendProperties.ResumeKeepsCongestionOk | libdtp/src/dtp_transport.c:1777-1803 | so does resuming after an address change |
| SendProperties.FinAckAfterRollback | libdtp/src/dtp_transport.c:2140-2154 | the acknowledgement of a FIN that was taken back makes the sender emit a segment past the end of the stream |
| SendProperties.AckRightExactly | libdtp/src/dtp_transport.c:2060-2216 | of all acknowledgements the peer can send, exactly those up to lastByteWritten are answered with right segments, unless a closed or just reopened window keeps the sender from working them in |
| SendProperties.ShiftReadsInsideExactly | libdtp/src/dtp_transport.c:2147-2151 | for every acknowledgement the bytes the shift reads lie inside the write buffer, unless a FIN is queued behind a full buffer and is not acknowledged itself |
| SendEffects.WriteAvailSends | libdtp/src/dtp_transport.c:489-673 | exactly the bytes the windows allow go out, in order, in packets that fill 1472 bytes with a header of 20 bytes, or 24 for the one with the window scale, but for the last; less than a full payload waits unless nothing more is left, will come or is taken; the FIN follows exactly if closing and nothing is left |
| SendEffects.AckMovesWindow | libdtp/src/dtp_transport.c:1233-1244 | an acknowledgement of new bytes moves cwnd by as many in slow start, and by the whole part of bytes times 1472 over cwnd beyond it, the mixed case included, never past the buffer |
| SendEffects.AckLeavesWindow | libdtp/src/dtp_transport.c:2060-2138 | old acknowledgements, those that reopen the window and duplicates but the fourth leave cwnd and ssthresh alone |
| SendEffects.FourthDuplicate | libdtp/src/dtp_transport.c:1970-1990 | the fourth acknowledgement of the same number sends exactly the head of the queue again, from that number to its end or as the FIN, marks it, sets ssthresh to half of cwnd but at least 1452 and cwnd to 4356 more |
| SendEffects.FastRetransmitHappens | libdtp/src/dtp_transport.c:2126-2138 | after an acknowledgement that freed a packet, three more of the same number, with any open windows, do so |
| SendEffects.AckIsWorkedIn | libdtp/src/dtp_transport.c:2060-2205 | any other acknowledgement moves cursors, buffer and queue to it, ends congestion and the count of duplicates exactly if it frees the head, then sends on; FIN_WAIT_2 is entered exactly with the FIN's |
| SendEffects.AckIsNotWorkedIn | libdtp/src/dtp_transport.c:2075-2121 | an old acknowledgement changes nothing, and one that reopens the window only makes the sender send on |
| SendEffects.TimeoutRepeatsHead | libdtp/src/dtp_transport.c:2934-3011 | a timeout of the head sends exactly it again and rolls sent, FIN and written back to its end; cwnd starts over at 1452 and ssthresh is half of what cwnd was but at least 1452 |
| SendEffects.NothingRepeatedWhenDone | libdtp/src/dtp_transport.c:2991-3009 | in FIN_WAIT_2 and CLOSED a timeout sends nothing, in any state |
| SendEffects.ResumeSends | libdtp/src/dtp_transport.c:1777-1803 | resuming starts over with cwnd 1452 and the own read buffer as threshold and window, and sends what that allows |
| SendEffects.ResumeRepeatsHead | libdtp/src/dtp_transport.c:1725-1749 | after RSP the head of the queue is sent again as well, and marked |
| SendEffects.SendAccepts | libdtp/src/dtp_socket.c:863-991 | dtp_send accepts as much as fits, waits exactly if nothing does, and refuses once a FIN was sent |
| SendSafety.AckSound | libdtp/src/dtp_transport.c:2060-2216 | for every acknowledgement a peer can send, in the invariant or with crossed cursors, what is emitted is right or past the end of the stream, and nothing else is lost |
| SendSafety.Crossing | libdtp/src/dtp_transport.c:2139-2154 | the acknowledgement of a taken-back FIN crosses the cursors, and only segments past the stream follow |
| SendSafety.TimeoutSound | libdtp/src/dtp_transport.c:2934-3011 | the same for timeouts |
| SendSafety.ResumeSound | libdtp/src/dtp_transport.c:1725-1803 | the same for resuming after an address change, if and only if no timed-out FIN is pending |
| SendSafety.SendSound | libdtp/src/dtp_socket.c:863-991 | the same for dtp_send, whose bytes extend the stream |
| SendSafety.CloseSound | libdtp/src/dtp_socket.c:1107-1234 | the same for dtp_close |
| SendWindow.SendWindow.SendPacket | libdtp/src/dtp_transport.c:540-645 | the body of the sending loop refines queueing one packet |
| SendWindow.SendWindow.SendPackets | libdtp/src/dtp_transport.c:536-649 | the loop refines the sending function and terminates |
| SendWindow.SendWindow.SendFin | libdtp/src/dtp_transport.c:740-801 | refines queueing and sending the FIN |
| SendWindow.SendWindow.WriteAvail | libdtp/src/dtp_transport.c:489-673 | refines DTPWriteAvail's meaning in any state and keeps the invariant |
| SendWindow.SendWindow.RemovePacket | libdtp/src/dtp_transport.c:1992-2058 | the loop that frees and trims packets refines its function |
| SendWindow.SendWindow.MoveCongestionWindow | libdtp/src/dtp_transport.c:1233-1244 | refines the window function |
| SendWindow.SendWindow.Acknowledge | libdtp/src/dtp_transport.c:2140-2184 | cursors, memmove, queue and window updated in place as specified |
| SendWindow.SendWindow.FastRetransmit | libdtp/src/dtp_transport.c:1970-1990 | refines the fast retransmit; the facts the original asserts hold |
| SendWindow.SendWindow.HandleAck | libdtp/src/dtp_transport.c:2060-2216 | refines HandleACKPacket's meaning for any acknowledgement and keeps the invariant for those up to lastByteWritten |
| SendWindow.SendWindow.Resend | libdtp/src/dtp_transport.c:1319-1381 | a timed-out packet is marked, sent again and rolled back to |
| SendWindow.SendWindow.HandleTimeout | libdtp/src/dtp_transport.c:2934-3011 | the packet loop with its delayed removals refines its meaning in any state and keeps the invariant |
| SendWindow.SendWindow.SlowStart | libdtp/src/dtp_transport.c:317-336 | refines the slow start; the invariant survives if and only if no timed-out FIN is pending |
| SendWindow.SendWindow.ResumeAuth | libdtp/src/dtp_transport.c:1777-1803 | refines resuming after AUTH in any state and keeps the invariant unless a timed-out FIN is pending |
| SendWindow.SendWindow.ResumeRsp | libdtp/src/dtp_transport.c:1725-1749 | refines resuming after RSP, with the head sent again, in any state and keeps the invariant unless a timed-out FIN is pending |
| SendWindow.SendWindow.Send | libdtp/src/dtp_socket.c:863-991 | refines dtp_send, which refuses data in every closing state; the accepted bytes extend the stream |
| SendWindow.SendWindow.Close | libdtp/src/dtp_socket.c:1107-1234 | refines dtp_close |
| Connection.StepKeepsInv | libdtp/src/dtp_transport.c:489-3011 | every step of sender, receiver and network keeps the invariant of the whole system if and only if it does not resume in front of a timed-out FIN |
| Connection.RunKeepsInv | libdtp/src/dtp_transport.c:489-3011 | hence every run does |
| Connection.EndToEndSafety | libdtp/src/dtp_transport.c:1992-2784 | in every run the bytes dtp_recv returned are a prefix of those dtp_send accepted, acknowledgements are for what the receiver has, at most the stream and its FIN, and every data segment that starts within the stream carries the bytes its header names |
| Connection.SendQueuePartition | libdtp/src/dtp_transport.c:586-645 | in every run, until the cursors cross, the queue tiles [lastByteAcked, lastByteSent), go-back-N discipline holds and the buffer holds the stream from lastByteAcked on |
| Connection.ReassemblyInRuns | libdtp/src/dtp_transport.c:2609-2726 | in every run the list covers exactly the positions that arrived within the buffer and were not read, each with its stream byte, and nextByteExpected is the first that has not arrived |
| Connection.FinCompleteness | libdtp/src/dtp_transport.c:1902-1926 | in every run all FINs carry the end of the stream, a peer in CLOSE_WAIT has every byte, and an acknowledged FIN was accepted |
| Connection.CrossedForever | libdtp/src/dtp_transport.c:2140-2205 | once the cursors have crossed they stay so in every run, and the sender stays in FIN_WAIT_1 |
| Connection.BeforeClose | libdtp/src/dtp_transport.c:489-673 | every sequence of events without dtp_close, address changes included, is a run the results cover |
| Connection.WithoutAddressChange | libdtp/src/dtp_transport.c:740-798 | so is every sequence without address change |
| Connection.DataPhaseSafety | libdtp/src/dtp_transport.c:2060-2216 | before dtp_close, whatever happens, bytes come out as they went in and every acknowledgement in flight is at most lastByteWritten |
| Connection.WithoutAddressChangeSafety | libdtp/src/dtp_transport.c:668-798 | without address change, while the receiving side does not close, whatever happens, bytes come out as they went in, all FINs carry one number, and their acceptance finds every byte received |
| Connection.AckBeyondWrittenExactly | libdtp/src/dtp_transport.c:2974-2980 | an acknowledgement in flight exceeds lastByteWritten exactly if it is for an accepted FIN that stands taken back |
| Connection.SentBytesAreQueued | libdtp/src/dtp_transport.c:2934-2942 | in every run and for every buffer size segSent is at most the queued payload, and equal to it without address change |
| Connection.WindowBounds | libdtp/src/dtp_transport.c:1233-1262 | in every run with large enough buffers cwnd and ssthresh stay in bounds |
| Connection.NeverStalls | libdtp/src/dtp_transport.c:536-539 | wherever a run has led, an idle uncongested sender with data and an open window sends |
| SegmentSizes.PacketsFit | libdtp/src/dtp_transport.c:585-593 | in every run no data segment and no queued packet has more than 1452 bytes of payload |
| Recovery.SomethingInFlight | libdtp/src/dtp_transport.c:525-671 | with room for one byte, DTPWriteAvail leaves something in the queue of every sender that has a byte or a FIN left |
| Recovery.AckGetsNearer | libdtp/src/dtp_transport.c:2060-2216 | an acknowledgement repeated at most four times is worked in and leaves something in flight, through a closed window and a fast retransmit of nothing |
| Recovery.HeadGoesOut | libdtp/src/dtp_transport.c:2934-3011 | a timeout of the head repeats exactly the next byte the peer lacks, or the FIN |
| Recovery.Recoverable | libdtp/src/dtp_transport.c:489-3011 | from every state a run can have reached, a continuation without any write, close or resume delivers the whole stream, and the FIN if dtp_close was called |
| Recovery.EveryRunCanFinish | libdtp/src/dtp_transport.c:489-3011 | hence every run from a fresh connection can be continued so |
| FaultyRuns.CorruptingContinuation | libdtp/src/dtp_transport.c:1725-1803 | from every state a run can have reached, resuming in front of a timed-out FIN can be continued so that one byte more than was written is delivered |
| FaultyRuns.SafeExactlyIfTame | libdtp/src/dtp_transport.c:1725-1803 | an event is followed only by runs that deliver a prefix of what was written if and only if it does not resume in front of a timed-out FIN |
| FaultyRuns.CorruptingRun | libdtp/src/dtp_transport.c:1777-1803 | from every fresh connection with room to read, a run with an address change delivers a byte although nothing was written |
| FaultyRuns.RolledBackFinHappens | libdtp/src/dtp_transport.c:2974-2980 | a run leads to a timed-out FIN in front of which the transfer can be resumed |
| FaultyRuns.AckBeyondWrittenHappens | libdtp/src/dtp_transport.c:2974-2980 | a run leads to an acknowledgement in flight beyond lastByteWritten, and one more step to a segment past the stream |
| FullBuffer.OverreadHappens | libdtp/src/dtp_transport.c:2147-2151 | with every write buffer of at most 1452 bytes, a run that fills it and closes leads to an acknowledgement whose shift reads past the buffer |
| FullBuffer.OverreadAtAnySize | libdtp/src/dtp_transport.c:2147-2151 | with every write buffer, a run with address changes that fills it and closes leads to such an acknowledgement |
| FaultyRuns.ClosedWindowIsIgnored | libdtp/src/dtp_transport.c:531-534 | a run sends a byte after the peer closed its window |
| SecondClose.LikeFirst | libdtp/src/dtp_transport.c:489-673 | after the peer's FIN, in any state, DTPWriteAvail does what it does before it, if no FIN is due or the rest fits |
| SecondClose.SecondFinExactly | libdtp/src/dtp_transport.c:668-671 | it keeps the invariant and sends only right segments if and only if so; otherwise a FIN goes out in the middle of the stream |
| SecondClose.TimeoutAsFirst | libdtp/src/dtp_transport.c:2934-3011 | a timeout in CLOSE_WAIT or LAST_ACK does what it does for a first closer |
| SecondClose.AckAsFirst | libdtp/src/dtp_transport.c:2060-2216 | so does an acknowledgement, as long as FINs are in place |
| SecondClose.AckOutOfPlace | libdtp/src/dtp_transport.c:2060-2216 | and if they are not it makes a FIN go out that does not name the end of the data |
| SecondClose.ResumeAsFirst | libdtp/src/dtp_transport.c:1725-1803 | the same for resuming after an address change |
| SecondClose.ResumeOutOfPlace | libdtp/src/dtp_transport.c:1725-1803 | and its converse |
| SecondClose.LastAckTakesAny | libdtp/src/dtp_transport.c:2203-2215 | in LAST_ACK, also when just entered, exactly the acknowledgements that are worked in close the connection, and only that of the FIN finds nothing left in the queue |
| SecondClose.FinTaken | libdtp/src/dtp_transport.c:1874-1926 | on a side that has not closed HandleFINPacket is the check of the number the receiver model uses |
| SecondClose.SecondCloserComplete | libdtp/src/dtp_transport.c:1890-1905 | a side in FIN_WAIT takes the FIN whatever its number, and then has every byte if and only if it expected that number, or, if it did, if and only if the rest fitted |
| SecondCloseRuns.SecondStepExactly | libdtp/src/dtp_transport.c:489-3011 | a step of a second closer keeps the invariant of a first closer if and only if FINs are in place |
| SecondCloseRuns.SecondRunKeepsInv | libdtp/src/dtp_transport.c:489-3011 | hence every such run does |
| SecondCloseRuns.SecondCloserSafety | libdtp/src/dtp_transport.c:668-671 | after any run and the peer's close, with FINs in place, what is delivered is a prefix, every FIN names the end of the stream, and the first closer then has every byte if and only if it expected that number |
| SecondCloseRuns.SecondByteIsLost | libdtp/src/dtp_transport.c:668-671 | from every fresh connection a run ends with a FIN accepted behind the first of two written bytes |
| DeadlineQueue.RetransQueue.Place | libdtp/src/dtp_retrans_queue.c:47-61 | the loop finds the place behind every context that is not later |
| DeadlineQueue.RetransQueue.Insert | libdtp/src/dtp_retrans_queue.c:36-66 | insertion keeps the queue ordered by second, and among equal seconds by when contexts were put in |
| DeadlineQueue.RetransQueue.Remove | libdtp/src/dtp_retrans_queue.c:69-84 | removal works although the context's own key was already changed |
| DeadlineQueue.RetransQueue.Create | libdtp/src/dtp_transport.c:273-287 | a new context joins the live ones in order, its deadline being now |
| DeadlineQueue.RetransQueue.Close | libdtp/src/dtp_transport.c:1630-1630 | a closed context leaves, the others stay in order |
| DeadlineQueue.RetransQueue.SetBlockSize | libdtp/src/dtp_socket.c:1718-1750 | the 32-bit remainder grows, a deadline starts if one is set, and the queue is valid again after the key changed in place |
| DeadlineQueue.RetransQueue.SetDeadline | libdtp/src/dtp_socket.c:1754-1783 | fails exactly for a negative deadline or one without a block size, then leaving the queue alone; otherwise the queue is valid again |
| DeadlineQueue.RetransQueue.QueueIsDetermined | libdtp/src/dtp_retrans_queue.c:36-84 | live contexts, their seconds and when each was last put in determine the queue |
| Scheduler.LatestStartIsExact | libdtp/src/scheduler.c:51-67 | sending back to back from t meets every deadline if and only if t is at most the latest start |
| Scheduler.PassIsExactly | libdtp/src/scheduler.c:51-67 | the pass computes the latest start if and only if it does not come across 0 |
| Scheduler.PassAgainstLatestStart | libdtp/src/scheduler.c:51-67 | once it came across 0 its result is too late and the true latest start is not positive |
| Scheduler.PassForgets | libdtp/src/scheduler.c:51-60 | what it computes then is the latest start of the flows before the first rest for which it came to 0 |
| Scheduler.SentinelExample | libdtp/src/scheduler.c:52-60 | a queue for which the pass is wrong |
| Scheduler.EdfOptimal | libdtp/src/dtp_retrans_queue.c:47-61 | if any order of the same jobs meets the limits from t, the order sorted by limit does |
| Scheduler.NoOrderStartsLater | libdtp/src/scheduler.c:51-60 | if any order finishes every flow by its whole-second deadline from t, so does the queue, and t is at most what the pass computes |
| Scheduler.ExactOptimalExactly | libdtp/src/scheduler.c:51-60 | with microseconds counted the queue order is optimal for all sizes if and only if it is sorted by them |
| Scheduler.WholeSecondOrderIsNotExact | libdtp/src/dtp_retrans_queue.c:47-61 | two flows of the same second that have to be swapped |
| Scheduler.DenyIsSafe | libdtp/src/scheduler.c:69-79 | when sending is denied, starting now meets every deadline if and only if the pass did not come across 0 |
| Scheduler.AllowIsForced | libdtp/src/scheduler.c:69-79 | when it is allowed, no order started later meets the whole-second deadlines |
| Scheduler.Cost | libdtp/src/scheduler.c:54-59 | the link carries exactly the bits of the block in that time |
| Scheduler.CarriesIsMeets | libdtp/src/scheduler.c:51-60 | sending back to back meets the limits if and only if, by each limit in microseconds, the link has carried the bits of the block and of all before it |
| Scheduler.PassIsLatestStart | libdtp/src/scheduler.c:51-60 | what the pass computes is the latest time the link can start and carry every block in time, unless some rest of the queue has latest start 0 |
| Scheduler.LatestCellularStart | libdtp/src/scheduler.c:51-67 | the reverse loop finds the latest time the link can start and carry every block in time, unless some rest has latest start 0, and clears every flag |
| Scheduler.Schedule | libdtp/src/scheduler.c:28-91 | only the head may send; allow, deny and the choice of link are decided, in bytes, bits per microsecond and deadlines, by whether the link could still start later; no order of the blocks could when it is urgent |
| HeaderCodec.GenerateHeader | libdtp/src/dtp.c:157-193 | the receiver reads back the numbers, the flow ID, the flags and the window, or 0x7FFF if that is less; reserved bits stay |
| HeaderCodec.AddOption | libdtp/src/dtp.c:196-254 | the options written so far, the new one behind them, zero padding and a data offset of four bits |
| HeaderCodec.DoffIsExact | libdtp/src/dtp.c:249-251 | the data offset is right if and only if header and options have at most 60 bytes |
| HeaderCodec.GetOption | libdtp/src/dtp.c:264-312 | terminates and recovers the last host ID and deadline of any written option list, or leaves them alone |
| HeaderCodec.ParseOption | libdtp/src/dtp.c:316-366 | terminates and recovers the last window scale up to 14 and the last port, in network order |
| HeaderCodec.SendersFit | libdtp/src/dtp_transport.c:549-583 | every option set the senders build has at most 55 bytes with the header |
| HeaderCodec.PeerRecovers | libdtp/src/dtp_transport.c:1182-1208 | the peer recovers from a SYN+ACK exactly what was put in |
| HeaderCodec.BuildSynAck | libdtp/src/dtp_transport.c:1174-1210 | the header carries the fixed part and the options, and its length is what the data offset says |
| FlowIdMap.Index.Lookup | libdtp/src/context.c:93-105 | the hash lookup agrees with a plain map |
| FlowIdMap.Index.Add | libdtp/src/context.c:76-82 | adds to the plain map under the context's flow ID |
| FlowIdMap.Index.Remove | libdtp/src/context.c:84-92 | finds the context in the bin its flow ID names and removes exactly it |
| FlowIdMap.Index.HandleSyn | libdtp/src/dtp_transport.c:2243-2291 | a known flow ID is answered again or refused by host, an unknown one gets a context of its own |
| FlowIdMap.Index.Close | libdtp/src/dtp_transport.c:907-907 | closing a context takes it, and nothing else, out of the index |
| FlowIdMap.Index.Connect | libdtp/src/dtp_socket.c:279-281 | a connecting context takes a flow ID without entering the index |
| FlowIdMap.Index.HandleRst | libdtp/src/dtp_transport.c:2478-2532 | the flow ID of an indexed context never changes |
| FlowIdMap.Index.FlowIdsAreUnique | libdtp/src/dtp_transport.c:2251-2290 | each flow ID has at most one indexed context |
| ConfTokens.UnescapeDecodes | dprox-nginx/src/core/ngx_conf_file.c:684-715 | the copy loop decodes a text whose backslashes are all paired, pair by pair, and never steps over its end |
| ConfTokens.LimitedAgainstAll | dprox-nginx/src/core/ngx_conf_file.c:478-502 | the limit changes nothing unless the text is overlong, and then the words up to there are the same |
| ConfParse.OnNothing | dprox-nginx/src/core/ngx_conf_file.c:551-633 | the turn between words: blanks, terminators with and without words, comments, quotes, and the first byte of a bare word |
| ConfParse.OnWord | dprox-nginx/src/core/ngx_conf_file.c:635-650 | the turn inside a word at a byte that does not end it, with backslashes and the braces of variables |
| ConfParse.OnWordEnd | dprox-nginx/src/core/ngx_conf_file.c:652-727 | the turn that ends a word adds what its text stands for, and returns the code of the terminator if it is bare |
| ConfParse.EveryCallParses | dprox-nginx/src/core/ngx_conf_file.c:426-730 | every call, from anywhere in any file: what it reads is a sequence of blanks, comments and words and one byte more, every byte accounted for; the words returned are exactly these, and the code names the terminator, the byte that does not fit, or the end of the file |
| ConfRoundTrip.ReadPieces | dprox-nginx/src/core/ngx_conf_file.c:532-729 | any sequence of blanks, comments and words, as the grammar allows it, is read as its words |
| ConfRoundTrip.ReadEnded | dprox-nginx/src/core/ngx_conf_file.c:426-730 | with a terminator or a byte that does not fit at the end the call returns the code for it; the buffered call gives up exactly if some part is too long |
| ConfRoundTrip.ReadUnended | dprox-nginx/src/core/ngx_conf_file.c:456-476 | at the end of the file the call reports it as the end or as unexpected, exactly by whether words or the beginning of one were read |
| ConfRoundTrip.ReadsTheGrammar | dprox-nginx/src/core/ngx_conf_file.c:426-730 | a call returns a code and words and comes to a place if and only if the text up to there parses so |
| ConfPrint.EscapeIsText | dprox-nginx/src/core/ngx_conf_file.c:684-715 | an escaped word, in each of the three styles, is the text of a word that stands for it |
| ConfPrint.RoundTrip | dprox-nginx/src/core/ngx_conf_file.c:532-727 | words printed bare, in single or in double quotes, with any blanks and comments between, and a semicolon or an opening brace at the end, are read back as exactly these words with the code for the terminator, by the buffered call if and only if no part is too long |
| ConfPrint.QuotedRoundTrip | dprox-nginx/src/core/ngx_conf_file.c:476-727 | any list in double quotes is read back, by the buffered call if and only if no escaped text has more than 4093 bytes, or 4094 at the end |
| ConfPrint.VariableCannotBegin | dprox-nginx/src/core/ngx_conf_file.c:630-650 | a dollar sign and a brace at the beginning of a word are read as a word and the start of a block |
| ConfReader.Reader.Refill | dprox-nginx/src/core/ngx_conf_file.c:476-530 | moving the word to the front and reading on changes nothing in terms of the file |
| ConfReader.Reader.CopyWord | dprox-nginx/src/core/ngx_conf_file.c:673-717 | the copy loop on the buffer refines the one on the file, within the allocated length |
| ConfReader.Reader.Turn | dprox-nginx/src/core/ngx_conf_file.c:532-729 | one turn on the buffered flags refines one turn of the whole-file scan |
| ConfReader.Reader.ReadToken | dprox-nginx/src/core/ngx_conf_file.c:426-730 | for every file the buffered call returns the words, code and place of the limited scan of the whole file, and unless it gives up what it has read parses so |
| Crc32.FeedByte | dprox-nginx/src/core/ngx_crc32.h:28-32 | eight single-bit steps are one shift by eight of register and byte |
| Crc32.Lookup16 | dprox-nginx/src/core/ngx_crc32.c:26-31 | every entry of the short table is what four shifts make of a nibble |
| Crc32.Lookup256 | dprox-nginx/src/core/ngx_crc32.c:34-99 | every entry of the long table is what eight shifts make of a byte |
| Crc32.RegisterConcat | dprox-nginx/src/core/ngx_crc32.h:52-66 | updating over a concatenation is updating over the parts in turn |
| Crc32.Short | dprox-nginx/src/core/ngx_crc32.h:20-35 | the nibble form equals the bit-by-bit CRC-32 of every byte string |
| Crc32.Update | dprox-nginx/src/core/ngx_crc32.h:56-69 | the update equals the bit-by-bit register after the bytes |
| Crc32.Long | dprox-nginx/src/core/ngx_crc32.h:38-50 | the byte form equals the bit-by-bit CRC-32 of every byte string, hence the nibble form |
| Crc32.CheckValue | dprox-nginx/src/core/ngx_crc32.h:38-50 | the digits from 1 to 9 have the standard check value 0xCBF43926 |
| Crc32.BurstsAreDetected | dprox-nginx/src/core/ngx_crc32.h:20-50 | two messages that differ only within four consecutive bytes have different CRCs |

## Left out

- EndToEndSafety: excludes resuming in front of a timed-out FIN, after which it fails, as SafeExactlyIfTame shows; and the receiving side does not close, for which see SecondCloserSafety.
- FinCompleteness: the receiving side does not close, for the same reason.
- WithoutAddressChangeSafety: the receiving side does not close, for the same reason.
- WriteAvailKeeps: its invariant is that of a side whose peer has not closed; SecondFinExactly says what the test of tc_isFINRcvd changes.
- SecondCloserSafety: ends with the arrival of the FIN at the first closer, whose context closes then.
- LastAckTakesAny: the 30 seconds after which LAST_ACK gives up are not modelled.
- Recv: does not model the assertion at libdtp/src/dtp_socket.c:587 that a reader woken from its wait never finds bytes in CLOSE_WAIT, because waiting is an outcome here and not a wait.
- HandleFin: covers a side that has not closed itself; a side in FIN_WAIT is covered on values by FinTaken, and what it does to its own queue and TIME_WAIT are not modelled.
- MoveCongestionWindow: does not model the undefined int overflow of its product, which ProductFitsExactly delimits.
- Schedule: speeds and times are real numbers, so rounding of doubles is not modelled; the link speed is positive.
- LatestCellularStart: real numbers in place of doubles, for the same reason.
- GetOption: covers option lists a builder can write, with fillers; malformed option lengths are not modelled.
- Sequence numbers do not wrap, as libdtp/src/dtp_socket.c:264-270 declares; local sends succeed and tc_isNetConnected stays true.
- Timers, round-trip estimates and timeouts in seconds: which packets are due is a parameter of HandleTimeout.
- The byte read past the write buffer by the memmove, and any packet taken from outside the buffer, is undefined in C and modelled as unchanged or empty.
- The handshake before the data phase, challenge and response, keys, host and flow ID generation: only the resumption they cause and the IDs they deliver.
- HandleDisconnect, DTPReconnect, interface switching by RCVLOBUF, dtp_select and dtp_poll, sockets, libevent, locks and condition variables.
- The mobile bit of the header, which only the mobile build sets, and the checksum and urgent fields, which nothing sets.
- Server-side deadlines, which HandleSYNPacket sets without reinserting the context.
- Line numbers and messages of the tokenizer, failed reads and failed allocations; the TAILQ links of packet queue, deadline queue and bins, which are sequences here.
- ngx_crc32_table_init, which only moves the short table to an aligned address.
- The rest of nginx, ReadyCast and the retired scheduler.
