/** The sending half of a D2TP connection as a value: the flat write buffer, the three cursors, the
    retransmission queue, the congestion and window fields and the closing state, with the meaning
    of each handler.

    C integer conversions are written out where the original mixes int and uint32_t. Times are not
    modelled: which packets are past their timeout is a parameter.
 */
module SendSpec {
  import opened DtpBase

  /** dtp_pkt without its header bytes: `len` is the payload length tp_len - tp_headerLen and `hdrSeq`
      the sequence number stored in the header, which is what goes on the wire. */
  datatype Packet = Packet(seqNum: nat, len: int, hdrSeq: nat, isRetrans: bool, isFin: bool) {
    function End(): int {
      seqNum + len
    }
  }

  /** The states of a side that closes first, up to the acknowledgement of its FIN, and of one that closes second. */
  datatype State = Established | FinWait1 | FinWait2 | CloseWait | LastAck | Closed

  /** The send fields of dtp_context. `buf` is tc_writeBuf, whose first byte is position `acked`. */
  datatype Sender = Sender(buf: seq<byte>,
                           acked: nat,      // tc_lastByteAcked
                           sent: nat,       // tc_lastByteSent
                           written: int,    // tc_lastByteWritten
                           queue: seq<Packet>,
                           rcvWindow: nat,
                           herWindowZero: bool,
                           cwnd: int,
                           ssthresh: int,
                           segSent: int,
                           congested: bool,
                           numAcks: int,
                           state: State,
                           closeCalled: bool,
                           finSent: bool,
                           finRcvd: bool,   // tc_isFINRcvd: the peer has closed
                           readBufLen: nat,
                           scaleOption: bool)  // the first packet still has to carry the window scale

  type Output = (Sender, seq<Segment>)

  // ---------- C integers ----------

  function U32(x: int): int {
    x % TWO_32
  }

  function I32(x: int): int {
    if x < TWO_31 then x else x - TWO_32
  }

  /** __min of an int and a uint32_t, stored in an int: the comparison is unsigned. */
  function MinUnsigned(x: int, y: int): int {
    I32(if U32(x) > y then y else U32(x))
  }

  // ---------- sending ----------

  /** The bytes at a buffer offset; a read that leaves the buffer is undefined and modelled as nothing. */
  function BufferBytes(buf: seq<byte>, off: int, len: int): seq<byte> {
    if 0 <= off && 0 <= len && off + len <= |buf| then buf[off..off + len] else []
  }

  /** What DTPRetransmit puts on the wire for a queued packet. */
  function Wire(s: Sender, p: Packet): Segment {
    if p.isFin then Fin(p.hdrSeq) else Data(p.hdrSeq, BufferBytes(s.buf, p.seqNum - s.acked, p.len))
  }

  function HeaderSize(s: Sender): nat {
    if s.scaleOption then DTP_HDR_SIZE + 4 else DTP_HDR_SIZE
  }

  /** How much DTPWriteAvail may send: unsent bytes, flow control, congestion control. */
  function Sendable(s: Sender): int {
    Min(MinUnsigned(s.written - s.sent, U32(s.rcvWindow - (s.sent - s.acked))), s.cwnd - s.segSent)
  }

  predicate KeepsSending(s: Sender, len: int) {
    || len >= MAX_PAYLOAD
    || (len > 0 && (U32(s.written - s.sent) < MAX_PAYLOAD || s.closeCalled || s.rcvWindow < MAX_PAYLOAD))
  }

  /** The payload of the next packet when `len` may be sent. */
  function PacketSize(s: Sender, len: int): int {
    Min(len, DTP_MTU - HeaderSize(s))
  }

  function NewPacket(s: Sender, n: int): Packet {
    Packet(s.sent, n, s.sent, false, false)
  }

  /** One packet of `n` bytes is queued and sent. */
  function Queued(s: Sender, n: nat): (r: Sender) {
    s.(queue := s.queue + [NewPacket(s, n)], segSent := s.segSent + n, sent := s.sent + n, scaleOption := false)
  }

  /** The loop of DTPWriteAvail. */
  function SendLoop(s: Sender, len: int): (r: Output)
    decreases if len > 0 then len else 0
  {
    if !KeepsSending(s, len) then (s, [])
    else
      var n := PacketSize(s, len);
      var (u, out) := SendLoop(Queued(s, n), len - n);
      (u, [Wire(s, NewPacket(s, n))] + out)
  }

  /** The state after a FIN was sent. */
  function FinSentState(state: State): State {
    match state
    case Established => FinWait1
    case CloseWait => LastAck
    case _ => state
  }

  /** DTPSendFINPacket */
  function SendFin(s: Sender): (r: Output) {
    var p := Packet(s.sent, 0, s.sent, false, true);
    (s.(queue := s.queue + [p], sent := s.sent + 1, written := s.written + 1, finSent := true,
        state := FinSentState(s.state)),
     [Fin(s.sent)])
  }

  /** DTPWriteAvail */
  function WriteAvail(s: Sender): (r: Output) {
    if s.congested then (s, [])
    else
      var (t, out) := SendLoop(s, Sendable(s));
      if t.closeCalled && !t.finSent && (t.finRcvd || t.sent == t.written) then
        var (u, fin) := SendFin(t);
        (u, out + fin)
      else
        (t, out)
  }

  // ---------- congestion control ----------

  /** DTPSlowStart */
  function SlowStart(s: Sender): (r: Sender) {
    s.(rcvWindow := s.readBufLen, congested := false, cwnd := MAX_PAYLOAD, ssthresh := s.readBufLen, segSent := 0)
  }

  /** The acknowledged bytes that MoveCongestionWindow multiplies by the packet size, if there are any: in slow
      start those beyond the threshold. */
  function Multiplied(cwnd: int, ssthresh: int, acked: int): int {
    if cwnd < ssthresh then acked - ssthresh else acked
  }

  /** MoveCongestionWindow: the new window. */
  function MovedCwnd(cwnd: int, ssthresh: int, bufLen: nat, acked: int): (r: int)
    requires cwnd > 0 && ssthresh > 0 && acked >= 0
  {
    var grown := if cwnd < ssthresh then cwnd + acked else cwnd;
    var more := Multiplied(cwnd, ssthresh, acked);
    Min(if more > 0 then grown + more * DTP_MTU / grown else grown, bufLen)
  }

  /** The halved threshold of CongestionAvoidance and TimeoutSlowStart. */
  function Halved(cwnd: int): (r: int)
    requires cwnd >= 0
  {
    Max(cwnd / 2, MAX_PAYLOAD)
  }

  /** CongestionAvoidance: the window after three duplicate acknowledgements. */
  function AvoidanceCwnd(cwnd: int): (r: int)
    requires cwnd >= 0
  {
    Halved(cwnd) + 3 * MAX_PAYLOAD
  }

  // ---------- acknowledgements ----------

  /** RemovePacket: the queue, the payload bytes that left it, and whether a packet was freed. */
  function RemovePackets(q: seq<Packet>, ack: nat): (r: (seq<Packet>, int, bool)) {
    if q == [] then (q, 0, false)
    else if q[0].End() < ack then
      var (rest, freed, _) := RemovePackets(q[1..], ack);
      (rest, q[0].len + freed, true)
    else if q[0].End() == ack then
      if q[0].isFin then (q, 0, false) else (q[1..], q[0].len, true)
    else
      var move := ack - q[0].seqNum;
      ([q[0].(seqNum := ack, hdrSeq := ack, len := q[0].len - move)] + q[1..], move, false)
  }

  /** memmove of the unacknowledged bytes to the front of the write buffer. A byte from beyond the
      buffer is undefined and modelled as the byte that was there. */
  function Shifted(buf: seq<byte>, from: nat, len: int): (r: seq<byte>)
    ensures |r| == |buf|
    ensures forall i :: 0 <= i < |buf| ==> r[i] == if i < len && from + i < |buf| then buf[from + i] else buf[i]
  {
    seq(|buf|, i requires 0 <= i < |buf| => if i < len && from + i < |buf| then buf[from + i] else buf[i])
  }

  /** DTPRetransmit of the head of the queue: it is marked and sent again. */
  function MarkHead(s: Sender): (r: Sender)
    requires s.queue != []
  {
    s.(queue := [s.queue[0].(isRetrans := true)] + s.queue[1..])
  }

  /** HandleDuplicateACK */
  function FastRetransmit(s: Sender): (r: Output)
    requires s.cwnd >= 0
  {
    if s.queue == [] then (s, [])
    else (MarkHead(s).(ssthresh := Halved(s.cwnd), cwnd := AvoidanceCwnd(s.cwnd)), [Wire(s, s.queue[0])])
  }

  /** The middle of HandleACKPacket: move the cursors, the buffer, the queue and the window. */
  function Acknowledge(s: Sender, ack: nat): (r: Sender)
    requires s.acked <= ack && s.cwnd > 0 && s.ssthresh > 0
  {
    var removed := RemovePackets(s.queue, ack);
    s.(acked := ack,
       sent := Max(s.sent, ack),
       buf := Shifted(s.buf, ack - s.acked, s.written - ack),
       queue := removed.0,
       segSent := s.segSent - removed.1,
       congested := s.congested && !removed.2,
       numAcks := if removed.2 then 1 else s.numAcks,
       cwnd := if ack > s.acked then MovedCwnd(s.cwnd, s.ssthresh, |s.buf|, ack - s.acked) else s.cwnd)
  }

  /** The peer's window as an acknowledgement or a data packet reports it. */
  function NoteWindow(s: Sender, window: nat): (r: Sender) {
    s.(rcvWindow := window, herWindowZero := s.herWindowZero || window == 0)
  }

  /** The duplicate count of HandleACKPacket. */
  function CountAck(s: Sender, ack: nat): (r: Sender) {
    if ack == s.acked then s.(numAcks := s.numAcks + 1) else s
  }

  /** The state after an acknowledgement was worked in: that of a FIN counts if this side closed first; one that
      closed second takes any for the last. */
  function AckedState(s: Sender, ack: nat): State {
    if s.state.FinWait1? && s.written == ack then FinWait2
    else if s.state.LastAck? then Closed
    else s.state
  }

  /** The rest of HandleACKPacket: acknowledge, send on, and note an acknowledged FIN. */
  function AckAndSend(s: Sender, ack: nat): (r: Output)
    requires s.acked <= ack && s.cwnd > 0 && s.ssthresh > 0
  {
    var (v, out) := WriteAvail(Acknowledge(s, ack));
    (v.(state := AckedState(v, ack)), out)
  }

  /** A fourth identical acknowledgement repeats the head of the queue; any other one is worked in. */
  function ProcessAck(s: Sender, ack: nat): (r: Output)
    requires s.acked <= ack && s.cwnd > 0 && s.ssthresh > 0
  {
    var u := CountAck(s, ack);
    if ack == s.acked && u.numAcks == 4 then FastRetransmit(u) else AckAndSend(u, ack)
  }

  /** HandleACKPacket; `window` is the advertised size after scaling. */
  function HandleAck(s: Sender, ack: nat, window: nat): (r: Output)
    requires s.cwnd > 0 && s.ssthresh > 0
  {
    var t := NoteWindow(s, window);
    if ack < s.acked then (s, [])
    else if t.herWindowZero && window > 0 then WriteAvail(t.(herWindowZero := false))
    else ProcessAck(t, ack)
  }

  // ---------- timeout ----------

  /** The branch of HandleTimeout for a packet that is past its timeout. */
  function TimedOut(s: Sender, p: Packet): (r: Sender)
    requires s.cwnd >= 0 && p.End() >= 0
  {
    var undo := s.finSent && !p.isFin;
    s.(congested := true,
       sent := p.End(),
       written := if undo then s.written - 1 else s.written,
       finSent := s.finSent && !undo,
       ssthresh := Halved(s.cwnd),
       cwnd := MAX_PAYLOAD)
  }

  /** Packet number i leaves the queue. */
  function Dropped(s: Sender, i: nat): (r: Sender)
    requires i < |s.queue|
  {
    s.(segSent := s.segSent - s.queue[i].len, queue := s.queue[..i] + s.queue[i + 1..])
  }

  /** Packet number i is marked and sent again. */
  function Resent(s: Sender, i: nat): (r: Sender)
    requires i < |s.queue| && s.cwnd >= 0 && s.queue[i].End() >= 0
  {
    TimedOut(s, s.queue[i]).(queue := s.queue[i := s.queue[i].(isRetrans := true)])
  }

  /** HandleTimeout retransmits in every state but FIN_WAIT_2 and CLOSED. */
  function ResentWire(s: Sender, p: Packet): seq<Segment> {
    if s.state.FinWait2? || s.state.Closed? then [] else [Wire(s, p)]
  }

  /** The packet loop of HandleTimeout, from packet number i on. */
  function TimeoutLoop(s: Sender, i: nat, due: Packet -> bool): (r: Output)
    requires s.cwnd >= 0 && forall k :: 0 <= k < |s.queue| ==> s.queue[k].End() >= 0
    decreases |s.queue| - i
  {
    if i >= |s.queue| then (s, [])
    else if s.congested && !s.queue[i].isRetrans then TimeoutLoop(Dropped(s, i), i, due)
    else if !due(s.queue[i]) then (s, [])
    else
      var (u, out) := TimeoutLoop(Resent(s, i), i + 1, due);
      (u, ResentWire(s, s.queue[i]) + out)
  }

  function HandleTimeout(s: Sender, due: Packet -> bool): (r: Output)
    requires s.cwnd >= 0 && forall k :: 0 <= k < |s.queue| ==> s.queue[k].End() >= 0
  {
    TimeoutLoop(s, 0, due)
  }

  // ---------- address change ----------

  /** The end of HandleAUTHPacket: slow start and send on. */
  function ResumeAuth(s: Sender): (r: Output) {
    WriteAvail(SlowStart(s))
  }

  /** The end of HandleRSPPacket: slow start, send on, and send the head of the queue again. */
  function ResumeRsp(s: Sender): (r: Output) {
    var (t, out) := WriteAvail(SlowStart(s));
    if t.queue == [] then (t, out) else (MarkHead(t), out + [Wire(t, t.queue[0])])
  }

  // ---------- the peer closes ----------

  /** What the peer's FIN changes in the sending half of a side that has not sent its own. */
  function PeerCloses(s: Sender): (r: Sender) {
    s.(finRcvd := true, state := if s.state.Established? then CloseWait else s.state)
  }

  // ---------- application calls ----------

  datatype SendOutcome = Accepted(count: nat) | BrokenPipe | WouldBlock

  /** Bytes are copied behind the written ones. */
  function Appended(s: Sender, more: seq<byte>): (r: Sender)
    requires 0 <= s.written - s.acked && s.written - s.acked + |more| <= |s.buf|
  {
    s.(buf := Splice(s.buf, s.written - s.acked, more), written := s.written + |more|)
  }

  /** dtp_send; a blocking wait is the outcome WouldBlock. */
  function Send(s: Sender, data: seq<byte>): (r: (Sender, seq<Segment>, SendOutcome)) {
    if data == [] then (s, [], Accepted(0))
    else if !s.state.Established? then (s, [], BrokenPipe)
    else
      var off := s.written - s.acked;
      var n := Min(|data|, |s.buf| - off);
      if n <= 0 || off < 0 then (s, [], WouldBlock)
      else
        var (t, out) := WriteAvail(Appended(s, data[..n]));
        (t, out, Accepted(n))
  }

  /** dtp_close */
  function Close(s: Sender): (r: Output) {
    WriteAvail(s.(closeCalled := true))
  }
}
