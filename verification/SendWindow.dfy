/** The sending half in its own form: a byte array and the mutable fields of dtp_context, with each
    handler as a method that updates them in place and refines its meaning in SendSpec.
 */
module SendWindow {
  import opened DtpBase
  import Spec = SendSpec
  import opened SendSpec
  import opened SendInvariant

  class SendWindow {
    var writeBuf: array<byte>
    var lastByteAcked: nat
    var lastByteSent: nat
    var lastByteWritten: int
    var packetQ: seq<Packet>
    var rcvWindow: nat
    var isHerWindowZero: bool
    var cwnd: int
    var ssthresh: int
    var segSent: int
    var isCongested: bool
    var numACKRcvd: int
    var state: State
    var closeCalled: bool
    var isFinSent: bool
    var isFinRcvd: bool
    const readBufLen: nat
    var scaleOption: bool
    ghost var stream: seq<byte>  // everything dtp_send accepted

    ghost function View(): Sender
      reads this, writeBuf
    {
      Sender(writeBuf[..], lastByteAcked, lastByteSent, lastByteWritten, packetQ, rcvWindow, isHerWindowZero,
             cwnd, ssthresh, segSent, isCongested, numACKRcvd, state, closeCalled, isFinSent, isFinRcvd, readBufLen,
             scaleOption)
    }

    ghost predicate Valid()
      reads this, writeBuf
    {
      Good(View(), stream)
    }

    /** An established connection before any data. */
    constructor (writeBufLen: nat, readBufLen: nat, scaleOption: bool)
      requires 0 < writeBufLen < TWO_31 && 0 < readBufLen < TWO_31
      ensures Valid() && fresh(writeBuf) && writeBuf.Length == writeBufLen && stream == []
    {
      writeBuf := new byte[writeBufLen];
      lastByteAcked, lastByteSent, lastByteWritten := 0, 0, 0;
      packetQ := [];
      rcvWindow, isHerWindowZero := readBufLen, false;
      cwnd, ssthresh, segSent := MAX_PAYLOAD, readBufLen, 0;
      isCongested, numACKRcvd := false, 0;
      state, closeCalled, isFinSent, isFinRcvd := Established, false, false, false;
      this.readBufLen, this.scaleOption := readBufLen, scaleOption;
      stream := [];
    }

    /** DTPGeneratePacket: the wire form of a packet. A read outside the buffer is undefined in C and yields
        nothing here. */
    method Generate(p: Packet) returns (g: Segment)
      ensures g == Wire(View(), p)
    {
      if p.isFin {
        return Fin(p.hdrSeq);
      }
      var off := p.seqNum - lastByteAcked;
      if 0 <= off && 0 <= p.len && off + p.len <= writeBuf.Length {
        g := Data(p.hdrSeq, writeBuf[off..off + p.len]);
      } else {
        g := Data(p.hdrSeq, []);
      }
    }

    /** The body of the sending loop: queue and send one packet. */
    method SendPacket(len: int) returns (n: nat, g: Segment)
      requires len > 0
      modifies `packetQ, `segSent, `lastByteSent, `scaleOption
      ensures n == PacketSize(old(View()), len) && 0 < n <= len
      ensures View() == Queued(old(View()), n) && g == Wire(old(View()), NewPacket(old(View()), n))
    {
      hide Wire;
      ghost var s := View();
      var hdrSize := if scaleOption then DTP_HDR_SIZE + 4 else DTP_HDR_SIZE;
      n := if len <= DTP_MTU - hdrSize then len else DTP_MTU - hdrSize;
      var p := Packet(lastByteSent, n, lastByteSent, false, false);
      g := Generate(p);
      packetQ := packetQ + [p];
      segSent := segSent + n;
      lastByteSent := lastByteSent + n;
      scaleOption := false;
      assert writeBuf[..] == s.buf;
    }

    /** The condition of the sending loop. */
    predicate MoreToSend(len: int)
      reads this, writeBuf
      ensures MoreToSend(len) <==> KeepsSending(View(), len)
    {
      || len >= MAX_PAYLOAD
      || (len > 0 && (U32(lastByteWritten - lastByteSent) < MAX_PAYLOAD || closeCalled || rcvWindow < MAX_PAYLOAD))
    }

    /** The loop of DTPWriteAvail. */
    method SendPackets(len0: int) returns (out: seq<Segment>)
      modifies `packetQ, `segSent, `lastByteSent, `scaleOption
      ensures (View(), out) == SendLoop(old(View()), len0)
    {
      hide Queued, Wire, PacketSize, KeepsSending, SendLoop;
      var len := len0;
      out := [];
      ghost var goal := SendLoop(View(), len0);
      assert [] + goal.1 == goal.1;
      while MoreToSend(len)
        invariant goal == (SendLoop(View(), len).0, out + SendLoop(View(), len).1)
        decreases len
      {
        ghost var before := out;
        KeepsSendingIs(View(), len);
        SendLoopOne(View(), len);
        var n, g := SendPacket(len);
        ghost var rest := SendLoop(View(), len - n).1;
        assert before + ([g] + rest) == before + [g] + rest;
        out := out + [g];
        len := len - n;
      }
      SendLoopOne(View(), len);
      assert out + [] == out;
    }

    /** The end of DTPSendFINPacket. */
    method EnterFinState()
      modifies `state
      ensures state == FinSentState(old(state))
    {
      if state == Established {
        state := FinWait1;
      } else if state == CloseWait {
        state := LastAck;
      }
    }

    /** DTPSendFINPacket */
    method SendFin() returns (g: Segment)
      modifies `packetQ, `lastByteSent, `lastByteWritten, `state, `isFinSent
      ensures (View(), [g]) == Spec.SendFin(old(View()))
    {
      hide FinSentState;
      ghost var s := View();
      packetQ := packetQ + [Packet(lastByteSent, 0, lastByteSent, false, true)];
      g := Fin(lastByteSent);
      lastByteSent := lastByteSent + 1;
      lastByteWritten := lastByteWritten + 1;
      EnterFinState();
      isFinSent := true;
      assert writeBuf[..] == s.buf;
    }

    /** DTPWriteAvail, in whatever state it is called. */
    method WriteAvail() returns (out: seq<Segment>)
      modifies `packetQ, `segSent, `lastByteSent, `scaleOption, `lastByteWritten, `state, `isFinSent
      ensures (View(), out) == Spec.WriteAvail(old(View()))
      ensures old(Valid()) ==> Valid()
    {
      hide SendLoop, Good, MinUnsigned;
      ghost var s := View();
      if Good(s, stream) {
        WriteAvailKeeps(s, stream);
      }
      if isCongested {
        return [];
      }
      var len := MinUnsigned(lastByteWritten - lastByteSent, U32(rcvWindow - (lastByteSent - lastByteAcked)));
      len := Min(len, cwnd - segSent);
      out := SendPackets(len);
      if closeCalled && !isFinSent && (isFinRcvd || lastByteSent == lastByteWritten) {
        var g := SendFin();
        out := out + [g];
      }
    }

    /** RemovePacket: free the packets an acknowledgement covers and trim the one it cuts. */
    method RemovePacket(ack: nat)
      modifies `packetQ, `segSent, `isCongested, `numACKRcvd
      ensures packetQ == RemovePackets(old(packetQ), ack).0
      ensures segSent == old(segSent) - RemovePackets(old(packetQ), ack).1
      ensures isCongested == (old(isCongested) && !RemovePackets(old(packetQ), ack).2)
      ensures numACKRcvd == if RemovePackets(old(packetQ), ack).2 then 1 else old(numACKRcvd)
    {
      ghost var goal := RemovePackets(packetQ, ack);
      var any := false;
      while packetQ != [] && packetQ[0].End() < ack
        invariant var (q, freed, more) := RemovePackets(packetQ, ack);
                  goal == (q, old(segSent) - segSent + freed, any || more)
        invariant isCongested == (old(isCongested) && !any)
        invariant numACKRcvd == if any then 1 else old(numACKRcvd)
        decreases |packetQ|
      {
        segSent := segSent - packetQ[0].len;
        packetQ := packetQ[1..];
        isCongested, numACKRcvd, any := false, 1, true;
      }
      if packetQ != [] {
        var p := packetQ[0];
        if p.End() == ack {
          if !p.isFin {
            segSent := segSent - p.len;
            packetQ := packetQ[1..];
            isCongested, numACKRcvd := false, 1;
          }
        } else {
          var moveLen := ack - p.seqNum;
          packetQ := [p.(seqNum := ack, hdrSeq := ack, len := p.len - moveLen)] + packetQ[1..];
          segSent := segSent - moveLen;
        }
      }
    }

    /** MoveCongestionWindow */
    method MoveCongestionWindow(acked0: int)
      requires cwnd > 0 && ssthresh > 0 && acked0 >= 0
      modifies `cwnd
      ensures cwnd == MovedCwnd(old(cwnd), ssthresh, writeBuf.Length, acked0)
    {
      var acked := acked0;
      if cwnd < ssthresh {
        cwnd := cwnd + acked;
        acked := acked - ssthresh;
      }
      if acked > 0 {
        cwnd := cwnd + acked * DTP_MTU / cwnd;
      }
      if cwnd > writeBuf.Length {
        cwnd := writeBuf.Length;
      }
    }

    /** memmove of what is still unacknowledged to the front of the buffer. When a FIN waits behind a full
        buffer the original also reads the byte behind the buffer; that byte is not modelled. */
    method ShiftBuffer(acked: nat, unacked: int)
      modifies writeBuf
      ensures writeBuf[..] == Shifted(old(writeBuf[..]), acked, unacked)
    {
      if unacked > 0 && acked <= writeBuf.Length {
        MemmoveToFront(writeBuf, acked, Min(unacked, writeBuf.Length - acked));
      }
    }

    /** The cursors and the buffer move to the acknowledged byte. */
    method AdvanceAcked(ack: nat)
      requires lastByteAcked <= ack
      modifies `lastByteAcked, `lastByteSent, writeBuf
      ensures lastByteAcked == ack && lastByteSent == Max(old(lastByteSent), ack)
      ensures writeBuf[..] == Shifted(old(writeBuf[..]), ack - old(lastByteAcked), lastByteWritten - ack)
    {
      hide Shifted;
      ShiftBuffer(ack - lastByteAcked, lastByteWritten - ack);
      lastByteAcked := ack;
      if lastByteSent < lastByteAcked {
        lastByteSent := lastByteAcked;
      }
    }

    /** The middle of HandleACKPacket. */
    method Acknowledge(ack: nat)
      requires cwnd > 0 && ssthresh > 0 && lastByteAcked <= ack
      modifies `lastByteAcked, `lastByteSent, `packetQ, `segSent, `isCongested, `numACKRcvd, `cwnd, writeBuf
      ensures View() == Spec.Acknowledge(old(View()), ack)
    {
      hide Shifted, RemovePackets, MovedCwnd, Max;
      var acked := ack - lastByteAcked;
      AdvanceAcked(ack);
      ghost var shifted := writeBuf[..];
      RemovePacket(ack);
      if acked > 0 {
        MoveCongestionWindow(acked);
      }
      assert writeBuf[..] == shifted;
    }

    /** CongestionAvoidance */
    method CongestionAvoidance()
      requires cwnd >= 0
      modifies `cwnd, `ssthresh
      ensures View() == old(View()).(ssthresh := Halved(old(cwnd)), cwnd := AvoidanceCwnd(old(cwnd)))
    {
      ghost var s := View();
      ssthresh := Max(cwnd / 2, MAX_PAYLOAD);
      cwnd := ssthresh + 3 * MAX_PAYLOAD;
      assert writeBuf[..] == s.buf;
    }

    /** TimeoutSlowStart */
    method TimeoutSlowStart()
      requires cwnd >= 0
      modifies `cwnd, `ssthresh
      ensures View() == old(View()).(ssthresh := Halved(old(cwnd)), cwnd := MAX_PAYLOAD)
    {
      ghost var s := View();
      ssthresh := Max(cwnd / 2, MAX_PAYLOAD);
      cwnd := MAX_PAYLOAD;
      assert writeBuf[..] == s.buf;
    }

    /** DTPRetransmit of the head of the queue. */
    method ResendHead() returns (g: Segment)
      requires packetQ != []
      modifies `packetQ
      ensures View() == MarkHead(old(View())) && g == Wire(old(View()), old(packetQ)[0])
    {
      hide Wire;
      ghost var s := View();
      var p := packetQ[0];
      g := Generate(p);
      packetQ := [p.(isRetrans := true)] + packetQ[1..];
      assert writeBuf[..] == s.buf;
    }

    /** HandleDuplicateACK: send the head of the queue again and halve the window. In a valid state the facts the
        original asserts hold. */
    method FastRetransmit() returns (out: seq<Segment>)
      requires cwnd >= 0
      modifies `packetQ, `cwnd, `ssthresh
      ensures (View(), out) == Spec.FastRetransmit(old(View()))
    {
      hide Wire, Good, Halved, AvoidanceCwnd, MarkHead;
      ghost var s := View();
      if packetQ == [] {
        return [];
      }
      ghost var p := packetQ[0];
      if Good(s, stream) {
        HeadInBuffer(s, stream);
        assert p.seqNum <= lastByteAcked <= p.End() && p.seqNum == p.hdrSeq;
      }
      var g := ResendHead();
      out := [g];
      CongestionAvoidance();
    }

    /** The rest of HandleACKPacket. */
    method AckAndSend(ack: nat) returns (out: seq<Segment>)
      requires cwnd > 0 && ssthresh > 0 && lastByteAcked <= ack
      modifies this, writeBuf
      ensures writeBuf == old(writeBuf) && stream == old(stream)
      ensures (View(), out) == Spec.AckAndSend(old(View()), ack)
    {
      hide Spec.Acknowledge, Spec.WriteAvail;
      Acknowledge(ack);
      out := WriteAvail();
      ghost var v := View();
      if state == FinWait1 && lastByteWritten == ack {
        state := FinWait2;
      } else if state == LastAck {
        state := Closed;
      }
      assert writeBuf[..] == v.buf;
    }

    /** Take over the peer's window from an acknowledgement or a data packet. */
    method NoteWindow(window: nat)
      modifies `rcvWindow, `isHerWindowZero
      ensures View() == Spec.NoteWindow(old(View()), window)
      ensures old(Valid()) && window < TWO_31 ==> Valid()
    {
      ghost var s := View();
      rcvWindow := window;
      if rcvWindow == 0 {
        isHerWindowZero := true;
      }
      assert writeBuf[..] == s.buf;
      if Good(s, stream) && window < TWO_31 {
        NoteWindowKeeps(s, window, stream);
      }
    }

    /** The peer's window is open again. */
    method Reopen()
      modifies `isHerWindowZero
      ensures View() == old(View()).(herWindowZero := false)
    {
      ghost var s := View();
      isHerWindowZero := false;
      assert writeBuf[..] == s.buf;
    }

    /** The part of HandleACKPacket that looks at the acknowledged number. */
    method ProcessAck(ack: nat) returns (out: seq<Segment>)
      requires cwnd > 0 && ssthresh > 0 && lastByteAcked <= ack
      modifies this, writeBuf
      ensures writeBuf == old(writeBuf) && stream == old(stream)
      ensures (View(), out) == Spec.ProcessAck(old(View()), ack)
    {
      hide Spec.FastRetransmit, Spec.AckAndSend;
      ghost var s := View();
      numACKRcvd := if ack == lastByteAcked then numACKRcvd + 1 else numACKRcvd;
      assert writeBuf[..] == s.buf;
      assert View() == CountAck(s, ack);
      if ack == lastByteAcked && numACKRcvd == 4 {
        out := FastRetransmit();
      } else {
        out := AckAndSend(ack);
      }
    }

    /** HandleACKPacket, for any acknowledgement; `window` is the scaled size. */
    method HandleAck(ack: nat, window: nat) returns (out: seq<Segment>)
      requires cwnd > 0 && ssthresh > 0
      modifies this, writeBuf
      ensures writeBuf == old(writeBuf) && stream == old(stream)
      ensures (View(), out) == Spec.HandleAck(old(View()), ack, window)
      ensures old(Valid()) && ack <= old(lastByteWritten) && window < TWO_31 ==> Valid()
    {
      hide Good, Spec.WriteAvail, Spec.ProcessAck;
      ghost var s := View();
      if Good(s, stream) && ack <= s.written && window < TWO_31 {
        HandleAckKeeps(s, ack, window, stream);
      }
      if ack < lastByteAcked {
        return [];
      }
      NoteWindow(window);
      if isHerWindowZero && rcvWindow > 0 {
        Reopen();
        out := WriteAvail();
      } else {
        out := ProcessAck(ack);
      }
    }

    /** The branch of HandleTimeout for a packet past its timeout. */
    method RollBack(p: Packet)
      requires cwnd >= 0 && p.End() >= 0
      modifies `isCongested, `lastByteSent, `lastByteWritten, `isFinSent, `ssthresh, `cwnd
      ensures View() == TimedOut(old(View()), p)
    {
      ghost var s := View();
      isCongested := true;
      lastByteSent := p.End();
      if isFinSent && !p.isFin {
        lastByteWritten := lastByteWritten - 1;
        isFinSent := false;
      }
      assert writeBuf[..] == s.buf;
      TimeoutSlowStart();
    }

    ghost predicate EndsInRange()
      reads this
    {
      forall k :: 0 <= k < |packetQ| ==> packetQ[k].End() >= 0
    }

    /** Take packet number i out of the queue. */
    method DropPacket(i: nat)
      requires i < |packetQ| && EndsInRange()
      modifies `packetQ, `segSent
      ensures View() == Dropped(old(View()), i) && EndsInRange() && |packetQ| == |old(packetQ)| - 1
    {
      ghost var s := View();
      segSent := segSent - packetQ[i].len;
      packetQ := packetQ[..i] + packetQ[i + 1..];
      assert writeBuf[..] == s.buf;
    }

    /** Packet number i is past its timeout: roll back to it, mark it and send it again. */
    method Resend(i: nat) returns (out: seq<Segment>)
      requires i < |packetQ| && cwnd >= 0 && EndsInRange()
      modifies `packetQ, `isCongested, `lastByteSent, `lastByteWritten, `isFinSent, `ssthresh, `cwnd
      ensures cwnd >= 0 && EndsInRange() && |packetQ| == |old(packetQ)|
      ensures View() == Resent(old(View()), i) && out == ResentWire(old(View()), old(packetQ)[i])
    {
      hide Wire;
      var p := packetQ[i];
      out := [];
      if state != FinWait2 && state != Closed {
        var g := Generate(p);
        out := [g];
      }
      RollBack(p);
      ghost var t := View();
      packetQ := packetQ[i := p.(isRetrans := true)];
      assert writeBuf[..] == t.buf;
    }

    /** HandleTimeout for this connection, in whatever state; `due` says which packets are past their timeout. */
    method HandleTimeout(due: Packet -> bool) returns (out: seq<Segment>)
      requires cwnd >= 0 && EndsInRange()
      modifies `packetQ, `segSent, `isCongested, `lastByteSent, `lastByteWritten, `isFinSent, `ssthresh, `cwnd
      ensures (View(), out) == Spec.HandleTimeout(old(View()), due)
      ensures old(Valid()) ==> Valid()
    {
      hide Wire, ResentWire, Resent, Dropped, Good;
      ghost var s := View();
      if Good(s, stream) {
        HandleTimeoutKeeps(s, due, stream);
      }
      out := TimeoutPass(due);
    }

    /** The packet loop of HandleTimeout. */
    method TimeoutPass(due: Packet -> bool) returns (out: seq<Segment>)
      requires cwnd >= 0 && EndsInRange()
      modifies `packetQ, `segSent, `isCongested, `lastByteSent, `lastByteWritten, `isFinSent, `ssthresh, `cwnd
      ensures (View(), out) == TimeoutLoop(old(View()), 0, due)
    {
      hide Wire, ResentWire, Resent, Dropped;
      ghost var goal := TimeoutLoop(View(), 0, due);
      var i := 0;
      out := [];
      assert [] + goal.1 == goal.1;
      while i < |packetQ| && ((isCongested && !packetQ[i].isRetrans) || due(packetQ[i]))
        invariant cwnd >= 0 && EndsInRange()
        invariant goal == (TimeoutLoop(View(), i, due).0, out + TimeoutLoop(View(), i, due).1)
        decreases |packetQ| - i
      {
        if isCongested && !packetQ[i].isRetrans {
          DropPacket(i);
        } else {
          ghost var before, rest := out, TimeoutLoop(View(), i, due).1;
          var more := Resend(i);
          out := out + more;
          i := i + 1;
          assert before + rest == out + TimeoutLoop(View(), i, due).1;
        }
      }
      assert out + [] == out;
    }

    /** DTPSlowStart */
    method SlowStart()
      modifies `rcvWindow, `isCongested, `cwnd, `ssthresh, `segSent
      ensures View() == Spec.SlowStart(old(View()))
      ensures old(Valid()) ==> (Valid() <==> !FinRolledBack(old(View())))
    {
      hide Good;
      ghost var s := View();
      if Good(s, stream) {
        SlowStartKeeps(s, stream);
      }
      rcvWindow := readBufLen;
      isCongested := false;
      cwnd := MAX_PAYLOAD;
      ssthresh := readBufLen;
      segSent := 0;
      assert writeBuf[..] == s.buf;
    }

    /** The end of HandleAUTHPacket. */
    method ResumeAuth() returns (out: seq<Segment>)
      modifies this
      ensures writeBuf == old(writeBuf) && stream == old(stream)
      ensures (View(), out) == Spec.ResumeAuth(old(View()))
      ensures old(Valid()) && !FinRolledBack(old(View())) ==> Valid()
    {
      hide Spec.WriteAvail, Spec.SlowStart, Good;
      SlowStart();
      out := WriteAvail();
    }

    /** The end of HandleRSPPacket. */
    method ResumeRsp() returns (out: seq<Segment>)
      modifies this
      ensures writeBuf == old(writeBuf) && stream == old(stream)
      ensures (View(), out) == Spec.ResumeRsp(old(View()))
      ensures old(Valid()) && !FinRolledBack(old(View())) ==> Valid()
    {
      hide Spec.WriteAvail, Spec.SlowStart, Good, Wire, FinRolledBack;
      ghost var s := View();
      if Good(s, stream) && !FinRolledBack(s) {
        ResumeGood(s, stream);
      }
      out := ResumeAuth();
      if packetQ != [] {
        var g := ResendHead();
        out := out + [g];
      }
    }

    /** HandleFINPacket, in the sending half of a side that has not sent its own FIN: the peer has closed. */
    method PeerCloses()
      modifies `isFinRcvd, `state
      ensures View() == Spec.PeerCloses(old(View()))
    {
      ghost var s := View();
      isFinRcvd := true;
      if state == Established {
        state := CloseWait;
      }
      assert writeBuf[..] == s.buf;
    }

    /** Copy bytes behind the written ones. */
    method Append(more: seq<byte>)
      requires Valid() && state.Established? && |stream| - lastByteAcked + |more| <= writeBuf.Length
      modifies `lastByteWritten, `stream, writeBuf
      ensures Valid() && stream == old(stream) + more
      ensures 0 <= old(lastByteWritten) - lastByteAcked && old(lastByteWritten) - lastByteAcked + |more| <= writeBuf.Length
      ensures View() == Appended(old(View()), more)
    {
      AppendKeeps(View(), more, stream);
      Memcpy(writeBuf, lastByteWritten - lastByteAcked, more);
      ghost var copied := writeBuf[..];
      lastByteWritten := lastByteWritten + |more|;
      stream := stream + more;
      assert writeBuf[..] == copied;
    }

    /** dtp_send: append what fits to the write buffer and try to send it. */
    method Send(data: seq<byte>) returns (out: seq<Segment>, res: SendOutcome)
      requires state.Established? ==> Valid()
      modifies this, writeBuf
      ensures writeBuf == old(writeBuf) && (old(Valid()) ==> Valid())
      ensures (View(), out, res) == Spec.Send(old(View()), data)
      ensures res.Accepted? ==> res.count <= |data|
      ensures stream == old(stream) + data[..if res.Accepted? then res.count else 0]
    {
      assert data[..0] == [] && stream + [] == stream;
      if data == [] {
        return [], Accepted(0);
      }
      if state != Established {
        return [], BrokenPipe;
      }
      assert lastByteWritten == |stream| && lastByteAcked <= lastByteWritten;
      var n := Min(|data|, writeBuf.Length - (lastByteWritten - lastByteAcked));
      if n <= 0 {
        return [], WouldBlock;
      }
      Append(data[..n]);
      out := WriteAvail();
      res := Accepted(n);
    }

    /** dtp_close: no more data will come; send the FIN once everything is out. */
    method Close() returns (out: seq<Segment>)
      modifies this
      ensures writeBuf == old(writeBuf) && stream == old(stream)
      ensures (View(), out) == Spec.Close(old(View()))
      ensures old(Valid()) ==> Valid()
    {
      hide Spec.WriteAvail, Good;
      ghost var s := View();
      if Good(s, stream) {
        CloseKeeps(s, stream);
      }
      closeCalled := true;
      assert writeBuf[..] == s.buf;
      assert View() == s.(closeCalled := true);
      out := WriteAvail();
    }
  }

  lemma KeepsSendingIs(s: Sender, len: int)
    ensures KeepsSending(s, len) ==> len > 0
  {
  }

  /** One turn of the sending loop. */
  lemma SendLoopOne(s: Sender, len: int)
    ensures SendLoop(s, len) ==
      if !KeepsSending(s, len) then (s, [])
      else var n := PacketSize(s, len);
           var rest := SendLoop(Queued(s, n), len - n);
           (rest.0, [Wire(s, NewPacket(s, n))] + rest.1)
  {
    hide Queued, Wire, PacketSize, KeepsSending;
  }
}
