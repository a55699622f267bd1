/** Flow control, congestion control and the limits of the sending half: what holds in every state
    that satisfies the invariant, and exactly when the original leaves it.
 */
module SendProperties {
  import opened DtpBase
  import opened SendSpec
  import opened SendInvariant

  // ---------- flow control ----------

  /** The sending loop ends inside the peer's window exactly if it started there, and never pushes the
      count of bytes in flight beyond the congestion window. */
  lemma WindowAccounting(s: Sender, stream: seq<byte>)
    requires Good(s, stream) && Open(s, |stream|) && !s.congested
    ensures var t := SendLoop(s, Sendable(s)).0;
            && (t.sent - t.acked <= t.rcvWindow <==> s.sent - s.acked <= s.rcvWindow)
            && s.segSent <= t.segSent <= Max(s.segSent, s.cwnd)
  {
    SendableIs(s);
    SendLoopKeeps(s, Sendable(s), stream);
  }

  /** When more is in flight than the peer's window, the unsigned difference in DTPWriteAvail wraps and the
      window is ignored: data goes out exactly as if the window were open. */
  lemma ExceededWindowIsIgnored(s: Sender, stream: seq<byte>)
    requires Good(s, stream) && Open(s, |stream|) && !s.congested && s.sent - s.acked > s.rcvWindow
    ensures Sendable(s) == Min(s.written - s.sent, s.cwnd - s.segSent)
    ensures SendLoop(s, Sendable(s)).1 != [] <==> KeepsSending(s, Min(s.written - s.sent, s.cwnd - s.segSent))
  {
    SendableIs(s);
    SendLoopKeeps(s, Sendable(s), stream);
  }

  /** No stall: with nothing in flight, something to send, an open window and a congestion window of at
      least one packet, DTPWriteAvail sends. */
  lemma NoStall(s: Sender, stream: seq<byte>)
    requires Good(s, stream) && Open(s, |stream|) && !s.congested
    requires s.queue == [] && s.sent < s.written && s.rcvWindow > 0 && s.cwnd >= MAX_PAYLOAD
    ensures WriteAvail(s).1 != []
  {
    SendableIs(s);
    SendLoopKeeps(s, Sendable(s), stream);
  }

  // ---------- congestion control ----------

  predicate CongestionOk(s: Sender) {
    MAX_PAYLOAD <= s.cwnd <= |s.buf| && s.ssthresh >= MAX_PAYLOAD
  }

  /** The smallest write buffer for which a fast retransmit cannot push the window past the buffer. */
  const MIN_WRITE_BUF := 6 * MAX_PAYLOAD - 1

  /** A fast retransmit stays within the write buffer from every window it can start from exactly if
      the buffer has MIN_WRITE_BUF bytes. */
  lemma AvoidanceFitsExactly(bufLen: int)
    requires bufLen >= MAX_PAYLOAD
    ensures (forall cwnd | MAX_PAYLOAD <= cwnd <= bufLen :: AvoidanceCwnd(cwnd) <= bufLen) <==> bufLen >= MIN_WRITE_BUF
  {
    if bufLen < MIN_WRITE_BUF {
      assert AvoidanceCwnd(bufLen) > bufLen;
    }
  }

  lemma MovedCwndGrows(s: Sender, acked: nat)
    requires CongestionOk(s)
    ensures MAX_PAYLOAD <= MovedCwnd(s.cwnd, s.ssthresh, |s.buf|, acked) <= |s.buf|
  {
    var cwnd := if s.cwnd < s.ssthresh then s.cwnd + acked else s.cwnd;
    var more := Multiplied(s.cwnd, s.ssthresh, acked);
    if more > 0 {
      QuotientNonNegative(more * DTP_MTU, cwnd);
    }
  }

  // ---------- the range of the product ----------

  /** The largest write buffer for which the product of acknowledged bytes and packet size fits an int. */
  const MAX_WRITE_BUF := 1458887

  /** The product that MoveCongestionWindow forms when `ack` arrives fits an int. */
  predicate ProductFits(s: Sender, ack: nat) {
    Multiplied(s.cwnd, s.ssthresh, ack - s.acked) * DTP_MTU < TWO_31
  }

  /** An acknowledgement works in at most the bytes of a full buffer and the FIN behind them. */
  lemma AckedAtMost(s: Sender, n: nat, ack: nat)
    requires Inv(s, n) && s.acked <= ack <= s.written
    ensures ack - s.acked <= |s.buf| + 1
  {
  }

  /** A full buffer of this size in one packet and a FIN behind it, past slow start. */
  function FullAndClosed(bufLen: nat): Sender {
    Sender(seq(bufLen, _ => 0), 0, bufLen + 1, bufLen + 1,
           [Packet(0, bufLen, 0, false, false), Packet(bufLen, 0, bufLen, false, true)],
           1, false, 1, 1, bufLen, false, 0, FinWait1, true, true, false, 1, false)
  }

  lemma FullAndClosedInv(bufLen: nat)
    requires 0 < bufLen < TWO_31
    ensures Inv(FullAndClosed(bufLen), bufLen)
  {
    var s := FullAndClosed(bufLen);
    var q := s.queue;
    assert q[..1] == [q[0]] && [q[0]][1..] == [] && q[1..] == [q[1]] && [q[1]][1..] == [];
    assert DataTiles([q[0]], 0, bufLen);
    assert Sum([q[1]]) == 0;
    assert FinOut(s, bufLen);
  }

  /** The C arithmetic of MoveCongestionWindow does not overflow, for any acknowledgement of something written in any
      state the invariant allows, if and only if the write buffer has at most MAX_WRITE_BUF bytes. */
  lemma ProductFitsExactly(bufLen: nat)
    requires 0 < bufLen < TWO_31
    ensures bufLen <= MAX_WRITE_BUF <==>
            forall s, n: nat, ack: nat :: Inv(s, n) && |s.buf| == bufLen && s.acked <= ack <= s.written ==> ProductFits(s, ack)
  {
    hide Inv;
    forall s, n: nat, ack: nat
      | bufLen <= MAX_WRITE_BUF && Inv(s, n) && |s.buf| == bufLen && s.acked <= ack <= s.written
      ensures ProductFits(s, ack)
    {
      AckedAtMost(s, n, ack);
      ThresholdPositive(s, n);
    }
    FullAndClosedInv(bufLen);
    var s := FullAndClosed(bufLen);
    assert ProductFits(s, bufLen + 1) <==> bufLen <= MAX_WRITE_BUF;
  }

  lemma ThresholdPositive(s: Sender, n: nat)
    requires Inv(s, n)
    ensures s.ssthresh > 0
  {
  }

  lemma {:induction false} SendLoopFrame(s: Sender, len: int)
    ensures SameExceptQueue(s, SendLoop(s, len).0)
    decreases if len > 0 then len else 0
  {
    if KeepsSending(s, len) {
      SendLoopFrame(Queued(s, PacketSize(s, len)), len - PacketSize(s, len));
    }
  }

  /** DTPWriteAvail leaves buffer, windows and the acknowledged cursor alone, in any state whatever. */
  lemma WriteAvailFrame(s: Sender)
    ensures var t := WriteAvail(s).0;
            t.buf == s.buf && t.cwnd == s.cwnd && t.ssthresh == s.ssthresh && t.acked == s.acked &&
            t.readBufLen == s.readBufLen
  {
    SendLoopFrame(s, Sendable(s));
  }

  /** Every handler that moves the congestion window keeps it between one packet and the write buffer. */
  lemma AckKeepsCongestionOk(s: Sender, ack: nat, window: nat)
    requires CongestionOk(s) && |s.buf| >= MIN_WRITE_BUF
    ensures CongestionOk(HandleAck(s, ack, window).0)
  {
    hide WriteAvail, FastRetransmit, AckAndSend;
    var t := NoteWindow(s, window);
    var u := CountAck(t, ack);
    WriteAvailFrame(t.(herWindowZero := false));
    if s.acked <= ack {
      FastRetransmitCongestionOk(u);
      AckAndSendCongestionOk(u, ack);
    }
  }

  lemma FastRetransmitCongestionOk(s: Sender)
    requires CongestionOk(s) && |s.buf| >= MIN_WRITE_BUF
    ensures CongestionOk(FastRetransmit(s).0)
  {
    AvoidanceFitsExactly(|s.buf|);
  }

  lemma AckAndSendCongestionOk(s: Sender, ack: nat)
    requires s.acked <= ack && CongestionOk(s)
    ensures CongestionOk(AckAndSend(s, ack).0)
  {
    hide WriteAvail, Acknowledge;
    AcknowledgeCongestionOk(s, ack);
    WriteAvailFrame(Acknowledge(s, ack));
  }

  lemma AcknowledgeCongestionOk(s: Sender, ack: nat)
    requires s.acked <= ack && CongestionOk(s)
    ensures CongestionOk(Acknowledge(s, ack))
  {
    MovedCwndGrows(s, ack - s.acked);
  }

  lemma {:induction false} TimeoutKeepsCongestionOk(s: Sender, i: nat, due: Packet -> bool)
    requires CongestionOk(s) && forall k :: 0 <= k < |s.queue| ==> s.queue[k].End() >= 0
    ensures CongestionOk(TimeoutLoop(s, i, due).0)
    decreases |s.queue| - i
  {
    if i < |s.queue| {
      if s.congested && !s.queue[i].isRetrans {
        TimeoutKeepsCongestionOk(Dropped(s, i), i, due);
      } else if due(s.queue[i]) {
        TimeoutKeepsCongestionOk(Resent(s, i), i + 1, due);
      }
    }
  }

  lemma ResumeKeepsCongestionOk(s: Sender)
    requires CongestionOk(s) && s.readBufLen >= MAX_PAYLOAD
    ensures CongestionOk(ResumeAuth(s).0) && CongestionOk(ResumeRsp(s).0)
  {
    hide WriteAvail;
    WriteAvailFrame(SlowStart(s));
  }

  // ---------- the limits around the FIN ----------

  /** An acknowledgement of the FIN that arrives while the FIN is rolled back is one more than what is
      written; the cursors cross and, if the peer's window is open, bytes that were never written go out. */
  lemma FinAckAfterRollback(s: Sender, window: nat, stream: seq<byte>)
    requires Good(s, stream) && Open(s, |stream|) && s.closeCalled
    requires !s.herWindowZero && 0 < window < TWO_31
    ensures Sane(s)
    ensures var out := HandleAck(s, |stream| + 1, window).1; out != [] && out[0].seqNum == |stream| + 1
  {
    var n := |stream|;
    var t := NoteWindow(s, window);
    BeyondIsNotDuplicate(s, n, window);
    PastEverything(t, n);
    CrossedCursors(Acknowledge(t, n + 1), n);
  }

  /** The exact condition: of all acknowledgements a peer can send, exactly those up to `written` are answered with
      right segments, unless the peer's window keeps the sender quiet. */
  lemma AckRightExactly(s: Sender, ack: nat, window: nat, stream: seq<byte>)
    requires Good(s, stream) && ack <= |stream| + (if Ended(s) then 1 else 0) && window < TWO_31
    ensures Sane(s)
    ensures var (t, out) := HandleAck(s, ack, window);
            AllRight(out, stream, Ended(t)) <==> ack <= s.written || window == 0 || s.herWindowZero
  {
    hide HandleAck, Good, Right;
    if ack <= s.written {
      HandleAckKeeps(s, ack, window, stream);
    } else {
      BeyondIsFinAck(s, ack, stream);
      if s.herWindowZero && window > 0 {
        ReopenedWindow(s, ack, window, stream);
      } else if window == 0 {
        ClosedWindowIsQuiet(s, |stream|);
      } else {
        FinAckAfterRollback(s, window, stream);
        PastEndIsNotRight(HandleAck(s, ack, window).1, stream, Ended(HandleAck(s, ack, window).0));
      }
    }
  }

  lemma PastEndIsNotRight(out: seq<Segment>, stream: seq<byte>, ended: bool)
    requires out != [] && out[0].seqNum > |stream|
    ensures !AllRight(out, stream, ended)
  {
    assert !Right(out[0], stream, ended);
  }

  /** An acknowledgement beyond what is written is that of a FIN that was taken back. */
  lemma BeyondIsFinAck(s: Sender, ack: nat, stream: seq<byte>)
    requires Good(s, stream) && s.written < ack <= |stream| + if Ended(s) then 1 else 0
    ensures ack == |stream| + 1 && Open(s, |stream|) && s.closeCalled && s.state.FinWait1? && Inv(s, |stream|) && Sane(s)
  {
  }

  /** A window that opens again is answered by sending on, whatever was acknowledged. */
  lemma ReopenedWindow(s: Sender, ack: nat, window: nat, stream: seq<byte>)
    requires Good(s, stream) && s.herWindowZero && 0 < window < TWO_31
    ensures Sane(s)
    ensures var (t, out) := HandleAck(s, ack, window); Kept(s, t, out, stream) && Lag(t) == Lag(s) && t.acked == s.acked
  {
    hide WriteAvail, ProcessAck;
    FieldsKeep(s, ack, window, stream);
    WriteAvailKeeps(NoteWindow(s, window).(herWindowZero := false), stream);
  }

  /** With a closed window the cursors cross without a word. */
  lemma ClosedWindowIsQuiet(s: Sender, n: nat)
    requires Inv(s, n) && Open(s, n)
    ensures HandleAck(s, n + 1, 0).1 == []
  {
    var t := NoteWindow(s, 0);
    PastEverything(t, n);
    var a := Acknowledge(t, n + 1);
    assert U32(a.written - a.sent) == TWO_32 - 1;
    assert Sendable(a) <= 0;
  }

  lemma BeyondIsNotDuplicate(s: Sender, n: nat, window: nat)
    requires s.cwnd > 0 && s.ssthresh > 0 && s.acked <= n && !s.herWindowZero && 0 < window
    ensures HandleAck(s, n + 1, window) == AckAndSend(NoteWindow(s, window), n + 1)
  {
    hide AckAndSend, WriteAvail;
  }

  lemma PastEverything(s: Sender, n: nat)
    requires Sane(s) && Open(s, n) && GoBackN(s.queue, s.congested) && s.segSent <= Sum(s.queue)
    ensures var a := Acknowledge(s, n + 1);
            && Sane(a) && a.acked == n + 1 && a.sent == n + 1 && a.written == n
            && !a.congested && a.segSent <= 0 && a.closeCalled == s.closeCalled && a.rcvWindow == s.rcvWindow
  {
    RemoveTiles(s.queue, s.acked, s.sent, n + 1);
    TilesBounds(RemovePackets(s.queue, n + 1).0, n + 1, n + 1);
    MovedCwndPositive(s, n + 1 - s.acked);
  }

  lemma CrossedCursors(a: Sender, n: nat)
    requires Sane(a) && a.acked == n + 1 && a.sent == n + 1 && a.written == n
    requires !a.congested && a.closeCalled && a.rcvWindow > 0 && a.segSent <= 0
    ensures WriteAvail(a).1 != [] && WriteAvail(a).1[0].seqNum == n + 1
  {
    assert U32(-1) == TWO_32 - 1;
    assert U32(a.rcvWindow) == a.rcvWindow;
    assert Sendable(a) == Min(a.rcvWindow, a.cwnd - a.segSent);
    assert KeepsSending(a, Sendable(a));
  }

  /** The memmove that an acknowledgement causes reads `written - ack` bytes from offset `ack - acked`, if any. */
  predicate ShiftReadsInside(s: Sender, ack: nat) {
    s.written - ack <= 0 || (ack - s.acked) + (s.written - ack) <= |s.buf|
  }

  /** It stays inside the write buffer for every acknowledgement of something written, except exactly when a FIN
      was queued behind a completely full buffer and is not acknowledged itself. */
  lemma ShiftReadsInsideExactly(s: Sender, ack: nat, n: nat)
    requires Inv(s, n) && s.acked <= ack <= s.written
    ensures ShiftReadsInside(s, ack) <==> ack == s.written || !(s.finSent && n - s.acked == |s.buf|)
  {
  }
}
