/** The side that closes second. Once the peer's FIN is in, DTPWriteAvail sends the own FIN without waiting for the
    rest of the data, the first closer takes a FIN with any number, and any acknowledgement is taken for the last.
    When the second side behaves like the first, and when data is lost, is exact.
 */
module SecondClose {
  import opened DtpBase
  import opened SendSpec
  import opened SendInvariant
  import SP = SendProperties
  import R = ReceiveSpec

  /** The state of a first closer that corresponds to one of a second closer. */
  function FirstState(state: State, allAcked: bool): State {
    match state
    case CloseWait => Established
    case LastAck => FinWait1
    case Closed => if allAcked then FinWait2 else FinWait1
    case _ => state
  }

  /** The same sender, had the peer not closed. */
  function AsFirst(s: Sender): (r: Sender) {
    s.(finRcvd := false, state := FirstState(s.state, s.acked == s.written))
  }

  /** The peer has closed, and this side has not closed first. */
  predicate Second(s: Sender) {
    s.finRcvd && (s.state.CloseWait? || s.state.LastAck?)
  }

  /** The invariant of a side that closes second. */
  predicate HalfClosed(s: Sender, stream: seq<byte>) {
    Second(s) && Good(AsFirst(s), stream)
  }

  /** What may be sent now is exactly what is left. */
  predicate RestFits(s: Sender) {
    s.sent + Max(0, Sendable(s)) == s.written
  }

  /** A FIN is due: dtp_close was called, none is out, and no retransmission is pending. */
  predicate FinDue(s: Sender) {
    s.closeCalled && !s.finSent && !s.congested
  }

  // ---------- sending ----------

  lemma {:induction false} LoopAsFirst(s: Sender, len: int)
    ensures SendLoop(AsFirst(s), len) == (AsFirst(SendLoop(s, len).0), SendLoop(s, len).1)
    decreases if len > 0 then len else 0
  {
    hide FirstState;
    if KeepsSending(s, len) {
      var n := PacketSize(s, len);
      assert AsFirst(Queued(s, n)) == Queued(AsFirst(s), n);
      LoopAsFirst(Queued(s, n), len - n);
    }
  }

  /** After dtp_close the loop sends all it may. */
  lemma {:induction false} LoopSendsAllowed(s: Sender, len: int)
    requires s.closeCalled
    ensures SendLoop(s, len).0.sent == s.sent + Max(0, len)
    decreases if len > 0 then len else 0
  {
    if KeepsSending(s, len) {
      var n := PacketSize(s, len);
      LoopSendsAllowed(Queued(s, n), len - n);
    }
  }

  /** No FIN is due, or the rest of the data goes out before it. */
  predicate FinInPlace(s: Sender) {
    FinDue(s) ==> RestFits(s)
  }

  lemma LastOf(out: seq<Segment>, g: Segment)
    ensures (out + [g])[|out|] == g
  {
  }

  /** A FIN in front of data that was not sent. */
  lemma ShortFinIsWrong(s: Sender, stream: seq<byte>)
    requires Second(s) && FinDue(s) && s.sent + Max(0, Sendable(s)) != |stream|
    ensures var (t, out) := WriteAvail(s); !HalfClosed(t, stream) && !AllRight(out, stream, true)
  {
    hide DataTiles, Sum, Buffered, GoBackN, WriteAvail, Sendable;
    FinGoesOut(s);
    var (t, out) := WriteAvail(s);
    assert !Right(out[|out| - 1], stream, true);
    assert AsFirst(t).queue[|t.queue| - 1].seqNum != |stream|;
  }

  lemma WrittenIsStream(s: Sender, stream: seq<byte>)
    requires HalfClosed(s, stream)
    ensures !s.finSent ==> s.written == |stream| && s.sent <= s.written
    ensures s.finSent ==> s.state.LastAck? && s.closeCalled
  {
  }

  lemma RightInAnyCase(out: seq<Segment>, stream: seq<byte>, ended: bool)
    requires AllRight(out, stream, ended)
    ensures AllRight(out, stream, true)
  {
    assert forall g :: Right(g, stream, ended) ==> Right(g, stream, true);
  }

  /** As long as FINs are in place, DTPWriteAvail does what it does for a first closer, in any state. */
  lemma LikeFirst(s: Sender)
    requires Second(s) && FinInPlace(s)
    ensures var (t, out) := WriteAvail(s); (AsFirst(t), out) == WriteAvail(AsFirst(s)) && Second(t)
  {
    hide SendLoop, Sendable;
    SendableAsFirst(s);
    LoopAsFirst(s, Sendable(s));
    SP.SendLoopFrame(s, Sendable(s));
    if FinDue(s) {
      LoopSendsAllowed(s, Sendable(s));
    }
  }

  lemma SendableAsFirst(s: Sender)
    ensures Sendable(AsFirst(s)) == Sendable(s)
  {
  }

  lemma LoopIsBounded(s: Sender, stream: seq<byte>)
    requires HalfClosed(s, stream) && !s.finSent
    ensures Sendable(s) <= s.written - s.sent
  {
    hide DataTiles, Sum, GoBackN, Buffered;
    SendableIs(AsFirst(s));
  }

  /** DTPWriteAvail keeps the invariant of the second closer, and sends only right segments, if and only if no FIN is
      due or the rest of the data fits the windows; then it does what it does for a first closer. Otherwise a FIN
      goes out in the middle of the stream. */
  lemma SecondFinExactly(s: Sender, stream: seq<byte>)
    requires HalfClosed(s, stream)
    ensures var (t, out) := WriteAvail(s);
            && (HalfClosed(t, stream) <==> FinInPlace(s))
            && (AllRight(out, stream, true) <==> FinInPlace(s))
            && (FinInPlace(s) ==> (AsFirst(t), out) == WriteAvail(AsFirst(s)))
            && (FinDue(s) ==> out != [] && out[|out| - 1] == Fin(s.sent + Max(0, Sendable(s))) && t.state.LastAck?)
  {
    hide Good, Right, WriteAvail, Sendable;
    WrittenIsStream(s, stream);
    if FinInPlace(s) {
      LikeFirst(s);
      WriteAvailKeeps(AsFirst(s), stream);
      RightInAnyCase(WriteAvail(s).1, stream, Ended(WriteAvail(AsFirst(s)).0));
    }
    if FinDue(s) {
      FinGoesOut(s);
      if !RestFits(s) {
        LoopIsBounded(s, stream);
        ShortFinIsWrong(s, stream);
      }
    }
  }

  /** The FIN is the last that goes out, and it has the number the loop has come to. */
  lemma FinGoesOut(s: Sender)
    requires Second(s) && FinDue(s)
    ensures var (t, out) := WriteAvail(s);
            && out != [] && out[|out| - 1] == Fin(s.sent + Max(0, Sendable(s))) && t.state.LastAck? && t.finSent
            && t.queue != [] && t.queue[|t.queue| - 1].seqNum == s.sent + Max(0, Sendable(s))
  {
    hide SendLoop, Sendable;
    var (t, out) := SendLoop(s, Sendable(s));
    SP.SendLoopFrame(s, Sendable(s));
    LoopSendsAllowed(s, Sendable(s));
    LastOf(out, Fin(t.sent));
  }

  /** A timeout does what it does for a first closer. */
  lemma {:induction false} TimeoutAsFirst(s: Sender, i: nat, due: Packet -> bool)
    requires s.cwnd >= 0 && (forall k :: 0 <= k < |s.queue| ==> s.queue[k].End() >= 0)
    requires s.state.CloseWait? || s.state.LastAck?
    ensures TimeoutLoop(AsFirst(s), i, due) == (AsFirst(TimeoutLoop(s, i, due).0), TimeoutLoop(s, i, due).1)
    ensures TimeoutLoop(s, i, due).0.state == s.state && TimeoutLoop(s, i, due).0.finRcvd == s.finRcvd
    decreases |s.queue| - i
  {
    hide AsFirst, Dropped, Resent, ResentWire;
    SameQueue(s);
    if i < |s.queue| {
      PacketAsFirst(s, i);
      if s.congested && !s.queue[i].isRetrans {
        TimeoutAsFirst(Dropped(s, i), i, due);
      } else if due(s.queue[i]) {
        TimeoutAsFirst(Resent(s, i), i + 1, due);
      }
    }
  }

  lemma SameQueue(s: Sender)
    ensures AsFirst(s).queue == s.queue && AsFirst(s).cwnd == s.cwnd && AsFirst(s).congested == s.congested
  {
  }

  lemma PacketAsFirst(s: Sender, i: nat)
    requires s.cwnd >= 0 && i < |s.queue| && forall k :: 0 <= k < |s.queue| ==> s.queue[k].End() >= 0
    requires s.state.CloseWait? || s.state.LastAck?
    ensures var t := Dropped(s, i);
            && AsFirst(t) == Dropped(AsFirst(s), i) && t.state == s.state && t.finRcvd == s.finRcvd
            && t.cwnd >= 0 && |t.queue| == |s.queue| - 1 && forall k :: 0 <= k < |t.queue| ==> t.queue[k].End() >= 0
    ensures var t := Resent(s, i);
            && AsFirst(t) == Resent(AsFirst(s), i) && t.state == s.state && t.finRcvd == s.finRcvd
            && t.cwnd >= 0 && |t.queue| == |s.queue| && forall k :: 0 <= k < |t.queue| ==> t.queue[k].End() >= 0
    ensures ResentWire(AsFirst(s), s.queue[i]) == ResentWire(s, s.queue[i])
  {
  }

  // ---------- the last acknowledgement ----------

  /** The acknowledgement is not spent on a reopened window or on a fast retransmit. */
  predicate WorkedIn(s: Sender, ack: nat, window: nat) {
    s.acked <= ack && !(s.herWindowZero && window > 0) && !(ack == s.acked && s.numAcks == 3)
  }

  /** In LAST_ACK, also when it was entered in the same call, every acknowledgement that is worked in closes the
      connection; packets are left in the queue unless it is for the FIN. */
  lemma LastAckTakesAny(s: Sender, ack: nat, window: nat, stream: seq<byte>)
    requires HalfClosed(s, stream) && s.acked <= ack <= s.written && window < TWO_31
    ensures Sane(s)
    ensures var t := HandleAck(s, ack, window).0;
            && (t.state.Closed? <==>
                  WorkedIn(s, ack, window) &&
                  (s.state.LastAck? || FinDue(Acknowledge(CountAck(NoteWindow(s, window), ack), ack))))
            && (t.state.Closed? ==> (t.queue == [] <==> s.finSent && ack == s.written))
  {
    hide HalfClosed, WriteAvail, Acknowledge, FinDue, Wire, Halved, AvoidanceCwnd, Sane;
    Noted(s, ack, window, stream);
    AfterAck(CountAck(NoteWindow(s, window), ack), ack, stream);
    SentState(NoteWindow(s, window).(herWindowZero := false));
  }

  /** The peer's window and the duplicate count do not matter. */
  lemma Noted(s: Sender, ack: nat, window: nat, stream: seq<byte>)
    requires HalfClosed(s, stream) && window < TWO_31
    ensures HalfClosed(CountAck(NoteWindow(s, window), ack), stream) && Second(s) && Sane(s)
  {
    hide Good;
    FieldsKeep(AsFirst(s), ack, window, stream);
    NotedAsFirst(s, ack, window);
  }

  lemma NotedAsFirst(s: Sender, ack: nat, window: nat)
    ensures AsFirst(CountAck(NoteWindow(s, window), ack)) == CountAck(NoteWindow(AsFirst(s), window), ack)
  {
    hide FirstState;
  }

  /** DTPWriteAvail enters LAST_ACK exactly with a FIN. */
  lemma SentState(s: Sender)
    requires Second(s)
    ensures WriteAvail(s).0.state == if FinDue(s) then LastAck else s.state
    ensures |WriteAvail(s).0.queue| >= |s.queue| + if FinDue(s) then 1 else 0
  {
    SP.SendLoopFrame(s, Sendable(s));
    LoopAppends(s, Sendable(s));
  }

  /** What an acknowledgement leaves. */
  lemma AfterAck(s: Sender, ack: nat, stream: seq<byte>)
    requires HalfClosed(s, stream) && s.acked <= ack <= s.written
    ensures Sane(s)
    ensures var a := Acknowledge(s, ack);
            var t := WriteAvail(a).0;
            && t.state == (if FinDue(a) then LastAck else s.state)
            && (t.state.LastAck? ==> (t.queue == [] <==> s.finSent && ack == s.written))
  {
    hide DataTiles, Sum, Buffered, RemovePackets, Shifted, MovedCwnd, WriteAvail;
    AcknowledgeKeeps(AsFirst(s), ack, stream);
    var a := Acknowledge(s, ack);
    assert AsFirst(a) == Acknowledge(AsFirst(s), ack);
    SentState(a);
    if s.finSent {
      WriteAvailIdle(AsFirst(a), |stream|);
      LikeFirst(a);
    }
  }

  // ---------- handlers, in any state ----------

  /** Where DTPWriteAvail runs when an acknowledgement arrives, FINs are in place. */
  predicate AckInPlace(s: Sender, ack: nat, window: nat)
    requires s.cwnd > 0 && s.ssthresh > 0
  {
    var t := NoteWindow(s, window);
    var u := CountAck(t, ack);
    || ack < s.acked
    || (if t.herWindowZero && window > 0 then FinInPlace(t.(herWindowZero := false))
        else (ack == s.acked && u.numAcks == 4) || FinInPlace(Acknowledge(u, ack)))
  }

  lemma AckAndSendAsFirst(s: Sender, ack: nat)
    requires Second(s) && s.cwnd > 0 && s.ssthresh > 0 && s.acked <= ack && FinInPlace(Acknowledge(s, ack))
    ensures var (t, out) := AckAndSend(s, ack);
            (AsFirst(t), out) == AckAndSend(AsFirst(s), ack) && t.finRcvd && (Second(t) || t.state.Closed?)
  {
    hide WriteAvail, RemovePackets, Shifted, MovedCwnd, FinInPlace;
    var a := Acknowledge(s, ack);
    assert AsFirst(a) == Acknowledge(AsFirst(s), ack);
    LikeFirst(a);
    SP.WriteAvailFrame(a);
  }

  /** HandleACKPacket does what it does for a first closer. */
  lemma AckAsFirst(s: Sender, ack: nat, window: nat)
    requires Second(s) && s.cwnd > 0 && s.ssthresh > 0 && AckInPlace(s, ack, window)
    ensures var (t, out) := HandleAck(s, ack, window);
            (AsFirst(t), out) == HandleAck(AsFirst(s), ack, window) && t.finRcvd && (Second(t) || t.state.Closed?)
  {
    hide WriteAvail, AckAndSend, FinInPlace, Wire, Acknowledge;
    var t := NoteWindow(s, window);
    var u := CountAck(t, ack);
    assert AsFirst(t) == NoteWindow(AsFirst(s), window);
    NotedAsFirst(s, ack, window);
    if ack < s.acked {
    } else if t.herWindowZero && window > 0 {
      LikeFirst(t.(herWindowZero := false));
    } else if ack == s.acked && u.numAcks == 4 {
      FastAsFirst(u);
    } else {
      AckAndSendAsFirst(u, ack);
    }
  }

  lemma FastAsFirst(s: Sender)
    requires Second(s) && s.cwnd >= 0
    ensures var (t, out) := FastRetransmit(s); (AsFirst(t), out) == FastRetransmit(AsFirst(s)) && Second(t)
  {
  }

  /** Otherwise a FIN with a wrong number goes out. */
  lemma AckOutOfPlace(s: Sender, ack: nat, window: nat)
    requires Second(s) && s.cwnd > 0 && s.ssthresh > 0 && !AckInPlace(s, ack, window)
    ensures !s.finSent
    ensures var out := HandleAck(s, ack, window).1;
            out != [] && out[|out| - 1].Fin? && out[|out| - 1].seqNum != s.written
  {
    hide WriteAvail, Sendable, RemovePackets, Shifted, MovedCwnd;
    var t := NoteWindow(s, window);
    if t.herWindowZero && window > 0 {
      FinGoesOut(t.(herWindowZero := false));
    } else {
      FinGoesOut(Acknowledge(CountAck(t, ack), ack));
    }
  }

  /** The same for resuming after an address change. */
  lemma ResumeAsFirst(s: Sender)
    requires Second(s) && FinInPlace(SlowStart(s))
    ensures var (t, out) := ResumeAuth(s); (AsFirst(t), out) == ResumeAuth(AsFirst(s)) && Second(t)
    ensures var (t, out) := ResumeRsp(s); (AsFirst(t), out) == ResumeRsp(AsFirst(s)) && Second(t)
  {
    hide WriteAvail, FinInPlace;
    assert AsFirst(SlowStart(s)) == SlowStart(AsFirst(s));
    LikeFirst(SlowStart(s));
  }

  lemma ResumeOutOfPlace(s: Sender)
    requires Second(s) && !FinInPlace(SlowStart(s))
    ensures !s.finSent
    ensures var at := SlowStart(s).sent + Max(0, Sendable(SlowStart(s)));
            at != s.written && Fin(at) in ResumeAuth(s).1 && Fin(at) in ResumeRsp(s).1
  {
    hide WriteAvail, Sendable;
    FinGoesOut(SlowStart(s));
  }

  // ---------- the first closer ----------

  /** The number a FIN acknowledges is one that a side in FIN_WAIT takes. */
  predicate NearWritten(s: Sender, ack: nat) {
    ack == s.written || ack == s.written + 1 || (ack == s.written - 1 && s.finSent)
  }

  predicate FinWaiting(s: Sender) {
    s.state.FinWait1? || s.state.FinWait2?
  }

  /** HandleFINPacket: what a FIN makes of the receiving half of a side whose sending half is `s`. */
  function FinTaken(r: R.RecvState, s: Sender, seqNum: nat, ack: nat): (t: R.RecvState)
    ensures s.state == (if r.finRcvd then CloseWait else Established) ==> t == R.AcceptFin(r, seqNum)
  {
    if FinWaiting(s) && !NearWritten(s, ack) then r
    else if s.state.Established? && seqNum != r.expected then r
    else r.(finRcvd := true)
  }

  /** FIN completeness of the second closer. The first closer takes the FIN whatever its number. If the rest fitted
      the windows, it then has every byte if and only if the FIN has the number it expected; and if the FIN has that
      number, it has every byte if and only if the rest fitted. */
  lemma SecondCloserComplete(s: Sender, stream: seq<byte>, r: R.RecvState, a: Sender, ack: nat)
    requires HalfClosed(s, stream) && FinDue(s)
    requires FinWaiting(a) && NearWritten(a, ack) && r.expected <= |stream|
    ensures var out := WriteAvail(s).1; out != [] && out[|out| - 1].Fin?
    ensures var out := WriteAvail(s).1;
            var at := out[|out| - 1].seqNum;
            var t := FinTaken(r, a, at, ack);
            && t.finRcvd
            && (RestFits(s) ==> (t.expected == |stream| <==> at == r.expected))
            && (at == r.expected ==> (t.expected == |stream| <==> RestFits(s)))
  {
    hide Good, WriteAvail, Sendable;
    SecondFinExactly(s, stream);
    WrittenIsStream(s, stream);
    LoopIsBounded(s, stream);
  }
}
