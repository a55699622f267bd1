/** The sending half beyond its invariant. When the acknowledgement of a FIN arrives while that FIN stands taken
    back, the cursors cross: `acked` passes `written`. What the sender does from then on is confined to
    positions past the end of the stream.
 */
module SendSafety {
  import opened DtpBase
  import opened SendSpec
  import opened SendInvariant
  import opened SendProperties

  /** The cursors have crossed; the queue tiles what was sent past the end. */
  predicate Crossed(s: Sender, n: nat) {
    && Sane(s) && s.acked == n + 1 && s.written == n && DataTiles(s.queue, n + 1, s.sent)
    && GoBackN(s.queue, s.congested)
    && !s.finSent && !s.finRcvd && s.closeCalled && s.state.FinWait1?
  }

  predicate Past(g: Segment, n: nat) {
    g.Data? && g.seqNum > n
  }

  /** The invariant, or crossed cursors. */
  predicate Safe(s: Sender, stream: seq<byte>) {
    Good(s, stream) || Crossed(s, |stream|)
  }

  /** A segment tells the truth about the stream or, once the cursors have crossed, is past its end. */
  predicate Harmless(g: Segment, s: Sender, stream: seq<byte>) {
    Right(g, stream, Ended(s)) || (Crossed(s, |stream|) && Past(g, |stream|))
  }

  /** What every handler does from `s` to `t`, emitting `out`. */
  predicate Sound(s: Sender, t: Sender, out: seq<Segment>, stream: seq<byte>) {
    && Safe(t, stream) && (forall i :: 0 <= i < |out| ==> Harmless(out[i], t, stream))
    && (Crossed(s, |stream|) ==> Crossed(t, |stream|)) && (Ended(s) ==> Ended(t))
    && s.acked <= t.acked && |t.buf| == |s.buf| && t.readBufLen == s.readBufLen && t.closeCalled == s.closeCalled
  }

  lemma KeptIsSound(s: Sender, t: Sender, out: seq<Segment>, stream: seq<byte>)
    requires Good(s, stream) && Kept(s, t, out, stream)
    ensures Sound(s, t, out, stream)
  {
    hide Right;
    GoodIsNotCrossed(s, stream);
  }

  lemma GoodIsNotCrossed(s: Sender, stream: seq<byte>)
    ensures !(Good(s, stream) && Crossed(s, |stream|))
  {
  }

  /** A step of a crossed sender. */
  predicate StaysCrossed(s: Sender, t: Sender, out: seq<Segment>, n: nat) {
    && Crossed(t, n) && (forall i :: 0 <= i < |out| ==> Past(out[i], n))
    && Lag(t) == Lag(s) && |t.buf| == |s.buf| && t.readBufLen == s.readBufLen
  }

  lemma CrossedIsSound(s: Sender, t: Sender, out: seq<Segment>, stream: seq<byte>)
    requires Crossed(s, |stream|) && StaysCrossed(s, t, out, |stream|)
    ensures Sound(s, t, out, stream) && Lag(t) == Lag(s) && t.acked == s.acked
  {
    hide Right, DataTiles, GoBackN, Sum;
  }

  lemma SafeIsSane(s: Sender, stream: seq<byte>)
    requires Safe(s, stream)
    ensures Sane(s) && forall k :: 0 <= k < |s.queue| ==> s.queue[k].End() >= 0
  {
    if Good(s, stream) {
      PacketsEnd(s, |stream|);
    } else {
      TilesBounds(s.queue, s.acked, s.sent);
    }
  }

  lemma {:induction false} CrossedLoop(s: Sender, len: int, n: nat)
    requires Crossed(s, n) && !s.congested
    ensures StaysCrossed(s, SendLoop(s, len).0, SendLoop(s, len).1, n)
    decreases if len > 0 then len else 0
  {
    TilesBounds(s.queue, s.acked, s.sent);
    if KeepsSending(s, len) {
      var m := PacketSize(s, len);
      TilesAppend(s.queue, s.acked, s.sent, NewPacket(s, m));
      SumAppend(s.queue, NewPacket(s, m));
      CrossedLoop(Queued(s, m), len - m, n);
    }
  }

  lemma CrossedWriteAvail(s: Sender, n: nat)
    requires Crossed(s, n)
    ensures StaysCrossed(s, WriteAvail(s).0, WriteAvail(s).1, n)
  {
    hide DataTiles, Sum, SendLoop;
    if !s.congested {
      CrossedLoop(s, Sendable(s), n);
      CrossedEnd(SendLoop(s, Sendable(s)).0, n);
    }
  }

  lemma CrossedEnd(s: Sender, n: nat)
    requires Crossed(s, n)
    ensures s.sent > n
  {
    TilesBounds(s.queue, s.acked, s.sent);
  }

  /** Nothing is removed or trimmed: the queue starts where the acknowledgement ends. */
  lemma CrossedAcknowledge(s: Sender, n: nat)
    requires Crossed(s, n)
    ensures var a := Acknowledge(s, n + 1); Crossed(a, n) && Lag(a) == Lag(s) && |a.buf| == |s.buf|
    ensures Acknowledge(s, n + 1).readBufLen == s.readBufLen
  {
    hide RemovePackets, DataTiles, Sum, Shifted;
    CrossedEnd(s, n);
    CrossedHead(s, n);
    RemoveTiles(s.queue, s.acked, s.sent, n + 1);
  }

  lemma CrossedHead(s: Sender, n: nat)
    requires Crossed(s, n)
    ensures s.queue != [] ==> s.queue[0].seqNum == n + 1 < s.queue[0].End()
  {
  }

  lemma CrossedAckAndSend(s: Sender, n: nat)
    requires Crossed(s, n)
    ensures StaysCrossed(s, AckAndSend(s, n + 1).0, AckAndSend(s, n + 1).1, n)
  {
    hide WriteAvail, Acknowledge, DataTiles, Sum;
    CrossedAcknowledge(s, n);
    CrossedWriteAvail(Acknowledge(s, n + 1), n);
  }

  lemma CrossedMark(s: Sender, n: nat)
    requires Crossed(s, n) && s.queue != []
    ensures Crossed(MarkHead(s), n) && Lag(MarkHead(s)) == Lag(s) && Past(Wire(s, s.queue[0]), n)
  {
    SumMark(s.queue, s.queue[0].(isRetrans := true));
    MarkTiles(s.queue, s.queue[0].(isRetrans := true), s.acked, s.sent);
  }

  /** All that a peer can still acknowledge is the FIN. */
  lemma CrossedAck(s: Sender, ack: nat, window: nat, n: nat)
    requires Crossed(s, n) && ack <= n + 1 && window < TWO_31
    ensures StaysCrossed(s, HandleAck(s, ack, window).0, HandleAck(s, ack, window).1, n)
  {
    hide WriteAvail, AckAndSend, DataTiles, GoBackN, Sum;
    var t := NoteWindow(s, window);
    var u := CountAck(t, ack);
    if ack == n + 1 {
      CrossedWriteAvail(t.(herWindowZero := false), n);
      CrossedAckAndSend(u, n);
      if u.queue != [] {
        CrossedMark(u, n);
      }
    }
  }

  /** Go-back-N, as before the end of the stream. */
  lemma CrossedTimeout(s: Sender, due: Packet -> bool, n: nat)
    requires Crossed(s, n)
    ensures forall k :: 0 <= k < |s.queue| ==> s.queue[k].End() >= 0
    ensures StaysCrossed(s, HandleTimeout(s, due).0, HandleTimeout(s, due).1, n)
  {
    hide TimeoutLoop;
    TilesBounds(s.queue, s.acked, s.sent);
    QuietTimeout(s, due);
    if s.queue != [] && due(s.queue[0]) {
      TimeoutOfHead(s, due);
      var p := s.queue[0].(isRetrans := true);
      assert [p][1..] == [];
      assert DataTiles([p], n + 1, p.End());
      assert Sum([p]) == p.len && Sum(s.queue) == p.len + Sum(s.queue[1..]);
    }
  }

  lemma QuietTimeout(s: Sender, due: Packet -> bool)
    requires s.cwnd >= 0 && GoBackN(s.queue, s.congested) && forall k :: 0 <= k < |s.queue| ==> s.queue[k].End() >= 0
    ensures s.queue == [] || !due(s.queue[0]) ==> HandleTimeout(s, due) == (s, [])
  {
  }

  // ---------- the handlers, in every safe state ----------

  /** Acknowledging the taken-back FIN empties the queue and crosses the cursors. */
  lemma AcknowledgeCrosses(s: Sender, n: nat)
    requires Inv(s, n) && Open(s, n) && s.state.FinWait1? && s.closeCalled
    ensures var a := Acknowledge(s, n + 1);
            Crossed(a, n) && Lag(a) == Lag(s) && |a.buf| == |s.buf| && a.readBufLen == s.readBufLen
  {
    hide MovedCwnd, Shifted;
    RemoveTiles(s.queue, s.acked, s.sent, n + 1);
    TilesBounds(RemovePackets(s.queue, n + 1).0, n + 1, n + 1);
    MovedCwndPositive(s, n + 1 - s.acked);
  }

  lemma Crossing(s: Sender, window: nat, stream: seq<byte>)
    requires Good(s, stream) && Open(s, |stream|) && s.state.FinWait1? && s.closeCalled
    requires window < TWO_31 && !(s.herWindowZero && window > 0)
    ensures Sane(s)
    ensures var (t, out) := HandleAck(s, |stream| + 1, window);
            Sound(s, t, out, stream) && Lag(t) == Lag(s) && t.acked == |stream| + 1
  {
    hide WriteAvail, Acknowledge, Right, DataTiles, Sum;
    var n, u := |stream|, NoteWindow(s, window);
    FieldsKeep(s, n + 1, window, stream);
    AcknowledgeCrosses(u, n);
    CrossedWriteAvail(Acknowledge(u, n + 1), n);
    WriteAvailFrame(Acknowledge(u, n + 1));
    GoodIsNotCrossed(s, stream);
  }

  lemma AckSound(s: Sender, ack: nat, window: nat, stream: seq<byte>)
    requires Safe(s, stream) && ack <= |stream| + (if Ended(s) then 1 else 0) && window < TWO_31
    ensures Sane(s)
    ensures var (t, out) := HandleAck(s, ack, window);
            Sound(s, t, out, stream) && Lag(t) == Lag(s) && t.acked <= Max(s.acked, ack)
  {
    hide HandleAck, Sound, Good, Crossed, StaysCrossed, Right, Sum;
    SafeIsSane(s, stream);
    var n, o := |stream|, HandleAck(s, ack, window);
    if Crossed(s, n) {
      CrossedAck(s, ack, window, n);
      CrossedIsSound(s, o.0, o.1, stream);
    } else if ack <= s.written {
      HandleAckKeeps(s, ack, window, stream);
      KeptIsSound(s, o.0, o.1, stream);
    } else {
      BeyondIsFinAck(s, ack, stream);
      if s.herWindowZero && window > 0 {
        ReopenedWindow(s, ack, window, stream);
        KeptIsSound(s, o.0, o.1, stream);
      } else {
        Crossing(s, window, stream);
      }
    }
  }

  lemma TimeoutSound(s: Sender, due: Packet -> bool, stream: seq<byte>)
    requires Safe(s, stream)
    ensures Sane(s) && forall k :: 0 <= k < |s.queue| ==> s.queue[k].End() >= 0
    ensures var (t, out) := HandleTimeout(s, due); Sound(s, t, out, stream) && Lag(t) == Lag(s) && t.acked == s.acked
  {
    hide TimeoutLoop, Sound, Right, Good, Crossed, StaysCrossed, Sum;
    SafeIsSane(s, stream);
    var n, o := |stream|, HandleTimeout(s, due);
    if Crossed(s, n) {
      CrossedTimeout(s, due, n);
      CrossedIsSound(s, o.0, o.1, stream);
    } else {
      HandleTimeoutKeeps(s, due, stream);
      KeptIsSound(s, o.0, o.1, stream);
    }
  }

  /** Resuming after an address change is sound if and only if no FIN stands rolled back. */
  lemma ResumeSound(s: Sender, stream: seq<byte>)
    requires Safe(s, stream)
    ensures Sound(s, ResumeAuth(s).0, ResumeAuth(s).1, stream) <==> !FinRolledBack(s)
    ensures Sound(s, ResumeRsp(s).0, ResumeRsp(s).1, stream) <==> !FinRolledBack(s)
    ensures !FinRolledBack(s) ==> Lag(ResumeAuth(s).0) >= 0 && Lag(ResumeRsp(s).0) >= 0
    ensures !FinRolledBack(s) ==> ResumeAuth(s).0.acked == s.acked && ResumeRsp(s).0.acked == s.acked
  {
    hide ResumeAuth, ResumeRsp, Sound, Right, Crossed, WriteAvail, Phase, Buffered, Closing, GoBackN, FinRolledBack;
    CrossedHasNoFin(s, |stream|);
    if FinRolledBack(s) {
      ResumeNotSound(s, stream);
    } else if Crossed(s, |stream|) {
      CrossedResume(s, |stream|);
      CrossedSlowIsSound(s, ResumeAuth(s).0, ResumeAuth(s).1, stream);
      CrossedSlowIsSound(s, ResumeRsp(s).0, ResumeRsp(s).1, stream);
    } else {
      ResumeKeeps(s, stream);
      KeptIsSound(s, ResumeAuth(s).0, ResumeAuth(s).1, stream);
      KeptIsSound(s, ResumeRsp(s).0, ResumeRsp(s).1, stream);
    }
  }

  lemma CrossedHasNoFin(s: Sender, n: nat)
    ensures !(Crossed(s, n) && FinRolledBack(s))
  {
  }

  lemma ResumeNotSound(s: Sender, stream: seq<byte>)
    requires Good(s, stream) && FinRolledBack(s)
    ensures !Sound(s, ResumeAuth(s).0, ResumeAuth(s).1, stream)
    ensures !Sound(s, ResumeRsp(s).0, ResumeRsp(s).1, stream)
  {
    hide Phase, Crossed, WriteAvail, SlowStart, ResumeRsp;
    ResumeSendsFinAsData(s, |stream|);
    var g := ResumeRsp(s).1[0];
    assert g == ResumeAuth(s).1[0];
    FinAsDataIsHarmful(g, ResumeAuth(s).0, stream);
    FinAsDataIsHarmful(g, ResumeRsp(s).0, stream);
  }

  /** A data byte in the FIN's place is not right, nor is it past the FIN. */
  lemma FinAsDataIsHarmful(g: Segment, s: Sender, stream: seq<byte>)
    requires g.Data? && g.seqNum == |stream| && g.payload != []
    ensures !Harmless(g, s, stream)
  {
    hide Crossed;
  }

  lemma CrossedResume(s: Sender, n: nat)
    requires Crossed(s, n)
    ensures StaysCrossed(SlowStart(s), ResumeAuth(s).0, ResumeAuth(s).1, n)
    ensures StaysCrossed(SlowStart(s), ResumeRsp(s).0, ResumeRsp(s).1, n)
    ensures Crossed(SlowStart(s), n) && Lag(SlowStart(s)) >= 0
  {
    hide WriteAvail;
    TilesBounds(s.queue, s.acked, s.sent);
    CrossedWriteAvail(SlowStart(s), n);
    var t := WriteAvail(SlowStart(s)).0;
    if t.queue != [] {
      CrossedMark(t, n);
    }
  }

  lemma CrossedSlowIsSound(s: Sender, t: Sender, out: seq<Segment>, stream: seq<byte>)
    requires Crossed(s, |stream|) && StaysCrossed(SlowStart(s), t, out, |stream|) && Lag(SlowStart(s)) >= 0
    ensures Sound(s, t, out, stream) && Lag(t) >= 0 && t.acked == s.acked
  {
    hide Right, DataTiles, GoBackN, Sum;
  }

  /** dtp_send: the accepted bytes extend the stream; once a FIN was sent there are none. */
  lemma SendSound(s: Sender, data: seq<byte>, stream: seq<byte>)
    requires Safe(s, stream)
    ensures var (t, out, res) := Send(s, data);
            var longer := stream + data[..if res.Accepted? then res.count else 0];
            && (res.Accepted? ==> res.count <= |data|) && Sound(s, t, out, longer) && Lag(t) == Lag(s)
            && (Ended(s) ==> longer == stream) && t.acked == s.acked && t.cwnd == s.cwnd && t.ssthresh == s.ssthresh
  {
    assert stream + data[..0] == stream;
    if Crossed(s, |stream|) {
      assert Send(s, data).0 == s && Send(s, data).1 == [];
    } else {
      SendKeeps(s, data, stream);
      SendKeptIsSound(s, data, stream);
    }
  }

  lemma SendKeptIsSound(s: Sender, data: seq<byte>, stream: seq<byte>)
    requires Good(s, stream)
    ensures var (t, out, res) := Send(s, data);
            var longer := stream + data[..if res.Accepted? && res.count <= |data| then res.count else 0];
            Kept(s, t, out, longer) ==> Sound(s, t, out, longer)
  {
    hide Send, Right, Sum, DataTiles, GoBackN;
  }

  /** dtp_close. */
  lemma CloseSound(s: Sender, stream: seq<byte>)
    requires Safe(s, stream)
    ensures Safe(s.(closeCalled := true), stream) && Lag(s.(closeCalled := true)) == Lag(s)
    ensures var (t, out) := Close(s);
            Sound(s.(closeCalled := true), t, out, stream) && Lag(t) == Lag(s) && t.acked == s.acked
  {
    hide WriteAvail, Sound, Right, Sum;
    var u, o := s.(closeCalled := true), Close(s);
    if Crossed(s, |stream|) {
      CrossedWriteAvail(u, |stream|);
      CrossedIsSound(u, o.0, o.1, stream);
    } else {
      CloseKeeps(s, stream);
      KeptIsSound(u, o.0, o.1, stream);
    }
  }

  lemma NoteWindowSound(s: Sender, window: nat, stream: seq<byte>)
    requires Safe(s, stream) && window < TWO_31
    ensures Sound(s, NoteWindow(s, window), [], stream) && Lag(NoteWindow(s, window)) == Lag(s)
  {
    hide Right, Sum, DataTiles, Buffered;
    if Good(s, stream) {
      NoteWindowKeeps(s, window, stream);
    }
    GoodIsNotCrossed(s, stream);
  }
}
