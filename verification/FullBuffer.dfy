/** Runs in which a FIN is queued behind a completely full write buffer, so that the next acknowledgement makes the
    sender read past its end.
 */
module FullBuffer {
  import opened DtpBase
  import opened Connection
  import opened FaultyRuns
  import S = SendSpec
  import SI = SendInvariant
  import SP = SendProperties
  import R = ReceiveSpec
  import Recovery

  // ---------- a buffer of at most one packet ----------

  lemma {:induction false} RestGoesOut(s: S.Sender, len: int, stream: seq<byte>)
    requires SI.Good(s, stream) && SI.Open(s, |stream|) && !s.congested && len == |stream| - s.sent <= MAX_PAYLOAD
    ensures S.SendLoop(s, len).0.sent == |stream|
    decreases len
  {
    if len > 0 {
      var m := S.PacketSize(s, len);
      SI.SendOne(s, m, stream);
      RestGoesOut(S.Queued(s, m), len - m, stream);
    }
  }

  /** At most one packet's worth of data, all of it inside the windows, goes out at once. */
  lemma SendsAll(s: S.Sender, stream: seq<byte>)
    requires SI.Good(s, stream) && SI.Open(s, |stream|) && !s.congested && !s.closeCalled
    requires s.sent == s.acked == 0 < |stream| <= MAX_PAYLOAD && |stream| <= s.rcvWindow && |stream| <= s.cwnd - s.segSent
    ensures var (t, out) := S.WriteAvail(s);
            t.sent == |stream| && !t.finSent && out != [] && out[0].Data? && out[0].seqNum == 0 && out[0].payload != []
  {
    hide SI.DataTiles, SI.Sum, SI.Right;
    SI.SendableIs(s);
    var len := |stream|;
    SI.SendLoopKeeps(s, len, stream);
    RestGoesOut(s, len, stream);
    SI.BufferSlice(s.buf, s.acked, stream, 0, S.PacketSize(s, len));
  }

  /** A whole buffer is written and sent. */
  lemma FillsBuffer(s: S.Sender, data: seq<byte>)
    requires SI.Good(s, []) && !s.closeCalled && !s.finSent && !s.congested && s.acked == s.sent == 0
    requires 0 < |data| == |s.buf| <= MAX_PAYLOAD && |data| <= s.rcvWindow && s.segSent == 0 && s.cwnd == MAX_PAYLOAD
    ensures var (t, out, res) := S.Send(s, data);
            && res == S.Accepted(|data|) && SI.Good(t, data) && t.sent == |data| && t.acked == 0 && |t.buf| == |s.buf|
            && !t.finSent && !t.congested && !t.closeCalled
            && out != [] && out[0].Data? && out[0].seqNum == 0 && out[0].payload != []
  {
    hide S.WriteAvail, SI.DataTiles, SI.Sum, SI.Buffered, SI.Right;
    assert data[..|data|] == data && [] + data == data;
    SI.AppendKeeps(s, data, []);
    var u := S.Appended(s, data);
    SendsAll(u, data);
    SI.WriteAvailKeeps(u, data);
  }

  lemma BufferFills(y: System, data: seq<byte>)
    requires BytesOut(y, 0) && 0 < |data| == |y.snd.buf| <= MAX_PAYLOAD && |data| <= y.snd.rcvWindow
    ensures var z := Next(y, Write(data));
            && AllSent(z, |data|) && z.rcv == y.rcv && |z.snd.buf| == |y.snd.buf|
            && exists payload :: payload != [] && Data(0, payload) in z.wire
  {
    hide Inv, Runnable, SI.Good, S.Send;
    InvIsRunnable(y);
    StepKeepsInv(y, Write(data));
    assert y.stream == [];
    FillsBuffer(y.snd, data);
    var out := S.Send(y.snd, data).1;
    assert data[..|data|] == data && [] + data == data;
    assert Data(0, out[0].payload) == out[0] && out[0] in SetOf(out);
  }

  /** For every write buffer of at most one packet's payload: the buffer is filled and closed behind, and an
      acknowledgement of data makes the sender read past the end of the buffer. */
  lemma OverreadHappens(y: System) returns (steps: seq<Step>)
    requires Initial(y) && |y.snd.buf| <= MAX_PAYLOAD && |y.rcv.buf| > 0
    ensures IsRun(y, steps)
    ensures var z := Run(y, steps);
            exists ack :: ack in z.acks && z.snd.acked < ack < z.snd.written && !SP.ShiftReadsInside(z.snd, ack)
  {
    hide Enabled, Tame, Next, Inv, AllSent, FinIsOut;
    var n, data := |y.snd.buf|, seq(|y.snd.buf|, _ => 7 as byte);
    FreshConnection(y);
    RcvIs(y);
    EasyEvents(y);
    Then(y, [], PeerData(n));
    assert [] + [PeerData(n)] == [PeerData(n)];
    WindowReported(y, 0, n);
    var a := [PeerData(n)] + [Write(data)];
    var y1 := Run(y, [PeerData(n)]);
    EasyEvents(y1);
    Then(y, [PeerData(n)], Write(data));
    BufferFills(y1, data);
    var y2 := Run(y, a);
    var payload :| payload != [] && Data(0, payload) in y2.wire;
    EasyEvents(y2);
    Then(y, a, Shut);
    CloseNow(y2, n);
    var b := a + [Shut];
    var y3 := Run(y, b);
    EasyEvents(y3);
    Then(y, b, SegmentArrives(Data(0, payload)));
    FirstArrives(y3, n, payload);
    var c := b + [SegmentArrives(Data(0, payload))];
    var y4 := Run(y, c);
    EasyEvents(y4);
    Then(y, c, EmitAck(true));
    AckLeaves(y4, n, y4.rcv.expected);
    steps := c + [EmitAck(true)];
    PastFullBuffer(Run(y, steps), n, y4.rcv.expected);
  }

  lemma PastFullBuffer(y: System, n: nat, ack: nat)
    requires FinIsOut(y, n) && |y.snd.buf| == n && ack in y.acks && 0 < ack <= n
    ensures y.snd.acked < ack < y.snd.written && !SP.ShiftReadsInside(y.snd, ack)
  {
  }

  // ---------- a buffer of any size ----------

  /** A window no buffer exceeds. */
  const WIDE := TWO_31 - 1

  lemma {:induction false} LoopAdvances(s: S.Sender, len: int)
    ensures S.SendLoop(s, len).0.sent >= s.sent + if S.KeepsSending(s, len) then 1 else 0
    decreases if len > 0 then len else 0
  {
    if S.KeepsSending(s, len) {
      LoopAdvances(S.Queued(s, S.PacketSize(s, len)), len - S.PacketSize(s, len));
    }
  }

  /** The sender is established, all of a full buffer is written, and nothing is acknowledged. */
  predicate Filling(s: S.Sender, stream: seq<byte>) {
    && SI.Good(s, stream) && SI.Open(s, |stream|) && !s.congested && !s.closeCalled
    && s.acked == 0 && |stream| == |s.buf|
  }

  /** The congestion window has room for a packet. */
  predicate Free(s: S.Sender) {
    s.segSent == 0 && s.cwnd >= MAX_PAYLOAD
  }

  /** With a wide window and a free congestion window DTPWriteAvail sends more. */
  lemma WideSends(s: S.Sender, stream: seq<byte>)
    requires Filling(s, stream) && Free(s) && s.rcvWindow == WIDE && s.sent < |stream|
    ensures Filling(S.WriteAvail(s).0, stream) && S.WriteAvail(s).0.sent > s.sent
  {
    SI.SendableIs(s);
    LoopAdvances(s, S.Sendable(s));
    SI.SendLoopKeeps(s, S.Sendable(s), stream);
  }

  /** Resuming after an address change sends more or leaves the congestion window free. */
  lemma ResumeFrees(s: S.Sender, stream: seq<byte>)
    requires Filling(s, stream)
    ensures var t := S.ResumeAuth(s).0; Filling(t, stream) && (t.sent > s.sent || (t.sent == s.sent && Free(t)))
  {
    var r := S.SlowStart(s);
    SI.QueueSum(s, |stream|);
    SI.SendableIs(r);
    SI.SendLoopKeeps(r, S.Sendable(r), stream);
  }

  /** Repeating the acknowledgement of nothing, with a wide window, sends more or comes nearer to it. */
  lemma AckPushes(s: S.Sender, stream: seq<byte>)
    requires Filling(s, stream) && Free(s) && s.sent < |stream|
    ensures SI.Sane(s)
    ensures var t := S.HandleAck(s, 0, WIDE).0;
            && Filling(t, stream)
            && (t.sent > s.sent || (t.sent == s.sent && Free(t) && Recovery.Patience(t) < Recovery.Patience(s)))
  {
    hide S.WriteAvail, S.AckAndSend, SI.DataTiles, SI.Sum, SI.Buffered, SI.GoBackN;
    SI.FieldsKeep(s, 0, WIDE, stream);
    var t := S.NoteWindow(s, WIDE);
    var u := S.CountAck(t, 0);
    if s.herWindowZero {
      WideSends(t.(herWindowZero := false), stream);
    } else if u.numAcks == 4 {
      SI.FastRetransmitKeeps(u, stream);
    } else {
      SameAckSends(u, stream);
    }
  }

  lemma SameAckSends(s: S.Sender, stream: seq<byte>)
    requires Filling(s, stream) && Free(s) && s.rcvWindow == WIDE && s.sent < |stream|
    ensures SI.Sane(s)
    ensures var t := S.AckAndSend(s, 0).0; Filling(t, stream) && t.sent > s.sent
  {
    hide S.WriteAvail, SI.Buffered, S.RemovePackets, S.Shifted, SI.DataTiles, SI.Sum, SI.GoBackN;
    SI.AcknowledgeOpen(s, 0, stream);
    var a := S.Acknowledge(s, 0);
    SI.TilesBounds(s.queue, s.acked, s.sent);
    SI.TilesBounds(a.queue, a.acked, a.sent);
    WideSends(a, stream);
  }

  /** A whole buffer is written, of which some may go out. */
  lemma WritesWhole(s: S.Sender, data: seq<byte>)
    requires SI.Good(s, []) && !s.closeCalled && !s.finSent && !s.congested && s.acked == 0 < |data| == |s.buf|
    ensures var (t, out, res) := S.Send(s, data); res == S.Accepted(|data|) && Filling(t, data)
  {
    hide S.WriteAvail, SI.DataTiles, SI.Sum, SI.Buffered, SI.Right;
    assert data[..|data|] == data && [] + data == data;
    SI.AppendKeeps(s, data, []);
    SI.WriteAvailKeeps(S.Appended(s, data), data);
  }

  ghost predicate Full(y: System) {
    Inv(y) && Filling(y.snd, y.stream) && 0 in y.acks
  }

  lemma BecomesFull(y: System, data: seq<byte>)
    requires BytesOut(y, 0) && |data| == |y.snd.buf| > 0 && 0 in y.acks
    ensures Full(Next(y, Write(data)))
  {
    hide Inv, Runnable, SI.Good, S.Send, Filling;
    InvIsRunnable(y);
    StepKeepsInv(y, Write(data));
    assert y.stream == [];
    WritesWhole(y.snd, data);
    assert data[..|data|] == data && [] + data == data;
  }

  lemma AckComesNearer(y: System)
    requires Full(y) && Free(y.snd) && y.snd.sent < |y.stream|
    ensures Enabled(y, AckArrives(0, WIDE)) && Tame(y, AckArrives(0, WIDE))
    ensures var z := Next(y, AckArrives(0, WIDE));
            && Full(z) && z.stream == y.stream
            && (z.snd.sent > y.snd.sent ||
                (z.snd.sent == y.snd.sent && Free(z.snd) && Recovery.Patience(z.snd) < Recovery.Patience(y.snd)))
  {
    hide Inv, Runnable, S.HandleAck, Filling, Free, Recovery.Patience;
    InvIsRunnable(y);
    StepKeepsInv(y, AckArrives(0, WIDE));
    AckPushes(y.snd, y.stream);
  }

  lemma PushedOn(y: System) returns (steps: seq<Step>)
    requires Full(y) && Free(y.snd) && y.snd.sent < |y.stream|
    ensures IsRun(y, steps)
    ensures var z := Run(y, steps); Full(z) && z.stream == y.stream && z.snd.sent > y.snd.sent
    decreases Recovery.Patience(y.snd)
  {
    hide Enabled, Tame, Next, Full, Free, Recovery.Patience;
    var p := AckArrives(0, WIDE);
    AckComesNearer(y);
    OneStep(y, p);
    steps := [p];
    if Next(y, p).snd.sent == y.snd.sent {
      var more := PushedOn(Next(y, p));
      Continued(y, [p], more);
      steps := [p] + more;
    }
  }

  lemma Resumed(y: System)
    requires Full(y)
    ensures Enabled(y, ResumeAuth) && Tame(y, ResumeAuth)
    ensures var z := Next(y, ResumeAuth);
            Full(z) && z.stream == y.stream && (z.snd.sent > y.snd.sent || (z.snd.sent == y.snd.sent && Free(z.snd)))
  {
    hide Inv, Runnable, S.ResumeAuth, SI.Good, Free;
    InvIsRunnable(y);
    StepKeepsInv(y, ResumeAuth);
    ResumeFrees(y.snd, y.stream);
  }

  function Unsent(y: System): nat {
    Max(0, |y.stream| - y.snd.sent)
  }

  /** Address changes and repeated acknowledgements of nothing get the whole buffer out. */
  lemma AllGoesOut(y: System) returns (steps: seq<Step>)
    requires Full(y)
    ensures IsRun(y, steps)
    ensures var z := Run(y, steps); Full(z) && z.stream == y.stream && z.snd.sent >= |z.stream|
    decreases Unsent(y)
  {
    hide Enabled, Tame, Next, Full, Free;
    steps := [];
    if y.snd.sent < |y.stream| {
      Resumed(y);
      OneStep(y, ResumeAuth);
      steps := [ResumeAuth];
      if Next(y, ResumeAuth).snd.sent == y.snd.sent {
        var more := PushedOn(Next(y, ResumeAuth));
        Continued(y, [ResumeAuth], more);
        steps := [ResumeAuth] + more;
      }
      var rest := AllGoesOut(Run(y, steps));
      Continued(y, steps, rest);
      steps := steps + rest;
    }
  }

  lemma ClosedBehind(y: System)
    requires Full(y) && y.snd.sent >= |y.stream|
    ensures var z := Next(y, Shut);
            0 in z.acks && z.snd.acked == 0 < z.snd.written && !SP.ShiftReadsInside(z.snd, 0)
  {
    hide Inv, SI.DataTiles, SI.Sum, SI.Buffered, SI.GoBackN;
    InvIsRunnable(y);
    var s := y.snd.(closeCalled := true);
    SendsFin(s, y.stream);
  }

  /** For every write buffer: a run with address changes fills it, gets all of it out and closes, and the next
      acknowledgement, be it of nothing new, makes the sender read past the end of the buffer. */
  lemma OverreadAtAnySize(y: System) returns (steps: seq<Step>)
    requires Initial(y)
    ensures IsRun(y, steps)
    ensures var z := Run(y, steps); 0 in z.acks && z.snd.acked == 0 < z.snd.written && !SP.ShiftReadsInside(z.snd, 0)
  {
    hide Enabled, Tame, Next, Full, BytesOut;
    var data := seq(|y.snd.buf|, _ => 7 as byte);
    FreshConnection(y);
    BufferHasRoom(y);
    EasyEvents(y);
    OneStep(y, EmitAck(true));
    FirstAck(y);
    var y1 := Next(y, EmitAck(true));
    EasyEvents(y1);
    OneStep(y1, Write(data));
    BecomesFull(y1, data);
    var y2 := Next(y1, Write(data));
    Continued(y, [EmitAck(true)], [Write(data)]);
    var a := [EmitAck(true)] + [Write(data)];
    var b := AllGoesOut(y2);
    Continued(y, a, b);
    var y3 := Run(y2, b);
    EasyEvents(y3);
    OneStep(y3, Shut);
    ClosedBehind(y3);
    Continued(y, a + b, [Shut]);
    steps := a + b + [Shut];
  }

  lemma BufferHasRoom(y: System)
    requires Initial(y)
    ensures |y.snd.buf| > 0
  {
  }

  lemma FirstAck(y: System)
    requires BytesOut(y, 0)
    ensures var z := Next(y, EmitAck(true)); BytesOut(z, 0) && 0 in z.acks && z.snd == y.snd
  {
    hide Inv, SI.Good;
    InvIsRunnable(y);
    StepKeepsInv(y, EmitAck(true));
  }
}
