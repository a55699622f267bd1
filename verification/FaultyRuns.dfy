/** Runs that lead from a fresh connection to what the original gets wrong: each is a sequence of ordinary events.
 */
module FaultyRuns {
  import opened DtpBase
  import opened Connection
  import S = SendSpec
  import SI = SendInvariant
  import SP = SendProperties
  import SS = SendSafety
  import R = ReceiveSpec
  import Intervals

  const BYTE: seq<byte> := [7]

  // ---------- single events ----------

  lemma SendsByte(s: S.Sender, stream: seq<byte>)
    requires SI.Good(s, stream) && SI.Open(s, |stream|) && !s.congested
    requires s.sent + 1 == |stream| && s.cwnd - s.segSent > 0 && !s.closeCalled
    requires s.rcvWindow > s.sent - s.acked || s.sent - s.acked > s.rcvWindow
    ensures S.WriteAvail(s) == (S.Queued(s, 1), [S.Wire(s, S.NewPacket(s, 1))])
  {
    SI.SendableIs(s);
    assert S.Sendable(s) == 1;
    var t := S.Queued(s, 1);
    assert S.SendLoop(t, 0) == (t, []);
    assert [S.Wire(s, S.NewPacket(s, 1))] + [] == [S.Wire(s, S.NewPacket(s, 1))];
  }

  lemma SendsFin(s: S.Sender, stream: seq<byte>)
    requires SI.Good(s, stream) && SI.Open(s, |stream|) && !s.congested && s.closeCalled && s.sent == |stream|
    ensures S.WriteAvail(s) == S.SendFin(s)
  {
    SI.MinUnsignedIs(0, S.U32(s.rcvWindow - (s.sent - s.acked)));
    assert S.SendLoop(s, S.Sendable(s)) == (s, []);
    assert [] + [Fin(s.sent)] == [Fin(s.sent)];
  }

  /** `n` bytes were written and sent, and none has arrived. */
  ghost predicate AllSent(y: System, n: nat) {
    && Inv(y) && SI.Good(y.snd, y.stream) && |y.stream| == n && y.snd.sent == n && y.snd.acked == 0
    && !y.snd.finSent && !y.snd.congested && !y.snd.closeCalled
    && y.rcv == R.RecvState(y.rcv.buf, [], 0, 0, 0, false)
  }

  /** And the congestion window is still the first one. */
  ghost predicate BytesOut(y: System, n: nat) {
    AllSent(y, n) && y.snd.segSent == n && y.snd.cwnd == MAX_PAYLOAD
  }

  lemma FreshConnection(y: System)
    requires Initial(y)
    ensures Inv(y) && BytesOut(y, 0) && y.snd.queue == [] && y.snd.rcvWindow > 0 && !y.snd.herWindowZero
  {
    InitialInv(y);
    assert SI.Good(y.snd, y.stream);
  }

  /** A byte is written and sent at once. */
  lemma WriteByte(y: System, n: nat)
    requires BytesOut(y, n) && n < |y.snd.buf| && n < MAX_PAYLOAD && (y.snd.rcvWindow > n || n > y.snd.rcvWindow)
    ensures var z := Next(y, Write(BYTE));
            && BytesOut(z, n + 1) && z.stream == y.stream + BYTE && Data(n, BYTE) in z.wire
            && z.snd.queue == y.snd.queue + [S.Packet(n, 1, n, false, false)] && |z.snd.buf| == |y.snd.buf|
            && z.snd.rcvWindow == y.snd.rcvWindow && z.snd.herWindowZero == y.snd.herWindowZero && z.rcv == y.rcv
  {
    hide Inv, Runnable, SI.Good, S.Send, SI.Sane;
    InvIsRunnable(y);
    StepKeepsInv(y, Write(BYTE));
    WritesByte(y.snd, y.stream);
    var out := S.Send(y.snd, BYTE).1;
    assert Data(n, BYTE) in SetOf(out);
  }

  lemma WritesByte(s: S.Sender, stream: seq<byte>)
    requires SI.Good(s, stream) && s.sent == |stream| < |s.buf| && s.acked == 0 && !s.congested && !s.closeCalled
    requires s.cwnd - s.segSent > 0 && !s.finSent && s.rcvWindow != s.sent
    ensures 0 <= s.written && s.written + 1 <= |s.buf|
    ensures S.Send(s, BYTE) == (S.Queued(S.Appended(s, BYTE), 1), [Data(|stream|, BYTE)], S.Accepted(1))
    ensures BYTE[..1] == BYTE && SI.Good(S.Send(s, BYTE).0, stream + BYTE)
  {
    hide SI.DataTiles, SI.Sum, S.WriteAvail, SI.Buffered, SI.Right;
    assert BYTE[..1] == BYTE;
    SI.AppendKeeps(s, BYTE, stream);
    var u := S.Appended(s, BYTE);
    SendsByte(u, stream + BYTE);
    SI.WriteAvailKeeps(u, stream + BYTE);
    assert u.buf[s.sent..s.sent + 1] == BYTE;
  }

  /** All bytes and then the FIN are out. */
  ghost predicate FinIsOut(y: System, n: nat) {
    && Inv(y) && SI.Good(y.snd, y.stream) && |y.stream| == n && y.snd.acked == 0 && y.snd.finSent
    && y.snd.written == n + 1 && y.snd.sent == n + 1 && !y.snd.congested && Fin(n) in y.wire
  }

  lemma CloseNow(y: System, n: nat)
    requires AllSent(y, n)
    ensures var z := Next(y, Shut);
            && FinIsOut(z, n) && z.rcv == y.rcv && y.wire <= z.wire && z.stream == y.stream && z.snd.buf == y.snd.buf
            && z.snd.queue == y.snd.queue + [S.Packet(n, 0, n, false, true)]
            && z.snd.herWindowZero == y.snd.herWindowZero
  {
    InvIsRunnable(y);
    StepKeepsInv(y, Shut);
    var s := y.snd.(closeCalled := true);
    assert SI.Good(s, y.stream);
    SendsFin(s, y.stream);
    SI.SendFinKeeps(s, y.stream);
    assert Fin(n) in [Fin(s.sent)];
  }

  /** The peer's window field arrives. */
  lemma WindowReported(y: System, n: nat, window: nat)
    requires BytesOut(y, n) && window < TWO_31
    ensures var z := Next(y, PeerData(window));
            && BytesOut(z, n) && z.stream == y.stream && z.wire == y.wire && |z.snd.buf| == |y.snd.buf|
            && z.snd.rcvWindow == window && z.rcv == y.rcv
  {
    InvIsRunnable(y);
    StepKeepsInv(y, PeerData(window));
    SI.NoteWindowKeeps(y.snd, window, y.stream);
  }

  /** The first packet arrives. */
  lemma FirstArrives(y: System, n: nat, payload: seq<byte>)
    requires FinIsOut(y, n) && Data(0, payload) in y.wire && payload != []
    requires y.rcv == R.RecvState(y.rcv.buf, [], 0, 0, 0, false) && |y.rcv.buf| > 0
    ensures var z := Next(y, SegmentArrives(Data(0, payload)));
            && FinIsOut(z, n) && z.rcv.expected == Min(|y.rcv.buf|, |payload|) <= n && !z.rcv.finRcvd
            && z.snd == y.snd
  {
    hide Inv, R.Accept, SI.Good;
    InvIsRunnable(y);
    R.NextAccepted(y.rcv, 0, payload);
    StepKeepsInv(y, SegmentArrives(Data(0, payload)));
    InsideStream(Next(y, SegmentArrives(Data(0, payload))));
  }

  lemma FinArrives(y: System)
    requires FinIsOut(y, 1) && y.rcv.expected == 1 && !y.rcv.finRcvd
    ensures var z := Next(y, SegmentArrives(Fin(1))); FinIsOut(z, 1) && z.rcv.AckNumber() == 2 && z.snd == y.snd
  {
    hide Inv, SI.Good;
    InvIsRunnable(y);
    StepKeepsInv(y, SegmentArrives(Fin(1)));
  }

  lemma AckLeaves(y: System, n: nat, ack: nat)
    requires FinIsOut(y, n) && y.rcv.AckNumber() == ack
    ensures var z := Next(y, EmitAck(true)); FinIsOut(z, n) && ack in z.acks && z.snd == y.snd
  {
    hide Inv, SI.Good;
    InvIsRunnable(y);
    StepKeepsInv(y, EmitAck(true));
  }

  /** The head of the queue times out: a FIN is rolled back, and data takes the FIN behind it back. */
  lemma HeadTimeout(s: S.Sender, stream: seq<byte>)
    requires SI.Good(s, stream) && s.finSent && s.acked <= |stream| && s.queue != []
    ensures SI.Sane(s) && forall k :: 0 <= k < |s.queue| ==> s.queue[k].End() >= 0
    ensures var t := S.HandleTimeout(s, _ => true).0;
            && SI.Good(t, stream) && t.buf == s.buf && t.herWindowZero == s.herWindowZero
            && (if s.queue[0].isFin then SI.FinRolledBack(t) else t.written == |stream| && !t.finSent)
  {
    hide SI.Buffered, SI.DataTiles, S.TimeoutLoop, SI.Right, SI.Sum, S.Wire;
    SI.HandleTimeoutKeeps(s, _ => true, stream);
    SI.TimeoutIsGoBackN(s, |stream|, _ => true);
    SI.HeadStartsAtAcked(s, |stream|);
  }

  lemma HeadTimesOut(y: System, n: nat)
    requires FinIsOut(y, n) && y.snd.queue != []
    ensures var z := Next(y, Timeout(_ => true));
            && Inv(z) && SI.Good(z.snd, z.stream) && z.acks == y.acks && z.stream == y.stream && z.rcv == y.rcv
            && z.snd.buf == y.snd.buf && z.snd.herWindowZero == y.snd.herWindowZero
            && (if y.snd.queue[0].isFin then SI.FinRolledBack(z.snd) else z.snd.written == n && !z.snd.finSent)
  {
    hide Inv, SI.Good, SI.Sane, R.Inv, S.HandleTimeout, SI.FinRolledBack;
    InvIsRunnable(y);
    StepKeepsInv(y, Timeout(_ => true));
    HeadTimeout(y.snd, y.stream);
  }

  // ---------- the runs ----------

  /** A byte goes out although the peer has closed its window. */
  lemma ClosedWindowIsIgnored(y: System) returns (steps: seq<Step>)
    requires Initial(y) && |y.snd.buf| >= 2
    ensures IsRun(y, steps + [Write(BYTE)])
    ensures var w, z := Run(y, steps), Run(y, steps + [Write(BYTE)]);
            && w.snd.rcvWindow == 0 < w.snd.sent - w.snd.acked && Data(1, BYTE) !in w.wire
            && Data(1, BYTE) in z.wire
  {
    hide Enabled, Tame, Next, Inv, Initial, BytesOut;
    FreshConnection(y);
    assert [] + [Write(BYTE)] == [Write(BYTE)];
    EasyEvents(y);
    Then(y, [], Write(BYTE));
    BytesOutBounds(y, 0);
    WriteByte(y, 0);
    var y1 := Run(y, [Write(BYTE)]);
    steps := [Write(BYTE)] + [PeerData(0)];
    EasyEvents(y1);
    Then(y, [Write(BYTE)], PeerData(0));
    WindowReported(y1, 1, 0);
    var w := Run(y, steps);
    EasyEvents(w);
    Then(y, steps, Write(BYTE));
    BytesOutBounds(w, 1);
    WriteByte(w, 1);
  }

  lemma EasyEvents(y: System)
    ensures forall data :: Enabled(y, Write(data)) && Tame(y, Write(data))
    ensures forall window: nat :: window < TWO_31 ==> Enabled(y, PeerData(window)) && Tame(y, PeerData(window))
    ensures Enabled(y, Shut) && Tame(y, Shut) && Enabled(y, EmitAck(true)) && Tame(y, EmitAck(true))
    ensures Enabled(y, Timeout(_ => true)) && Tame(y, Timeout(_ => true))
    ensures forall g :: g in y.wire ==> Enabled(y, SegmentArrives(g)) && Tame(y, SegmentArrives(g))
  {
  }

  lemma BytesOutBounds(y: System, n: nat)
    requires BytesOut(y, n)
    ensures y.snd.sent == n && y.snd.acked == 0 && Data(n, BYTE) !in y.wire
  {
    hide SI.Good, R.Inv, R.Agrees, Intervals.Covers;
    if Data(n, BYTE) in y.wire {
      NothingPastTheStream(y, Data(n, BYTE));
    }
  }

  lemma NothingPastTheStream(y: System, g: Segment)
    requires Inv(y) && SI.Good(y.snd, y.stream) && g in y.wire && g.Data?
    ensures g.seqNum + |g.payload| <= |y.stream|
  {
    hide R.Inv, R.Agrees, Intervals.Covers, Accounted;
    SafetyOfInv(y);
  }

  /** A byte and the FIN go out. */
  lemma ByteAndFin(y: System) returns (steps: seq<Step>)
    requires Initial(y)
    ensures CanHappen(y, steps) && IsRun(y, steps)
    ensures var z := Run(y, steps);
            && FinIsOut(z, 1) && Data(0, BYTE) in z.wire && z.rcv == y.rcv && |z.snd.buf| == |y.snd.buf|
            && z.snd.queue == [S.Packet(0, 1, 0, false, false), S.Packet(1, 0, 1, false, true)] && !z.snd.herWindowZero
  {
    hide Enabled, Tame, Next, Inv, AllSent, FinIsOut;
    FreshConnection(y);
    assert [] + [Write(BYTE)] == [Write(BYTE)];
    EasyEvents(y);
    Then(y, [], Write(BYTE));
    WriteByte(y, 0);
    var y1 := Run(y, [Write(BYTE)]);
    EasyEvents(y1);
    steps := [Write(BYTE)] + [Shut];
    Then(y, [Write(BYTE)], Shut);
    CloseNow(y1, 1);
  }

  lemma RcvIs(y: System)
    requires Initial(y)
    ensures y.rcv == R.RecvState(y.rcv.buf, [], 0, 0, 0, false)
  {
  }

  lemma FinIsOutIs(y: System)
    requires FinIsOut(y, 1)
    ensures y.snd.acked == 0 && y.snd.written == 2 && |y.stream| == 1
  {
  }

  /** The byte and the FIN arrive, but the byte times out before the acknowledgement of the FIN comes back: it is for
      more than is written. Then bytes that were never written go out. */
  lemma AckBeyondWrittenHappens(y: System) returns (steps: seq<Step>)
    requires Initial(y) && |y.rcv.buf| > 0
    ensures IsRun(y, steps)
    ensures var z := Run(y, steps); 2 in z.acks && z.snd.written == 1 == |z.stream|
    ensures IsRun(y, steps + [AckArrives(2, 1)])
    ensures exists g :: g in Run(y, steps + [AckArrives(2, 1)]).wire && g.seqNum > 1
  {
    hide Enabled, Tame, Next, Inv, FinIsOut, S.HandleAck, SI.Good;
    var a := ByteAndFin(y);
    var y1 := Run(y, a);
    EasyEvents(y1);
    RcvIs(y);
    Then(y, a, SegmentArrives(Data(0, BYTE)));
    FirstArrives(y1, 1, BYTE);
    var b := a + [SegmentArrives(Data(0, BYTE))];
    var y2 := Run(y, b);
    FinInFlight(y2);
    EasyEvents(y2);
    Then(y, b, SegmentArrives(Fin(1)));
    FinArrives(y2);
    var c := b + [SegmentArrives(Fin(1))];
    var y3 := Run(y, c);
    EasyEvents(y3);
    Then(y, c, EmitAck(true));
    AckLeaves(y3, 1, 2);
    var d := c + [EmitAck(true)];
    var y4 := Run(y, d);
    EasyEvents(y4);
    Then(y, d, Timeout(_ => true));
    HeadTimesOut(y4, 1);
    FinIsOutIs(y4);
    steps := d + [Timeout(_ => true)];
    var z := Run(y, steps);
    AckCanArrive(z);
    Then(y, steps, AckArrives(2, 1));
    UnwrittenGoesOut(z);
  }

  lemma FinInFlight(y: System)
    requires FinIsOut(y, 1)
    ensures Fin(1) in y.wire
  {
  }

  lemma AckCanArrive(y: System)
    requires 2 in y.acks
    ensures Enabled(y, AckArrives(2, 1)) && Tame(y, AckArrives(2, 1))
  {
  }

  lemma UnwrittenGoesOut(y: System)
    requires Inv(y) && SI.Good(y.snd, y.stream) && 2 in y.acks && y.snd.written == 1 == |y.stream| && !y.snd.finSent
    requires !y.snd.herWindowZero
    ensures exists g :: g in Next(y, AckArrives(2, 1)).wire && g.seqNum > 1
  {
    hide Inv, Runnable, SI.Good, S.HandleAck;
    InvIsRunnable(y);
    AckBound(y, 2);
    SP.BeyondIsFinAck(y.snd, 2, y.stream);
    SP.FinAckAfterRollback(y.snd, 1, y.stream);
    var out := S.HandleAck(y.snd, 2, 1).1;
    assert out[0] in SetOf(out);
  }

  // ---------- the run that corrupts the stream ----------

  /** Nothing was ever written; the FIN was sent and timed out. */
  lemma RolledBackFinHappens(y: System) returns (steps: seq<Step>)
    requires Initial(y)
    ensures CanHappen(y, steps) && IsRun(y, steps)
    ensures var z := Run(y, steps);
            && Inv(z) && SI.Good(z.snd, []) && SI.FinRolledBack(z.snd) && z.stream == [] && z.delivered == []
            && z.rcv == y.rcv && z.snd.buf == y.snd.buf
  {
    hide Enabled, Tame, Next, Inv, AllSent, FinIsOut;
    FreshConnection(y);
    EasyEvents(y);
    Then(y, [], Shut);
    CloseNow(y, 0);
    var y1 := Run(y, [Shut]);
    assert [] + [Shut] == [Shut];
    EasyEvents(y1);
    steps := [Shut] + [Timeout(_ => true)];
    Then(y, [Shut], Timeout(_ => true));
    HeadTimesOut(y1, 0);
    NothingRead(y, Run(y, steps));
  }

  lemma NothingRead(y: System, z: System)
    requires Initial(y) && Inv(z) && z.rcv == y.rcv
    ensures z.delivered == []
  {
  }

  lemma {:induction false} LoopEnds(s: S.Sender, len: int)
    requires forall k :: 0 <= k < |s.queue| ==> s.queue[k].End() >= 0
    ensures forall k :: 0 <= k < |S.SendLoop(s, len).0.queue| ==> S.SendLoop(s, len).0.queue[k].End() >= 0
    decreases if len > 0 then len else 0
  {
    if S.KeepsSending(s, len) {
      LoopEnds(S.Queued(s, S.PacketSize(s, len)), len - S.PacketSize(s, len));
    }
  }

  /** After resuming in front of a rolled-back FIN the handlers are still defined. */
  lemma ResumedSender(s: S.Sender, n: nat)
    requires SI.Inv(s, n) && SI.FinRolledBack(s)
    ensures var t := S.ResumeAuth(s).0; SI.Sane(t) && forall k :: 0 <= k < |t.queue| ==> t.queue[k].End() >= 0
    ensures var t := S.ResumeRsp(s).0; SI.Sane(t) && forall k :: 0 <= k < |t.queue| ==> t.queue[k].End() >= 0
  {
    hide S.SendLoop, S.Sendable, S.Wire, SI.Phase, SI.Sum, SI.GoBackN;
    var r := S.SlowStart(s);
    SI.PacketsEnd(s, n);
    SP.SendLoopFrame(r, S.Sendable(r));
    LoopEnds(r, S.Sendable(r));
  }

  lemma StillRunnable(y: System, p: Step)
    requires Inv(y) && !Tame(y, p)
    ensures Runnable(Next(y, p))
  {
    hide R.Inv, S.ResumeAuth, S.ResumeRsp, SI.Good, SI.Sane, Inv;
    InvIsRunnable(y);
    FinRolledBackIsGood(y);
    ResumedSender(y.snd, |y.stream|);
  }

  /** Everything sent was acknowledged, so the receiver has it. */
  lemma PeerHasAll(y: System)
    requires Inv(y) && SI.FinRolledBack(y.snd) && y.snd.acked == |y.stream|
    ensures R.Inv(y.rcv) && R.Agrees(y.rcv, y.stream, false) && y.rcv.expected == |y.stream|
    ensures y.delivered == y.stream[..y.rcv.read]
  {
    hide R.Inv, SI.Good, Intervals.Covers, Accounted, Network;
    SS.CrossedHasNoFin(y.snd, |y.stream|);
  }

  /** Resuming in front of a rolled-back FIN, from any state a run can have reached: what was written is read, then
      the byte that went out in the FIN's place arrives and is read as well. */
  lemma CorruptingContinuation(y: System, p: Step) returns (steps: seq<Step>)
    requires Inv(y) && !Tame(y, p) && |y.rcv.buf| > 0
    ensures IsRun(Next(y, p), steps) && |y.snd.buf| > 0
    ensures var z := Run(Next(y, p), steps); z.stream == y.stream && z.delivered == y.stream + y.snd.buf[..1]
  {
    hide Inv, Next, Tame, Runnable, R.Inv;
    UntameResume(y, p);
    StillRunnable(y, p);
    UntameIs(y, p);
    PeerHasAll(y);
    var n, b := |y.stream|, y.snd.buf[..1];
    var y0 := Next(y, p);
    ReadsAll(y0);
    var y1 := Next(y0, Read(n, false));
    WrongByteArrives(y1, b);
    var y2 := Next(y1, SegmentArrives(Data(n, b)));
    WrongByteIsRead(y2);
    steps := [Read(n, false), SegmentArrives(Data(n, b)), Read(1, false)];
    ThreeSteps(y0, steps[0], steps[1], steps[2]);
  }

  lemma UntameIs(y: System, p: Step)
    requires !Tame(y, p)
    ensures SI.FinRolledBack(y.snd)
  {
  }

  lemma ThreeSteps(y: System, a: Step, b: Step, c: Step)
    requires Enabled(y, a) && Enabled(Next(y, a), b) && Enabled(Next(Next(y, a), b), c)
    requires Tame(y, a) && Tame(Next(y, a), b) && Tame(Next(Next(y, a), b), c)
    ensures IsRun(y, [a, b, c]) && Run(y, [a, b, c]) == Next(Next(Next(y, a), b), c)
  {
    hide Enabled, Tame, Next;
    assert [a, b, c][1..] == [b, c] && [b, c][1..] == [c] && [c][1..] == [];
    var z := Next(Next(y, a), b);
    assert IsRun(z, [c]) && Run(z, [c]) == Next(z, c);
    assert IsRun(Next(y, a), [b, c]) && Run(Next(y, a), [b, c]) == Next(z, c);
  }

  lemma ReadsAll(y: System)
    requires Runnable(y) && R.Agrees(y.rcv, y.stream, false) && y.rcv.expected == |y.stream|
    requires y.delivered == y.stream[..y.rcv.read]
    ensures var z, n := Next(y, Read(|y.stream|, false)), |y.stream|;
            && Runnable(z) && z.rcv == R.RecvState(z.rcv.buf, [], n, n, n, z.rcv.finRcvd) && |z.rcv.buf| == |y.rcv.buf|
            && z.delivered == y.stream && z == y.(rcv := z.rcv, delivered := z.delivered)
    ensures Enabled(y, Read(|y.stream|, false)) && Tame(y, Read(|y.stream|, false))
  {
    hide R.Recv, R.Inv, R.Agrees, SI.Sane;
    R.EverythingRead(y.rcv, y.stream);
  }

  lemma WrongByteArrives(y: System, b: seq<byte>)
    requires Runnable(y) && |b| == 1 && |y.rcv.buf| > 0 && Data(|y.stream|, b) in y.wire
    requires var n := |y.stream|; y.rcv == R.RecvState(y.rcv.buf, [], n, n, n, y.rcv.finRcvd)
    ensures var z, n := Next(y, SegmentArrives(Data(|y.stream|, b))), |y.stream|;
            && Runnable(z) && z.rcv.expected == n + 1 && z.rcv.read == n && |z.rcv.buf| > 0 && z.rcv.buf[0] == b[0]
            && z.stream == y.stream && z.delivered == y.delivered
    ensures Enabled(y, SegmentArrives(Data(|y.stream|, b))) && Tame(y, SegmentArrives(Data(|y.stream|, b)))
  {
    hide R.Accept;
    R.NextAccepted(y.rcv, |y.stream|, b);
  }

  lemma WrongByteIsRead(y: System)
    requires Runnable(y) && y.rcv.expected == y.rcv.read + 1 && |y.rcv.buf| > 0
    ensures var z := Next(y, Read(1, false)); z.delivered == y.delivered + [y.rcv.buf[0]] && z.stream == y.stream
    ensures Enabled(y, Read(1, false)) && Tame(y, Read(1, false))
  {
    assert y.rcv.buf[..1] == [y.rcv.buf[0]];
  }

  /** The exact condition for safety: in every state a run can have reached, an event that can happen is followed by
      nothing but runs that deliver a prefix of what was written if and only if it does not resume in front of a
      rolled-back FIN. */
  lemma SafeExactlyIfTame(y: System, p: Step)
    requires Inv(y) && Enabled(y, p) && |y.rcv.buf| > 0
    ensures Tame(y, p) <==>
            forall steps :: IsRun(Next(y, p), steps) ==> Run(Next(y, p), steps).delivered <= Run(Next(y, p), steps).stream
  {
    hide Inv, Next, Enabled, Tame;
    var y0 := Next(y, p);
    if Tame(y, p) {
      StepKeepsInv(y, p);
      forall steps | IsRun(y0, steps) ensures Run(y0, steps).delivered <= Run(y0, steps).stream {
        RunKeepsInv(y0, steps);
        SafetyOfInv(Run(y0, steps));
      }
    } else {
      var steps := CorruptingContinuation(y, p);
      assert |Run(y0, steps).delivered| > |Run(y0, steps).stream|;
    }
  }

  /** From every fresh connection with room to read, a run of ordinary events ends with a byte delivered that was
      never written: the FIN of an empty stream times out and the transfer is resumed. */
  lemma CorruptingRun(y: System) returns (steps: seq<Step>)
    requires Initial(y) && |y.rcv.buf| > 0
    ensures CanHappen(y, steps)
    ensures Run(y, steps).stream == [] && |Run(y, steps).delivered| == 1
  {
    hide Enabled, Tame, Next, Inv, SI.Good;
    var a := RolledBackFinHappens(y);
    var z := Run(y, a);
    ResumeIsUntame(z);
    Then(y, a, ResumeAuth);
    var b := CorruptingContinuation(z, ResumeAuth);
    RunCanHappen(Next(z, ResumeAuth), b);
    Joined(y, a + [ResumeAuth], b);
    steps := a + [ResumeAuth] + b;
  }

  lemma ResumeIsUntame(y: System)
    requires SI.FinRolledBack(y.snd)
    ensures Enabled(y, ResumeAuth) && !Tame(y, ResumeAuth)
  {
  }
}
