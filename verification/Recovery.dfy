/** Recoverability: whatever a run has led to, what was written can still be delivered, and the FIN behind it, by
    reads, acknowledgements, timeouts and segments alone.
 */
module Recovery {
  import opened DtpBase
  import opened Connection
  import Intervals
  import S = SendSpec
  import SI = SendInvariant
  import SP = SendProperties
  import SS = SendSafety
  import R = ReceiveSpec

  // ---------- the sender ----------

  /** With room for one byte, a sender that has something left to say and nothing in flight says it. */
  lemma SomethingInFlight(s: S.Sender, stream: seq<byte>)
    requires SI.Good(s, stream) && s.acked <= |stream| && s.rcvWindow == 1
    requires s.acked < |stream| || s.closeCalled
    ensures S.WriteAvail(s).0.queue != []
  {
    hide SI.Buffered, SI.Sum, S.MinUnsigned;
    SI.LoopAppends(s, S.Sendable(s));
    if s.queue == [] {
      SI.SendableIs(s);
      SI.EmptySum();
    }
  }

  /** Everything up to `e` is acknowledged, and what follows is in flight. */
  predicate Ready(s: S.Sender, e: nat) {
    s.acked == e && s.queue != []
  }

  /** How many acknowledgements it can take to get there: one reopens a window, and a fourth equal one finds nothing
      to repeat. */
  function Patience(s: S.Sender): nat {
    (if s.herWindowZero then 2 else 0) + if s.numAcks == 3 then 1 else 0
  }

  lemma AckSends(s: S.Sender, e: nat, stream: seq<byte>)
    requires SI.Good(s, stream) && s.acked <= e <= |stream| && (e < |stream| || s.closeCalled) && s.rcvWindow == 1
    ensures Ready(S.AckAndSend(s, e).0, e)
  {
    hide S.WriteAvail, SI.Good, S.RemovePackets, S.Shifted, S.MovedCwnd;
    AckInside(s, e, stream);
    SI.AcknowledgeKeeps(s, e, stream);
    SomethingInFlight(S.Acknowledge(s, e), stream);
    SP.WriteAvailFrame(S.Acknowledge(s, e));
  }

  lemma AckInside(s: S.Sender, e: nat, stream: seq<byte>)
    requires SI.Good(s, stream) && e <= |stream|
    ensures e <= s.written && SI.Sane(s)
  {
  }

  /** An acknowledgement for everything the receiver has, with room for one byte, gets nearer. */
  lemma AckGetsNearer(s: S.Sender, e: nat, stream: seq<byte>)
    requires SI.Good(s, stream) && s.acked <= e <= |stream| && (e < |stream| || s.closeCalled) && !Ready(s, e)
    ensures SI.Sane(s)
    ensures var t := S.HandleAck(s, e, 1).0;
            && SI.Good(t, stream) && t.acked <= e && t.closeCalled == s.closeCalled
            && (Ready(t, e) || Patience(t) < Patience(s))
  {
    hide S.WriteAvail, S.AckAndSend, SI.Buffered, SI.Right, SI.Sum, SI.DataTiles, SI.FinAt, SI.GoBackN;
    SI.HandleAckKeeps(s, e, 1, stream);
    var t := S.NoteWindow(s, 1);
    if s.herWindowZero {
      SI.WriteAvailKeeps(t.(herWindowZero := false), stream);
    } else {
      var u := S.CountAck(t, e);
      if !(e == s.acked && u.numAcks == 4) {
        AckSends(u, e, stream);
      }
    }
  }

  /** When the head times out, the next byte or the FIN goes out again. */
  lemma HeadGoesOut(s: S.Sender, stream: seq<byte>)
    requires SI.Good(s, stream) && s.queue != []
    ensures SI.Sane(s) && forall k :: 0 <= k < |s.queue| ==> s.queue[k].End() >= 0
    ensures var g, n := S.Wire(s, s.queue[0]), |stream|;
            && S.HandleTimeout(s, _ => true).1 == [g]
            && (if g.Data? then g.seqNum == s.acked < n && g.payload != [] else g.seqNum == s.acked == n)
  {
    hide SI.Sum, SI.GoBackN, S.TimeoutLoop;
    SI.TimeoutIsGoBackN(s, |stream|, _ => true);
    SI.HeadStartsAtAcked(s, |stream|);
    SI.HeadInBuffer(s, stream);
    SI.WireRight(s, 0, stream);
  }

  // ---------- runs without help ----------

  /** What happens by itself: the receiving application reads, the timer runs, and the network delivers. */
  predicate Plain(p: Step) {
    p.Read? || p.EmitAck? || p.AckArrives? || p.Timeout? || p.SegmentArrives?
  }

  ghost predicate Leads(y: System, steps: seq<Step>, z: System) {
    IsRun(y, steps) && Run(y, steps) == z && forall i :: 0 <= i < |steps| ==> Plain(steps[i])
  }

  lemma LeadsBy(y: System, p: Step)
    requires Enabled(y, p) && Plain(p)
    ensures Leads(y, [p], Next(y, p))
  {
    OneStep(y, p);
  }

  lemma LeadsOn(y: System, a: seq<Step>, z: System, b: seq<Step>, w: System)
    requires Leads(y, a, z) && Leads(z, b, w)
    ensures Leads(y, a + b, w)
  {
    Continued(y, a, b);
  }

  // ---------- one round ----------

  /** How much the receiver has not got: bytes of the stream, and the FIN. */
  function Missing(y: System): nat {
    Max(0, |y.stream| - y.rcv.expected) + if y.rcv.finRcvd then 0 else 1
  }

  /** The stream, its closing and the room to read are the same. */
  predicate SameTask(y: System, z: System) {
    z.stream == y.stream && z.snd.closeCalled == y.snd.closeCalled && |z.rcv.buf| == |y.rcv.buf|
  }

  /** The receiver has read all it has, and lacks something that was written or the FIN. */
  ghost predicate Pending(y: System) {
    && Inv(y) && SI.Good(y.snd, y.stream) && y.snd.acked <= y.rcv.expected <= |y.stream|
    && !y.rcv.finRcvd && y.rcv.read == y.rcv.expected && |y.rcv.buf| > 0
    && (y.rcv.expected < |y.stream| || y.snd.closeCalled)
  }

  lemma BecomesPending(y: System)
    requires Inv(y) && !y.rcv.finRcvd && y.rcv.read == y.rcv.expected && |y.rcv.buf| > 0
    requires y.rcv.expected < |y.stream| || y.snd.closeCalled
    ensures Pending(y)
  {
    hide R.Inv, R.Agrees, Intervals.Covers, Accounted, Network, SI.Good;
  }

  lemma AcksArrive(y: System) returns (steps: seq<Step>, z: System)
    requires Pending(y) && y.rcv.expected in y.acks
    ensures Leads(y, steps, z) && Pending(z) && SameTask(y, z) && z.rcv == y.rcv && Ready(z.snd, y.rcv.expected)
    decreases Patience(y.snd)
  {
    hide Inv, Next, SI.Good, Leads, Patience, S.HandleAck;
    var e := y.rcv.expected;
    if Ready(y.snd, e) {
      steps, z := [], y;
      LeadsNowhere(y);
    } else {
      var p := AckArrives(e, 1);
      var y1 := Next(y, p);
      LeadsBy(y, p);
      OneAckArrives(y);
      if Ready(y1.snd, e) {
        steps, z := [p], y1;
      } else {
        var rest;
        rest, z := AcksArrive(y1);
        LeadsOn(y, [p], y1, rest, z);
        steps := [p] + rest;
      }
    }
  }

  lemma LeadsNowhere(y: System)
    ensures Leads(y, [], y)
  {
  }

  lemma OneAckArrives(y: System)
    requires Pending(y) && y.rcv.expected in y.acks && !Ready(y.snd, y.rcv.expected)
    ensures var z := Next(y, AckArrives(y.rcv.expected, 1));
            && Pending(z) && SameTask(y, z) && z.rcv == y.rcv && z.acks == y.acks
            && (Ready(z.snd, y.rcv.expected) || Patience(z.snd) < Patience(y.snd))
  {
    hide Inv, Runnable, SI.Good, S.HandleAck, Patience, Ready, SI.Sane;
    InvIsRunnable(y);
    StepKeepsInv(y, AckArrives(y.rcv.expected, 1));
    AckGetsNearer(y.snd, y.rcv.expected, y.stream);
  }

  /** The head of the queue times out and arrives. */
  lemma HeadArrives(y: System) returns (steps: seq<Step>, z: System)
    requires Pending(y) && Ready(y.snd, y.rcv.expected)
    ensures Leads(y, steps, z) && Inv(z) && SameTask(y, z) && Missing(z) < Missing(y)
  {
    hide Inv, Next, SI.Good, Leads, S.Wire, Missing;
    var g := HeadRepeated(y);
    var p, q := Timeout(_ => true), SegmentArrives(g);
    LeadsBy(y, p);
    var y1 := Next(y, p);
    LeadsBy(y1, q);
    z := Next(y1, q);
    StepKeepsInv(y1, q);
    SegmentHelps(y1, g);
    LeadsOn(y, [p], y1, [q], z);
    steps := [p] + [q];
    SameMissing(y, y1);
  }

  lemma SameMissing(y: System, z: System)
    requires z.rcv.expected == y.rcv.expected && z.rcv.finRcvd == y.rcv.finRcvd && z.stream == y.stream
    ensures Missing(z) == Missing(y)
  {
  }

  lemma HeadRepeated(y: System) returns (g: Segment)
    requires Pending(y) && Ready(y.snd, y.rcv.expected)
    ensures var z := Next(y, Timeout(_ => true));
            Inv(z) && g in z.wire && z.rcv == y.rcv && z.stream == y.stream && z.snd.closeCalled == y.snd.closeCalled
    ensures if g.Data? then g.seqNum == y.rcv.expected < |y.stream| && g.payload != []
            else g.seqNum == y.rcv.expected == |y.stream|
  {
    hide Inv, Runnable, SI.Good, S.HandleTimeout, S.Wire;
    InvIsRunnable(y);
    StepKeepsInv(y, Timeout(_ => true));
    StepFrame(y, Timeout(_ => true));
    HeadGoesOut(y.snd, y.stream);
    g := S.Wire(y.snd, y.snd.queue[0]);
    var out := S.HandleTimeout(y.snd, _ => true).1;
    assert g == out[0] && g in SetOf(out);
  }

  lemma SegmentHelps(y: System, g: Segment)
    requires Inv(y) && Inv(Next(y, SegmentArrives(g))) && y.rcv.read == y.rcv.expected && !y.rcv.finRcvd && |y.rcv.buf| > 0
    requires if g.Data? then g.seqNum == y.rcv.expected < |y.stream| && g.payload != []
             else g.seqNum == y.rcv.expected == |y.stream|
    ensures var z := Next(y, SegmentArrives(g)); SameTask(y, z) && Missing(z) < Missing(y)
  {
    hide Inv, R.Accept, R.Inv, SI.Sane;
    InvIsRunnable(y);
    var z := Next(y, SegmentArrives(g));
    InsideStream(z);
    if g.Data? {
      R.MissingArrives(y.rcv, g.payload);
    }
  }

  /** From a state that lacks something to one that lacks less. */
  lemma Round(y: System) returns (steps: seq<Step>, z: System)
    requires Pending(y)
    ensures Leads(y, steps, z) && Inv(z) && SameTask(y, z) && Missing(z) < Missing(y)
  {
    hide Inv, Next, SI.Good, Leads, Missing;
    var p := EmitAck(false);
    var y1 := Next(y, p);
    LeadsBy(y, p);
    AckGoesOut(y);
    var a, y2 := AcksArrive(y1);
    LeadsOn(y, [p], y1, a, y2);
    var b;
    b, z := HeadArrives(y2);
    LeadsOn(y, [p] + a, y2, b, z);
    steps := [p] + a + b;
    SameMissing(y, y2);
  }

  lemma AckGoesOut(y: System)
    requires Pending(y)
    ensures var z := Next(y, EmitAck(false));
            Pending(z) && SameTask(y, z) && z.rcv == y.rcv && z.rcv.expected in z.acks
  {
    hide Inv, Runnable, SI.Good;
    InvIsRunnable(y);
    StepKeepsInv(y, EmitAck(false));
  }

  lemma ReadsWhatIsThere(y: System)
    requires Inv(y)
    ensures var z := Next(y, Read(|y.stream|, false));
            && Inv(z) && SameTask(y, z) && z.rcv.read == z.rcv.expected == y.rcv.expected
            && z.rcv.finRcvd == y.rcv.finRcvd && z.snd == y.snd && z.delivered == z.stream[..z.rcv.read]
  {
    hide Inv, Runnable, R.Recv, R.Inv;
    InvIsRunnable(y);
    var p := Read(|y.stream|, false);
    StepKeepsInv(y, p);
    InsideStream(y);
    ReceiverParts(y);
    R.RecvKeepsInv(y.rcv, |y.stream|, false);
    R.AmountRead(y.rcv, |y.stream|, false);
    ReceiverParts(Next(y, p));
  }

  lemma ReceiverParts(y: System)
    requires Inv(y)
    ensures R.Inv(y.rcv) && y.rcv.read <= |y.stream| && y.delivered == y.stream[..y.rcv.read]
  {
  }

  /** Whatever a run has led to, crossed cursors included: some continuation in which nothing is written, closed or
      resumed delivers the whole stream, and the FIN if the sender has closed. */
  lemma Recoverable(y: System) returns (steps: seq<Step>)
    requires Inv(y) && |y.rcv.buf| > 0
    ensures IsRun(y, steps) && forall i :: 0 <= i < |steps| ==> Plain(steps[i])
    ensures var z := Run(y, steps);
            z.stream == y.stream && z.delivered == y.stream && (y.snd.closeCalled ==> z.rcv.finRcvd)
    decreases Missing(y)
  {
    hide Inv, Next, Missing, Plain;
    var p := Read(|y.stream|, false);
    var y1 := Next(y, p);
    LeadsBy(y, p);
    ReadsWhatIsThere(y);
    InsideStream(y1);
    if y1.rcv.expected == |y1.stream| && (y1.snd.closeCalled ==> y1.rcv.finRcvd) {
      steps := [p];
    } else {
      FinMeansAll(y1);
      BecomesPending(y1);
      var a, y2 := Round(y1);
      SameMissing(y, y1);
      LeadsOn(y, [p], y1, a, y2);
      var b := Recoverable(y2);
      assert Leads(y2, b, Run(y2, b));
      LeadsOn(y, [p] + a, y2, b, Run(y2, b));
      steps := [p] + a + b;
    }
  }

  lemma FinMeansAll(y: System)
    requires Inv(y)
    ensures y.rcv.finRcvd ==> y.rcv.expected == |y.stream|
  {
  }

  /** Hence every run can be continued so. */
  lemma EveryRunCanFinish(y: System, steps: seq<Step>) returns (more: seq<Step>)
    requires Initial(y) && IsRun(y, steps) && |y.rcv.buf| > 0
    ensures IsRun(y, steps + more) && forall i :: 0 <= i < |more| ==> Plain(more[i])
    ensures var w, z := Run(y, steps), Run(y, steps + more);
            z.stream == w.stream && z.delivered == w.stream && (w.snd.closeCalled ==> z.rcv.finRcvd)
  {
    hide Inv, Next, Plain, Initial;
    InitialInv(y);
    RunKeepsInv(y, steps);
    BuffersFixed(y, steps);
    more := Recoverable(Run(y, steps));
    Continued(y, steps, more);
  }
}
