/** Whole runs of a connection whose sending side closes second: they are runs of a first closer as long as every FIN is
    sent in place.
 */
module SecondCloseRuns {
  import opened DtpBase
  import opened SecondClose
  import opened Connection
  import S = SendSpec
  import SI = SendInvariant
  import SP = SendProperties
  import R = ReceiveSpec

  /** The same connection, had the receiving side not closed. */
  function Twin(y: System): System {
    y.(snd := AsFirst(y.snd))
  }

  /** The sending side is closing second, or has. */
  predicate ClosesSecond(y: System) {
    Second(y.snd) || (y.snd.finRcvd && y.snd.state.Closed?)
  }

  predicate OfReceiver(p: Step) {
    p.Read? || p.EmitAck? || p.SegmentArrives?
  }

  /** What can happen until the FIN arrives at the other side; a closed context does nothing any more. */
  ghost predicate CanStep(y: System, p: Step) {
    && Enabled(y, p) && Tame(y, p) && !(p.SegmentArrives? && p.segment.Fin?)
    && (y.snd.state.Closed? ==> OfReceiver(p))
  }

  /** FINs are in place where the step calls DTPWriteAvail. */
  ghost predicate InPlace(y: System, p: Step) {
    match p
    case Shut => FinInPlace(y.snd.(closeCalled := true))
    case AckArrives(ack, window) => SI.Sane(y.snd) ==> AckInPlace(y.snd, ack, window)
    case ResumeAuth => FinInPlace(S.SlowStart(y.snd))
    case ResumeRsp => FinInPlace(S.SlowStart(y.snd))
    case _ => true
  }

  lemma TwinRunnable(y: System)
    requires Inv(Twin(y))
    ensures Runnable(Twin(y)) && Runnable(y)
  {
    hide Inv;
    InvIsRunnable(Twin(y));
  }

  /** A step with FINs in place is the step of a first closer; dtp_send does nothing. */
  lemma TwinStep(y: System, p: Step)
    requires Runnable(y) && Runnable(Twin(y)) && ClosesSecond(y) && CanStep(y, p) && InPlace(y, p)
    ensures ClosesSecond(Next(y, p))
    ensures Twin(Next(y, p)) == if p.Write? then Twin(y) else Next(Twin(y), p)
  {
    hide S.HandleAck, S.WriteAvail, S.TimeoutLoop, S.ResumeAuth, S.ResumeRsp, R.Recv, R.Accept, R.Inv, FinInPlace, AckInPlace;
    match p {
      case Write(data) => Refused(y, data);
      case Shut =>
        var u := y.snd.(closeCalled := true);
        LikeFirst(u);
        assert AsFirst(u) == AsFirst(y.snd).(closeCalled := true);
      case AckArrives(ack, window) => AckAsFirst(y.snd, ack, window);
      case Timeout(due) => TimeoutAsFirst(y.snd, 0, due);
      case ResumeAuth => ResumeAsFirst(y.snd);
      case ResumeRsp => ResumeAsFirst(y.snd);
      case _ =>
    }
  }

  lemma Refused(y: System, data: seq<byte>)
    requires Second(y.snd)
    ensures Next(y, Write(data)) == y
  {
    hide Runnable;
    assert data[..0] == [] && y.stream + [] == y.stream && SetOf([]) == {} && y.wire + {} == y.wire;
  }

  /** A step without FINs in place puts a FIN on the wire that does not name the end of the stream. */
  lemma WrongFin(y: System, p: Step) returns (at: nat)
    requires Runnable(y) && ClosesSecond(y) && CanStep(y, p) && !InPlace(y, p)
    requires !y.snd.finSent ==> y.snd.written == |y.stream|
    ensures Fin(at) in Next(y, p).wire && at != |y.stream| && Next(y, p).stream == y.stream
  {
    hide S.HandleAck, S.WriteAvail, S.ResumeAuth, S.ResumeRsp, S.Sendable, R.Inv, AckInPlace;
    var out: seq<Segment>;
    match p {
      case Shut =>
        FinGoesOut(y.snd.(closeCalled := true));
        out := S.Close(y.snd).1;
        at := out[|out| - 1].seqNum;
      case AckArrives(ack, window) =>
        AckOutOfPlace(y.snd, ack, window);
        out := S.HandleAck(y.snd, ack, window).1;
        at := out[|out| - 1].seqNum;
      case ResumeAuth =>
        ResumeOutOfPlace(y.snd);
        out := S.ResumeAuth(y.snd).1;
        at := S.SlowStart(y.snd).sent + Max(0, S.Sendable(S.SlowStart(y.snd)));
      case ResumeRsp =>
        ResumeOutOfPlace(y.snd);
        out := S.ResumeRsp(y.snd).1;
        at := S.SlowStart(y.snd).sent + Max(0, S.Sendable(S.SlowStart(y.snd)));
    }
    assert Fin(at) in SetOf(out);
  }

  lemma WrittenIsAll(y: System)
    requires Inv(Twin(y))
    ensures !y.snd.finSent ==> y.snd.written == |y.stream|
  {
    hide R.Inv, R.Agrees, Network, Accounted;
  }

  /** A step of the second closer keeps the invariant, that of a first closer, if and only if FINs are in place. */
  lemma SecondStepExactly(y: System, p: Step)
    requires Inv(Twin(y)) && ClosesSecond(y) && CanStep(y, p)
    ensures Inv(Twin(Next(y, p))) <==> InPlace(y, p)
    ensures InPlace(y, p) ==> ClosesSecond(Next(y, p))
  {
    hide Inv, Next, InPlace, ClosesSecond, Runnable;
    TwinRunnable(y);
    if InPlace(y, p) {
      TwinStep(y, p);
      TwinCanStep(y, p);
      StepKeepsInv(Twin(y), p);
    } else {
      WrittenIsAll(y);
      var at := WrongFin(y, p);
      var z := Twin(Next(y, p));
      assert Fin(at) in z.wire;
      if Inv(z) {
        FinOfInv(z);
      }
    }
  }

  lemma TwinCanStep(y: System, p: Step)
    requires CanStep(y, p)
    ensures Enabled(Twin(y), p) && Tame(Twin(y), p)
  {
  }

  // ---------- runs ----------

  /** A run in which every FIN is sent in place, up to the arrival of one. */
  ghost predicate IsSecondRun(y: System, steps: seq<Step>)
    decreases |steps|
  {
    steps == [] || (CanStep(y, steps[0]) && InPlace(y, steps[0]) && IsSecondRun(Next(y, steps[0]), steps[1..]))
  }

  lemma {:induction false} SecondRunKeepsInv(y: System, steps: seq<Step>)
    requires Inv(Twin(y)) && ClosesSecond(y) && IsSecondRun(y, steps)
    ensures Inv(Twin(Run(y, steps)))
    decreases |steps|
  {
    hide Inv, Next, InPlace, ClosesSecond, CanStep;
    if steps != [] {
      SecondStepExactly(y, steps[0]);
      SecondRunKeepsInv(Next(y, steps[0]), steps[1..]);
    }
  }

  /** The whole life of a side that closes second. After any run of the data phase the peer closes; as long as FINs
      are in place, what is delivered is a prefix of what was written and every FIN names its end; and when one
      arrives at the first closer, that side, which takes it, has every byte if and only if it expected that number. */
  lemma SecondCloserSafety(y: System, before: seq<Step>, after: seq<Step>)
    requires Initial(y) && IsRun(y, before) && !SI.Ended(Run(y, before).snd)
    requires var w := Run(y, before); IsSecondRun(w.(snd := S.PeerCloses(w.snd)), after)
    ensures var w := Run(y, before);
            var z := Run(w.(snd := S.PeerCloses(w.snd)), after);
            && z.delivered <= z.stream
            && (forall g :: g in z.wire && g.Fin? ==> g.seqNum == |z.stream|)
            && (forall at, a: S.Sender, ack :: Fin(at) in z.wire && FinWaiting(a) && NearWritten(a, ack) ==>
                  var r := FinTaken(z.rcv, a, at, ack);
                  r.finRcvd && (r.expected == |z.stream| <==> at == z.rcv.expected))
  {
    hide Inv, Next, InPlace, CanStep, Initial, IsRun, IsSecondRun, Run;
    InitialInv(y);
    RunKeepsInv(y, before);
    var w := Run(y, before);
    PeerClosesSystem(w);
    var y1 := w.(snd := S.PeerCloses(w.snd));
    SecondRunKeepsInv(y1, after);
    var z := Run(y1, after);
    SafetyOfInv(Twin(z));
    FinOfInv(Twin(z));
    assert Twin(z).wire == z.wire;
  }

  lemma PeerClosesSystem(w: System)
    requires Inv(w) && !SI.Ended(w.snd)
    ensures var y := w.(snd := S.PeerCloses(w.snd)); Twin(y) == w && ClosesSecond(y)
  {
    hide R.Inv, R.Agrees, Network, Accounted, SI.Buffered, SI.Phase;
  }

  // ---------- the rest is lost ----------

  /** Of two bytes one fits the peer's window; once the peer has closed, the FIN follows it at once. */
  lemma FinAfterFirst(s: S.Sender, x: byte)
    requires s.acked == s.sent == 0 && s.written == 2 && s.rcvWindow == 1 && s.cwnd == MAX_PAYLOAD && s.segSent == 0
    requires !s.congested && !s.closeCalled && !s.finSent && s.state.Established? && |s.buf| >= 2 && s.buf[0] == x
    ensures S.WriteAvail(s) == (S.Queued(s, 1), [Data(0, [x])])
    ensures S.Close(S.PeerCloses(S.Queued(s, 1))) == S.SendFin(S.PeerCloses(S.Queued(s, 1)).(closeCalled := true))
  {
    var t := S.Queued(s, 1);
    assert S.Sendable(s) == 1 && S.SendLoop(t, 0) == (t, []);
    assert s.buf[0..1] == [x];
    assert [Data(0, [x])] + [] == [Data(0, [x])];
    var u := S.PeerCloses(t).(closeCalled := true);
    assert S.Sendable(u) == 0 && S.SendLoop(u, 0) == (u, []);
    assert [] + [Fin(1)] == [Fin(1)];
  }

  /** Two bytes are written while the peer has room for one. */
  lemma TwoBytesWritten(y: System, x: byte, z: byte)
    requires Initial(y) && |y.snd.buf| >= 2
    ensures var w := Next(Next(y, PeerData(1)), Write([x, z]));
            && w.stream == [x, z] && Data(0, [x]) in w.wire && w.rcv == y.rcv
            && w.snd == S.Queued(S.Appended(S.NoteWindow(y.snd, 1), [x, z]), 1)
  {
    hide S.WriteAvail;
    var s := S.NoteWindow(y.snd, 1);
    assert [x, z][..2] == [x, z] && [] + [x, z] == [x, z];
    FinAfterFirst(S.Appended(s, [x, z]), x);
    assert Data(0, [x]) in SetOf([Data(0, [x])]);
  }

  /** The peer has closed; the own close sends a FIN in place of the second byte, with the number the peer expects. */
  lemma ClosesInBetween(y: System, w: System, x: byte)
    requires Initial(y) && |y.snd.buf| >= 2 == |w.stream| && w.stream[0] == x && w.rcv == y.rcv && |y.rcv.buf| > 0
    requires w.snd == S.Queued(S.Appended(S.NoteWindow(y.snd, 1), w.stream), 1)
    ensures var v := Next(w.(snd := S.PeerCloses(w.snd)), Shut);
            && Runnable(v) && Fin(1) in v.wire && w.wire <= v.wire && v.rcv == y.rcv && v.stream == w.stream
  {
    hide S.WriteAvail;
    FinAfterFirst(S.Appended(S.NoteWindow(y.snd, 1), w.stream), x);
    var out := S.Close(S.PeerCloses(w.snd)).1;
    assert Fin(1) == out[0] && Fin(1) in SetOf(out);
  }

  lemma TakenForAll(y: System, v: System, x: byte)
    requires Initial(y) && Runnable(v) && v.rcv == y.rcv && |y.rcv.buf| > 0
    ensures var u := Next(Next(v, SegmentArrives(Data(0, [x]))), SegmentArrives(Fin(1)));
            u.rcv.finRcvd && u.rcv.expected == 1 && u.stream == v.stream
  {
    hide R.Accept;
    R.NextAccepted(v.rcv, 0, [x]);
  }

  /** From every fresh connection: two bytes are written, and a run delivers a FIN behind the first one, to a receiver
      that checks its number. */
  lemma SecondByteIsLost(y: System, x: byte, z: byte)
    requires Initial(y) && |y.snd.buf| >= 2 && |y.rcv.buf| > 0
    ensures var w := Run(y, [PeerData(1), Write([x, z])]);
            var p, q := SegmentArrives(Data(0, [x])), SegmentArrives(Fin(1));
            var v := w.(snd := S.PeerCloses(w.snd));
            && IsRun(y, [PeerData(1), Write([x, z])]) && w.stream == [x, z]
            && CanHappen(v, [Shut, p, q])
            && var u := Run(v, [Shut, p, q]); u.rcv.finRcvd && u.rcv.expected == 1 && u.stream == [x, z]
  {
    hide Initial, Runnable, Next, S.WriteAvail;
    TwoBytesWritten(y, x, z);
    TwoSteps(y, PeerData(1), Write([x, z]));
    var w := Run(y, [PeerData(1), Write([x, z])]);
    ClosesInBetween(y, w, x);
    var v := w.(snd := S.PeerCloses(w.snd));
    var v1 := Next(v, Shut);
    TakenForAll(y, v1, x);
    SameWire(v1, Data(0, [x]));
    var p, q := SegmentArrives(Data(0, [x])), SegmentArrives(Fin(1));
    TwoSteps(v1, p, q);
    assert [Shut, p, q][1..] == [p, q];
  }

  lemma SameWire(y: System, g: Segment)
    ensures Next(y, SegmentArrives(g)).wire == y.wire
  {
  }

  lemma TwoSteps(y: System, a: Step, b: Step)
    requires Enabled(y, a) && Enabled(Next(y, a), b)
    ensures CanHappen(y, [a, b]) && Run(y, [a, b]) == Next(Next(y, a), b)
    ensures Tame(y, a) && Tame(Next(y, a), b) ==> IsRun(y, [a, b])
  {
    hide Enabled, Tame, Next;
    assert [] + [a] == [a] && [a] + [b] == [a, b];
    Then(y, [], a);
    Then(y, [a], b);
  }
}
