/** One direction of a D2TP connection: a sender, a receiver and a network that loses, duplicates and
    reorders, as a state machine over the handlers. Every handler is one atomic step. The receiving side
    does not close first.
 */
module Connection {
  import opened DtpBase
  import Intervals
  import S = SendSpec
  import SI = SendInvariant
  import SP = SendProperties
  import SS = SendSafety
  import R = ReceiveSpec

  /** `stream` is all dtp_send accepted, `delivered` all dtp_recv handed out, and `arrived` every position of
      a data packet that arrived while the read buffer had room for it. Whatever was ever sent stays in `wire` and
      `acks` and may arrive any number of times, in any order, or never. */
  datatype System = System(snd: S.Sender, rcv: R.RecvState,
                           stream: seq<byte>, delivered: seq<byte>, arrived: set<nat>,
                           wire: set<Segment>, acks: set<nat>, resumed: bool)

  datatype Step =
    | Write(data: seq<byte>)                 // dtp_send
    | Shut                                   // dtp_close on the sending side
    | Read(length: nat, peek: bool)          // dtp_recv
    | SegmentArrives(segment: Segment)       // HandleNormalPacket or HandleFINPacket
    | EmitAck(withFin: bool)                 // DTPSendACKPacket, or the field of a data packet
    | AckArrives(ack: nat, window: nat)      // HandleACKPacket
    | PeerData(window: nat)                  // the window field of data in the other direction
    | Timeout(due: S.Packet -> bool)         // HandleTimeout
    | ResumeAuth                             // HandleAUTHPacket after an address change
    | ResumeRsp                              // HandleRSPPacket after an address change

  /** What can happen: only what was sent can arrive. */
  ghost predicate Enabled(y: System, p: Step) {
    match p
    case SegmentArrives(g) => g in y.wire
    case AckArrives(ack, window) => ack in y.acks && window < TWO_31
    case PeerData(window) => window < TWO_31
    case _ => true
  }

  /** The one situation the original does not survive: an address change resumes the transfer while a FIN stands
      rolled back. */
  ghost predicate Tame(y: System, p: Step) {
    p.ResumeAuth? || p.ResumeRsp? ==> !SI.FinRolledBack(y.snd)
  }

  function SetOf(out: seq<Segment>): set<Segment> {
    set g | g in out
  }

  function Emitted(y: System, o: S.Output): System {
    y.(snd := o.0, wire := y.wire + SetOf(o.1))
  }

  /** The positions of a packet that the read buffer has room for. */
  ghost function Room(r: R.RecvState, at: nat, payload: seq<byte>): set<nat> {
    Intervals.Range(at, Min(r.Limit(), at + |payload|))
  }

  /** Where the handlers are defined at all; part of Inv, so no reachable state is outside. */
  ghost predicate Runnable(y: System) {
    SI.Sane(y.snd) && R.Inv(y.rcv) && forall i :: 0 <= i < |y.snd.queue| ==> y.snd.queue[i].End() >= 0
  }

  ghost function Next(y: System, p: Step): System {
    if !Runnable(y) then y
    else
      match p
      case Write(data) =>
        var (t, out, res) := S.Send(y.snd, data);
        Emitted(y, (t, out)).(stream := y.stream + if res.Accepted? && res.count <= |data| then data[..res.count] else [])
      case Shut => Emitted(y, S.Close(y.snd))
      case Read(length, peek) =>
        var (t, out) := R.Recv(y.rcv, length, peek);
        y.(rcv := t, delivered := y.delivered + if out.Bytes? && !peek then out.data else [])
      case SegmentArrives(Data(at, payload)) =>
        y.(rcv := R.Accept(y.rcv, at, payload).0, arrived := y.arrived + Room(y.rcv, at, payload))
      case SegmentArrives(Fin(at)) => y.(rcv := R.AcceptFin(y.rcv, at))
      case EmitAck(withFin) => y.(acks := y.acks + {if withFin then y.rcv.AckNumber() else y.rcv.expected})
      case AckArrives(ack, window) => Emitted(y, S.HandleAck(y.snd, ack, window))
      case PeerData(window) => y.(snd := S.NoteWindow(y.snd, window))
      case Timeout(due) => Emitted(y, S.HandleTimeout(y.snd, due))
      case ResumeAuth => Emitted(y, S.ResumeAuth(y.snd)).(resumed := true)
      case ResumeRsp => Emitted(y, S.ResumeRsp(y.snd)).(resumed := true)
  }

  // ---------- the invariant ----------

  /** The acknowledgement of a FIN that was taken back has been worked in. */
  predicate Wild(y: System) {
    SS.Crossed(y.snd, |y.stream|)
  }

  /** Sent bytes are accounted for, and the congestion window keeps its bounds if the buffers are large enough. */
  ghost predicate Accounted(y: System) {
    && 0 <= SI.Lag(y.snd) && (!y.resumed ==> SI.Lag(y.snd) == 0)
    && (|y.snd.buf| >= SP.MIN_WRITE_BUF && y.snd.readBufLen >= MAX_PAYLOAD ==> SP.CongestionOk(y.snd))
  }

  /** Whatever is in flight: segments tell the truth or are past the stream, and acknowledgements are for what the
      receiver has. */
  ghost predicate Network(y: System) {
    && (forall g :: g in y.wire ==> SS.Harmless(g, y.snd, y.stream))
    && (forall a :: a in y.acks ==> a <= y.rcv.AckNumber())
  }

  /** The receiver: list and cursors agree, the list covers exactly what arrived and was not read, with the right
      bytes, and what was read is the beginning of the stream. */
  ghost predicate Receiver(y: System) {
    && R.Inv(y.rcv) && R.Agrees(y.rcv, y.stream, Wild(y))
    && (forall q: nat :: Intervals.Covers(y.rcv.list, q) <==> q in y.arrived && y.rcv.read <= q)
    && y.rcv.read <= y.rcv.expected <= |y.stream| && y.delivered == y.stream[..y.rcv.read]
  }

  ghost predicate Inv(y: System) {
    && SS.Safe(y.snd, y.stream) && Accounted(y) && Network(y) && Receiver(y)
    && y.snd.acked <= y.rcv.AckNumber()
    && (y.rcv.finRcvd ==> SI.Ended(y.snd) && y.rcv.expected == |y.stream|)
  }

  lemma InvIsRunnable(y: System)
    requires Inv(y)
    ensures Runnable(y)
  {
    SS.SafeIsSane(y.snd, y.stream);
  }

  // ---------- steps of the sender ----------

  /** A sound step of the sender on an unchanged stream keeps the invariant of the system. */
  lemma SenderStep(y: System, o: S.Output, resumed: bool)
    requires Inv(y) && SS.Sound(y.snd, o.0, o.1, y.stream)
    requires o.0.acked <= y.rcv.AckNumber()
    requires if resumed then SI.Lag(o.0) >= 0 else SI.Lag(o.0) == SI.Lag(y.snd)
    requires |y.snd.buf| >= SP.MIN_WRITE_BUF && y.snd.readBufLen >= MAX_PAYLOAD && SP.CongestionOk(y.snd) ==> SP.CongestionOk(o.0)
    ensures Inv(Emitted(y, o).(resumed := y.resumed || resumed))
  {
    hide SI.Good, R.Inv, SI.Lag, SP.CongestionOk, SS.Crossed, SI.Right, Intervals.Covers;
    var z := Emitted(y, o).(resumed := y.resumed || resumed);
    forall g | g in z.wire ensures SS.Harmless(g, z.snd, y.stream) {
      if g in SetOf(o.1) {
        var i :| 0 <= i < |o.1| && o.1[i] == g;
      } else {
        StillHarmless(g, y.snd, o.0, y.stream);
      }
    }
    assert R.Agrees(z.rcv, z.stream, Wild(z));
  }

  lemma StillHarmless(g: Segment, s: S.Sender, t: S.Sender, stream: seq<byte>)
    requires SS.Harmless(g, s, stream) && (SI.Ended(s) ==> SI.Ended(t))
    requires SS.Crossed(s, |stream|) ==> SS.Crossed(t, |stream|)
    ensures SS.Harmless(g, t, stream)
  {
    hide SS.Crossed;
  }

  /** What the peer can have acknowledged. */
  lemma AckBound(y: System, ack: nat)
    requires Inv(y) && ack in y.acks
    ensures ack <= |y.stream| + if SI.Ended(y.snd) then 1 else 0
  {
    hide SI.Good, R.Inv, R.Agrees, SS.Safe, SS.Harmless, Accounted, Intervals.Covers;
  }

  lemma AckStep(y: System, ack: nat, window: nat)
    requires Inv(y) && Enabled(y, AckArrives(ack, window))
    ensures Inv(Next(y, AckArrives(ack, window)))
  {
    hide S.HandleAck, SI.Sane, SI.Lag, SS.Sound, SS.Safe, SS.Harmless, SP.CongestionOk, R.Inv, R.Agrees, Intervals.Covers;
    InvIsRunnable(y);
    AckBound(y, ack);
    SS.AckSound(y.snd, ack, window, y.stream);
    SaneIs(y.snd);
    var o := S.HandleAck(y.snd, ack, window);
    if |y.snd.buf| >= SP.MIN_WRITE_BUF && SP.CongestionOk(y.snd) {
      SP.AckKeepsCongestionOk(y.snd, ack, window);
    }
    SenderStep(y, o, false);
    assert Next(y, AckArrives(ack, window)) == Emitted(y, o).(resumed := y.resumed || false);
  }

  lemma SaneIs(s: S.Sender)
    requires SI.Sane(s)
    ensures s.cwnd > 0 && s.ssthresh > 0
  {
  }

  lemma TimeoutStep(y: System, due: S.Packet -> bool)
    requires Inv(y)
    ensures Inv(Next(y, Timeout(due)))
  {
    hide S.TimeoutLoop, SI.Lag, SS.Sound, SS.Safe, SS.Harmless, SP.CongestionOk, R.Inv, R.Agrees, Intervals.Covers;
    InvIsRunnable(y);
    SS.TimeoutSound(y.snd, due, y.stream);
    var o := S.HandleTimeout(y.snd, due);
    if SP.CongestionOk(y.snd) {
      SP.TimeoutKeepsCongestionOk(y.snd, 0, due);
    }
    SenderStep(y, o, false);
    assert Next(y, Timeout(due)) == Emitted(y, o).(resumed := y.resumed || false);
  }

  lemma ResumeStep(y: System, p: Step)
    requires Inv(y) && (p.ResumeAuth? || p.ResumeRsp?)
    ensures Inv(Next(y, p)) <==> Tame(y, p)
  {
    hide Inv, Next, Tame, SI.FinRolledBack;
    if Tame(y, p) {
      TameResume(y, p);
    } else {
      UntameResume(y, p);
    }
  }

  lemma TameResume(y: System, p: Step)
    requires Inv(y) && (p.ResumeAuth? || p.ResumeRsp?) && Tame(y, p)
    ensures Inv(Next(y, p))
  {
    hide S.ResumeAuth, S.ResumeRsp, SI.Lag, SS.Sound, SS.Safe, SS.Harmless, SP.CongestionOk, R.Inv, R.Agrees, Intervals.Covers;
    InvIsRunnable(y);
    SS.ResumeSound(y.snd, y.stream);
    var o := if p.ResumeAuth? then S.ResumeAuth(y.snd) else S.ResumeRsp(y.snd);
    if SP.CongestionOk(y.snd) && y.snd.readBufLen >= MAX_PAYLOAD {
      SP.ResumeKeepsCongestionOk(y.snd);
    }
    SenderStep(y, o, true);
    assert Next(y, p) == Emitted(y, o).(resumed := y.resumed || true);
  }

  /** The excluded step puts a data byte in the FIN's place on the wire. */
  lemma UntameResume(y: System, p: Step)
    requires Inv(y) && !Tame(y, p)
    ensures y.snd.acked == |y.stream| && |y.snd.buf| > 0
    ensures var z := Next(y, p);
            && Data(|y.stream|, y.snd.buf[..1]) in z.wire && !Inv(z)
            && z == y.(snd := z.snd, wire := z.wire, resumed := z.resumed)
  {
    hide S.WriteAvail, SI.Good, SI.Sane, R.Inv, R.Agrees, Intervals.Covers, S.ResumeRsp, SS.Harmless, Accounted;
    InvIsRunnable(y);
    FinRolledBackIsGood(y);
    SI.ResumeSendsFinAsData(y.snd, |y.stream|);
    var out := if p.ResumeAuth? then S.ResumeAuth(y.snd).1 else S.ResumeRsp(y.snd).1;
    var g, z := Data(|y.stream|, y.snd.buf[..1]), Next(y, p);
    assert y.snd.buf[..1] == y.snd.buf[0..1];
    assert g == out[0] && g in SetOf(out);
    SS.FinAsDataIsHarmful(g, z.snd, z.stream);
  }

  lemma FinRolledBackIsGood(y: System)
    requires Inv(y) && SI.FinRolledBack(y.snd)
    ensures SI.Inv(y.snd, |y.stream|) && SI.Good(y.snd, y.stream)
  {
  }

  lemma PeerDataStep(y: System, window: nat)
    requires Inv(y) && window < TWO_31
    ensures Inv(Next(y, PeerData(window)))
  {
    hide SI.Lag, SS.Sound, SS.Safe, SS.Harmless, R.Inv, R.Agrees, Intervals.Covers;
    InvIsRunnable(y);
    SS.NoteWindowSound(y.snd, window, y.stream);
    var o: S.Output := (S.NoteWindow(y.snd, window), []);
    SenderStep(y, o, false);
    assert SetOf([]) == {};
    assert y.wire + {} == y.wire;
    assert Next(y, PeerData(window)) == Emitted(y, o).(resumed := y.resumed || false);
  }

  lemma ShutStep(y: System)
    requires Inv(y)
    ensures Inv(Next(y, Shut))
  {
    hide S.WriteAvail, SI.Lag, SS.Sound, SS.Safe, SS.Harmless, SS.Crossed, SP.CongestionOk, R.Inv, R.Agrees, Intervals.Covers;
    InvIsRunnable(y);
    var u, o := y.snd.(closeCalled := true), S.Close(y.snd);
    SS.CloseSound(y.snd, y.stream);
    ClosingFlag(y);
    SP.WriteAvailFrame(u);
    SameWindow(u, o.0);
    SenderStep(y.(snd := u), o, false);
    assert Next(y, Shut) == Emitted(y.(snd := u), o).(resumed := y.resumed || false);
  }

  lemma SameWindow(s: S.Sender, t: S.Sender)
    requires t.cwnd == s.cwnd && t.ssthresh == s.ssthresh && |t.buf| == |s.buf|
    ensures SP.CongestionOk(t) <==> SP.CongestionOk(s)
  {
  }

  /** Setting the flag alone changes nothing that the invariant speaks of. */
  lemma ClosingFlag(y: System)
    requires Inv(y)
    ensures Inv(y.(snd := y.snd.(closeCalled := true)))
  {
    hide SI.Sum, SI.DataTiles, SI.Buffered, SI.Right, R.Inv, R.Agrees, Intervals.Covers;
    var z := y.(snd := y.snd.(closeCalled := true));
    SS.CloseSound(y.snd, y.stream);
    SameWindow(y.snd, z.snd);
    WildIs(y, z);
    forall g | g in z.wire ensures SS.Harmless(g, z.snd, z.stream) {
      StillHarmless(g, y.snd, z.snd, y.stream);
    }
  }

  lemma WildIs(y: System, z: System)
    requires Inv(y) && z == y.(snd := y.snd.(closeCalled := true))
    ensures Wild(z) <==> Wild(y)
  {
  }

  /** dtp_send extends the stream; what is on the wire and in the receiver stays true of it. Once a FIN was sent,
      dtp_send changes nothing. */
  lemma WriteStep(y: System, data: seq<byte>)
    requires Inv(y)
    ensures Inv(Next(y, Write(data)))
  {
    hide S.Send, Inv, Intervals.Covers;
    InvIsRunnable(y);
    if SI.Ended(y.snd) {
      EndedSend(y.snd, data);
      assert y.stream + [] == y.stream && data[..0] == [] && y.wire + SetOf([]) == y.wire;
      assert Next(y, Write(data)) == y;
    } else {
      OpenWriteStep(y, data);
    }
  }

  lemma EndedSend(s: S.Sender, data: seq<byte>)
    requires SI.Ended(s)
    ensures var (t, out, res) := S.Send(s, data); t == s && out == [] && (res.Accepted? ==> res.count == 0)
  {
  }

  lemma OpenWriteStep(y: System, data: seq<byte>)
    requires Inv(y) && !SI.Ended(y.snd)
    ensures Inv(Next(y, Write(data)))
  {
    hide S.Send, SI.Lag, SI.Right, SI.Good, SP.CongestionOk, R.Inv, R.Agrees, Intervals.Covers, SI.Sane;
    InvIsRunnable(y);
    SS.SendSound(y.snd, data, y.stream);
    var (t, out, res) := S.Send(y.snd, data);
    var more := data[..if res.Accepted? then res.count else 0];
    var z := Emitted(y, (t, out)).(stream := y.stream + more);
    assert Next(y, Write(data)) == z;
    SameWindow(y.snd, t);
    LongerStream(y, more);
    forall g | g in z.wire ensures SS.Harmless(g, t, z.stream) {
      if g in SetOf(out) {
        var i :| 0 <= i < |out| && out[i] == g;
      } else {
        RightAnyway(g, z.stream, SI.Ended(t));
      }
    }
    AgreesAnyway(z.rcv, z.stream, Wild(z));
  }

  lemma RightAnyway(g: Segment, stream: seq<byte>, ended: bool)
    requires SI.Right(g, stream, false)
    ensures SI.Right(g, stream, ended)
  {
  }

  lemma AgreesAnyway(r: R.RecvState, stream: seq<byte>, wild: bool)
    requires R.Agrees(r, stream, false)
    ensures R.Agrees(r, stream, wild)
  {
    hide Intervals.Covers;
  }

  lemma LongerStream(y: System, more: seq<byte>)
    requires Inv(y) && !SI.Ended(y.snd)
    ensures R.Agrees(y.rcv, y.stream + more, false)
    ensures forall g :: g in y.wire ==> SI.Right(g, y.stream + more, false)
    ensures y.delivered == (y.stream + more)[..y.rcv.read]
  {
    hide R.Inv, SI.Good, Intervals.Covers;
    assert !Wild(y);
    forall g | g in y.wire ensures SI.Right(g, y.stream + more, false) {
      assert SS.Harmless(g, y.snd, y.stream);
    }
  }

  // ---------- steps of the receiver ----------

  lemma ReadStep(y: System, length: nat, peek: bool)
    requires Inv(y)
    ensures Inv(Next(y, Read(length, peek)))
  {
    hide SI.Lag, SS.Safe, SS.Harmless, SS.Crossed, SP.CongestionOk, R.Inv, R.Agrees, Intervals.Covers, R.Recv, SI.Sane;
    InvIsRunnable(y);
    R.RecvKeepsInv(y.rcv, length, peek);
    R.RecvAgrees(y.rcv, length, peek, y.stream, Wild(y));
    var (t, out) := R.Recv(y.rcv, length, peek);
    R.RecvParts(t);
    var delivered := y.delivered + if out.Bytes? && !peek then out.data else [];
    assert delivered == y.stream[..t.read];
    forall q: nat ensures Intervals.Covers(t.list, q) <==> q in y.arrived && t.read <= q {
      R.RecvCovers(y.rcv, length, peek, q);
    }
  }

  /** The cursors after a packet arrived; one that lies past the stream does not move nextByteExpected. */
  lemma ExpectedAfter(y: System, at: nat, payload: seq<byte>)
    requires Inv(y) && Data(at, payload) in y.wire
    ensures var t := R.Accept(y.rcv, at, payload).0;
            && R.Inv(t) && R.Agrees(t, y.stream, Wild(y)) && t.read == y.rcv.read && t.finRcvd == y.rcv.finRcvd
            && y.rcv.expected <= t.expected <= |y.stream|
  {
    hide SI.Good, R.Inv, R.Agrees, Intervals.Covers, Accounted, R.Accept;
    var g, t := Data(at, payload), R.Accept(y.rcv, at, payload).0;
    assert SS.Harmless(g, y.snd, y.stream);
    R.AcceptKeepsInv(y.rcv, at, payload);
    R.AcceptAgrees(y.rcv, at, payload, y.stream, Wild(y));
    R.ExpectedIsFirstMissing(t);
    R.RecvParts(t);
    if t.expected > |y.stream| {
      R.ExpectedIsFirstMissing(y.rcv);
      R.AcceptCovers(y.rcv, at, payload, |y.stream|);
      assert Intervals.Covers(t.list, |y.stream|);
      StreamEndIsHole(y.rcv, y.stream, Wild(y));
    }
  }

  lemma StreamEndIsHole(r: R.RecvState, stream: seq<byte>, wild: bool)
    requires R.Agrees(r, stream, wild)
    ensures !Intervals.Covers(r.list, |stream|)
  {
    hide Intervals.Covers;
  }

  lemma DataStep(y: System, at: nat, payload: seq<byte>)
    requires Inv(y) && Data(at, payload) in y.wire
    ensures Inv(Next(y, SegmentArrives(Data(at, payload))))
  {
    hide SI.Good, R.Inv, R.Agrees, Intervals.Covers, SI.Lag, SP.CongestionOk, R.Accept, SI.Sane, SS.Harmless, SS.Crossed;
    InvIsRunnable(y);
    ExpectedAfter(y, at, payload);
    var t := R.Accept(y.rcv, at, payload).0;
    R.RecvParts(t);
    forall q: nat
      ensures Intervals.Covers(t.list, q) <==> q in y.arrived + Room(y.rcv, at, payload) && t.read <= q
    {
      R.AcceptCovers(y.rcv, at, payload, q);
      R.ExpectedIsFirstMissing(y.rcv);
    }
    assert t.finRcvd ==> t.expected == |y.stream|;
  }

  lemma FinStep(y: System, at: nat)
    requires Inv(y) && Fin(at) in y.wire
    ensures Inv(Next(y, SegmentArrives(Fin(at))))
  {
    hide SI.Good, R.Holds, Intervals.Covers, SI.Lag, SP.CongestionOk, SI.Sane;
    InvIsRunnable(y);
    assert SS.Harmless(Fin(at), y.snd, y.stream);
  }

  lemma EmitAckStep(y: System, withFin: bool)
    requires Inv(y)
    ensures Inv(Next(y, EmitAck(withFin)))
  {
    hide SI.Good, R.Inv, R.Agrees, Intervals.Covers, SI.Lag, SP.CongestionOk, SI.Sane, SS.Harmless, SS.Crossed;
  }

  // ---------- runs ----------

  /** A step that can happen keeps the invariant if and only if it does not resume in front of a rolled-back FIN. */
  lemma StepKeepsInv(y: System, p: Step)
    requires Inv(y) && Enabled(y, p)
    ensures Inv(Next(y, p)) <==> Tame(y, p)
  {
    hide Inv, Next;
    match p {
      case Write(data) => WriteStep(y, data);
      case Shut => ShutStep(y);
      case Read(length, peek) => ReadStep(y, length, peek);
      case SegmentArrives(Data(at, payload)) => DataStep(y, at, payload);
      case SegmentArrives(Fin(at)) => FinStep(y, at);
      case EmitAck(withFin) => EmitAckStep(y, withFin);
      case AckArrives(ack, window) => AckStep(y, ack, window);
      case PeerData(window) => PeerDataStep(y, window);
      case Timeout(due) => TimeoutStep(y, due);
      case ResumeAuth => ResumeStep(y, p);
      case ResumeRsp => ResumeStep(y, p);
    }
  }

  /** An established connection before any data: fresh buffers, slow start. */
  ghost predicate Initial(y: System) {
    && 0 < |y.snd.buf| < TWO_31 && 0 < y.snd.readBufLen < TWO_31
    && y.snd == S.Sender(y.snd.buf, 0, 0, 0, [], y.snd.readBufLen, false, MAX_PAYLOAD, y.snd.readBufLen, 0,
                         false, 0, S.Established, false, false, false, y.snd.readBufLen, y.snd.scaleOption)
    && y.rcv == R.RecvState(y.rcv.buf, [], 0, 0, 0, false)
    && y.stream == [] && y.delivered == [] && y.arrived == {} && y.wire == {} && y.acks == {} && !y.resumed
  }

  lemma InitialInv(y: System)
    requires Initial(y)
    ensures Inv(y)
  {
    assert SI.Good(y.snd, y.stream);
  }

  ghost function Run(y: System, steps: seq<Step>): System
    decreases |steps|
  {
    if steps == [] then y else Run(Next(y, steps[0]), steps[1..])
  }

  ghost predicate IsRun(y: System, steps: seq<Step>)
    decreases |steps|
  {
    steps == [] || (Enabled(y, steps[0]) && Tame(y, steps[0]) && IsRun(Next(y, steps[0]), steps[1..]))
  }

  lemma {:induction false} RunKeepsInv(y: System, steps: seq<Step>)
    requires Inv(y) && IsRun(y, steps)
    ensures Inv(Run(y, steps))
    decreases |steps|
  {
    hide Inv, Enabled, Tame, Next;
    if steps != [] {
      StepKeepsInv(y, steps[0]);
      RunKeepsInv(Next(y, steps[0]), steps[1..]);
    }
  }

  /** End-to-end safety. In every run, what dtp_recv handed out is a prefix of what dtp_send accepted; no byte
      leaves the write buffer before the receiver has it; every acknowledgement in flight is for something the
      receiver has, at most the stream and its FIN; and every data segment that starts within the stream carries
      the bytes its header names, as do all of them unless the cursors have crossed. */
  lemma EndToEndSafety(y: System, steps: seq<Step>)
    requires Initial(y) && IsRun(y, steps)
    ensures var z := Run(y, steps);
            && z.delivered <= z.stream
            && z.snd.acked <= z.rcv.AckNumber() <= |z.stream| + 1
            && (forall a :: a in z.acks ==> a <= z.rcv.AckNumber())
            && (forall g :: g in z.wire && g.Data? && (g.seqNum <= |z.stream| || z.snd.acked <= z.snd.written) ==>
                  g.seqNum + |g.payload| <= |z.stream| && g.payload == z.stream[g.seqNum..g.seqNum + |g.payload|])
  {
    InitialInv(y);
    RunKeepsInv(y, steps);
    SafetyOfInv(Run(y, steps));
  }

  lemma SafetyOfInv(z: System)
    requires Inv(z)
    ensures z.delivered <= z.stream && z.rcv.AckNumber() <= |z.stream| + 1
    ensures forall g :: g in z.wire && g.Data? && (g.seqNum <= |z.stream| || z.snd.acked <= z.snd.written) ==>
              g.seqNum + |g.payload| <= |z.stream| && g.payload == z.stream[g.seqNum..g.seqNum + |g.payload|]
  {
    hide SI.Good, R.Inv, R.Agrees, Intervals.Covers, Accounted;
    forall g | g in z.wire && g.Data? && (g.seqNum <= |z.stream| || z.snd.acked <= z.snd.written)
      ensures SI.Right(g, z.stream, SI.Ended(z.snd))
    {
      assert SS.Harmless(g, z.snd, z.stream);
    }
  }

  /** The send queue, in every run, as long as the cursors have not crossed. Before the FIN the queued packets
      tile [acked, sent) without gap or overlap; after it the FIN is the last packet and the data tiles up to it;
      only the head can have been sent again and while congested it is all there is; the buffer holds the stream
      from `acked` on. */
  lemma SendQueuePartition(y: System, steps: seq<Step>)
    requires Initial(y) && IsRun(y, steps)
    ensures var z := Run(y, steps);
            var s, n := z.snd, |z.stream|;
            s.acked <= s.written ==>
              && (!s.finSent ==> s.sent <= s.written == n && SI.DataTiles(s.queue, s.acked, s.sent))
              && (s.finSent && s.queue != [] ==>
                    SI.FinAt(s.queue, n) && SI.DataTiles(s.queue[..|s.queue| - 1], s.acked, n))
              && SI.GoBackN(s.queue, s.congested)
              && SI.Buffered(s.buf, s.acked, z.stream)
  {
    hide Inv, Run, IsRun, Initial, SI.DataTiles, SI.Buffered, SI.Sum;
    InitialInv(y);
    RunKeepsInv(y, steps);
    var z := Run(y, steps);
    if z.snd.acked <= z.snd.written {
      PartitionOfInv(z);
    }
  }

  lemma PartitionOfInv(z: System)
    requires Inv(z) && z.snd.acked <= z.snd.written
    ensures SI.Good(z.snd, z.stream)
  {
    hide SI.Good, R.Inv, R.Agrees, Intervals.Covers, Accounted, Network;
  }

  /** Reassembly, in every run: the list is normal and covers exactly the positions that arrived within the buffer
      and were not read yet; each holds its stream byte, if the stream reaches that far; nextByteExpected is the
      first missing position. */
  lemma ReassemblyInRuns(y: System, steps: seq<Step>)
    requires Initial(y) && IsRun(y, steps)
    ensures var z := Run(y, steps);
            && R.Inv(z.rcv)
            && (forall q: nat :: Intervals.Covers(z.rcv.list, q) <==> q in z.arrived && z.rcv.read <= q)
            && (forall q: nat :: Intervals.Covers(z.rcv.list, q) && q <= |z.stream| ==>
                  R.Holds(z.rcv.buf, z.rcv.read, z.stream, q))
            && (forall q: nat :: z.rcv.read <= q < z.rcv.expected ==> q in z.arrived) && z.rcv.expected !in z.arrived
  {
    hide SI.Good, SS.Crossed, Intervals.Covers, R.Holds, R.Inv, IsRun, Run, Initial;
    InitialInv(y);
    RunKeepsInv(y, steps);
    R.ExpectedIsFirstMissing(Run(y, steps).rcv);
  }

  /** FIN completeness. In every run all FINs ever sent carry the same number, the end of all data; when
      the peer enters CLOSE_WAIT it has every byte, and once it has read what it has, it has read the
      whole stream. */
  lemma FinCompleteness(y: System, steps: seq<Step>)
    requires Initial(y) && IsRun(y, steps)
    ensures var z := Run(y, steps);
            && (forall g :: g in z.wire && g.Fin? ==> g.seqNum == |z.stream| && SI.Ended(z.snd))
            && (z.rcv.finRcvd ==> SI.Ended(z.snd) && z.rcv.expected == |z.stream|)
            && (z.rcv.finRcvd && z.rcv.read == z.rcv.expected ==> z.delivered == z.stream)
            && (z.snd.state.FinWait2? ==> z.rcv.finRcvd)
  {
    InitialInv(y);
    RunKeepsInv(y, steps);
    FinOfInv(Run(y, steps));
  }

  lemma FinOfInv(z: System)
    requires Inv(z)
    ensures forall g :: g in z.wire && g.Fin? ==> g.seqNum == |z.stream| && SI.Ended(z.snd)
    ensures z.rcv.finRcvd && z.rcv.read == z.rcv.expected ==> z.delivered == z.stream
    ensures z.snd.state.FinWait2? ==> z.rcv.finRcvd
  {
    hide R.Inv, R.Agrees, Intervals.Covers, Accounted;
    forall g | g in z.wire && g.Fin? ensures g.seqNum == |z.stream| && SI.Ended(z.snd) {
      assert SS.Harmless(g, z.snd, z.stream);
    }
    assert z.snd.state.FinWait2? ==> z.snd.acked == |z.stream| + 1;
  }

  /** Every step can happen when its turn comes; nothing is excluded. */
  ghost predicate CanHappen(y: System, steps: seq<Step>)
    decreases |steps|
  {
    steps == [] || (Enabled(y, steps[0]) && CanHappen(Next(y, steps[0]), steps[1..]))
  }

  lemma {:induction false} RunCanHappen(y: System, steps: seq<Step>)
    requires IsRun(y, steps)
    ensures CanHappen(y, steps)
    decreases |steps|
  {
    hide Enabled, Tame, Next;
    if steps != [] {
      RunCanHappen(Next(y, steps[0]), steps[1..]);
    }
  }

  /** One more event. */
  lemma {:induction false} Then(y: System, steps: seq<Step>, p: Step)
    requires CanHappen(y, steps) && Enabled(Run(y, steps), p)
    ensures CanHappen(y, steps + [p]) && Run(y, steps + [p]) == Next(Run(y, steps), p)
    ensures IsRun(y, steps) && Tame(Run(y, steps), p) ==> IsRun(y, steps + [p])
    decreases |steps|
  {
    hide Enabled, Tame, Next;
    if steps == [] {
      assert [] + [p] == [p] && [p][1..] == [];
    } else {
      assert (steps + [p])[1..] == steps[1..] + [p];
      Then(Next(y, steps[0]), steps[1..], p);
    }
  }

  /** One run after another. */
  lemma {:induction false} Joined(y: System, a: seq<Step>, b: seq<Step>)
    requires CanHappen(y, a) && CanHappen(Run(y, a), b)
    ensures CanHappen(y, a + b) && Run(y, a + b) == Run(Run(y, a), b)
    ensures IsRun(y, a) && IsRun(Run(y, a), b) ==> IsRun(y, a + b)
    decreases |a|
  {
    hide Enabled, Tame, Next;
    if a == [] {
      assert a + b == b;
    } else {
      assert (a + b)[1..] == a[1..] + b;
      Joined(Next(y, a[0]), a[1..], b);
    }
  }

  lemma OneStep(y: System, p: Step)
    requires Enabled(y, p) && Tame(y, p)
    ensures IsRun(y, [p]) && Run(y, [p]) == Next(y, p) && CanHappen(y, [p])
  {
    hide Enabled, Tame, Next;
    assert [] + [p] == [p];
    Then(y, [], p);
  }

  lemma Continued(y: System, a: seq<Step>, b: seq<Step>)
    requires IsRun(y, a) && IsRun(Run(y, a), b)
    ensures IsRun(y, a + b) && Run(y, a + b) == Run(Run(y, a), b)
  {
    RunCanHappen(y, a);
    RunCanHappen(Run(y, a), b);
    Joined(y, a, b);
  }

  lemma InsideStream(y: System)
    requires Inv(y)
    ensures y.rcv.read <= y.rcv.expected <= |y.stream|
  {
  }

  /** Crossed cursors never uncross: from then on every state of every run has them, and the sender stays in
      FIN_WAIT_1 although its FIN was acknowledged. */
  lemma {:induction false} CrossedForever(y: System, steps: seq<Step>)
    requires Inv(y) && Wild(y) && IsRun(y, steps)
    ensures Wild(Run(y, steps)) && Run(y, steps).snd.state.FinWait1? && Run(y, steps).stream == y.stream
    decreases |steps|
  {
    hide Inv, Enabled, Tame, Next;
    if steps != [] {
      StepKeepsInv(y, steps[0]);
      StepStaysWild(y, steps[0]);
      CrossedForever(Next(y, steps[0]), steps[1..]);
    }
  }

  lemma StepStaysWild(y: System, p: Step)
    requires Inv(y) && Wild(y) && Enabled(y, p) && Tame(y, p)
    ensures Wild(Next(y, p)) && Next(y, p).stream == y.stream
  {
    hide SS.Safe, SI.Right, R.Agrees, R.Inv, Intervals.Covers, Accounted, S.HandleAck, S.HandleTimeout, S.Send, S.Close,
      S.ResumeAuth, S.ResumeRsp, SI.Lag, R.Recv, R.Accept;
    InvIsRunnable(y);
    match p {
      case Write(data) => EndedSend(y.snd, data);
      case Shut => SS.CloseSound(y.snd, y.stream);
      case AckArrives(ack, window) =>
        AckBound(y, ack);
        SS.AckSound(y.snd, ack, window, y.stream);
      case Timeout(due) => SS.TimeoutSound(y.snd, due, y.stream);
      case ResumeAuth => SS.ResumeSound(y.snd, y.stream);
      case ResumeRsp => SS.ResumeSound(y.snd, y.stream);
      case PeerData(window) => SS.NoteWindowSound(y.snd, window, y.stream);
      case _ =>
    }
  }

  /** Without address changes nothing has to be excluded: every sequence of events is a run. */
  lemma {:induction false} WithoutAddressChange(y: System, steps: seq<Step>)
    requires CanHappen(y, steps)
    requires forall i :: 0 <= i < |steps| ==> !steps[i].ResumeAuth? && !steps[i].ResumeRsp?
    ensures IsRun(y, steps)
    decreases |steps|
  {
    hide Enabled, Next;
    if steps != [] {
      WithoutAddressChange(Next(y, steps[0]), steps[1..]);
    }
  }

  /** Nor until dtp_close, with them. */
  lemma {:induction false} BeforeClose(y: System, steps: seq<Step>)
    requires Inv(y) && !y.snd.closeCalled && CanHappen(y, steps)
    requires forall i :: 0 <= i < |steps| ==> !steps[i].Shut?
    ensures IsRun(y, steps) && !Run(y, steps).snd.closeCalled
    decreases |steps|
  {
    hide Inv, Enabled, Tame, Next;
    if steps != [] {
      TameBeforeClose(y, steps[0]);
      StepKeepsInv(y, steps[0]);
      StepFrame(y, steps[0]);
      BeforeClose(Next(y, steps[0]), steps[1..]);
    }
  }

  lemma TameBeforeClose(y: System, p: Step)
    requires Inv(y) && !y.snd.closeCalled
    ensures Tame(y, p)
  {
  }

  /** What no step changes: the buffer sizes, and the closing flag but for dtp_close. */
  lemma StepFrame(y: System, p: Step)
    requires Inv(y) && Enabled(y, p) && Tame(y, p)
    ensures |Next(y, p).snd.buf| == |y.snd.buf| && Next(y, p).snd.readBufLen == y.snd.readBufLen
    ensures |Next(y, p).rcv.buf| == |y.rcv.buf|
    ensures p.Shut? || Next(y, p).snd.closeCalled == y.snd.closeCalled
  {
    hide SS.Safe, SI.Right, R.Agrees, R.Inv, Intervals.Covers, Accounted, S.HandleAck, S.HandleTimeout, S.Send, S.Close,
      S.ResumeAuth, S.ResumeRsp, SI.Lag, R.Recv, R.Accept;
    InvIsRunnable(y);
    match p {
      case Write(data) => SS.SendSound(y.snd, data, y.stream);
      case Shut => SS.CloseSound(y.snd, y.stream);
      case AckArrives(ack, window) =>
        AckBound(y, ack);
        SS.AckSound(y.snd, ack, window, y.stream);
      case Timeout(due) => SS.TimeoutSound(y.snd, due, y.stream);
      case ResumeAuth => SS.ResumeSound(y.snd, y.stream);
      case ResumeRsp => SS.ResumeSound(y.snd, y.stream);
      case Read(length, peek) => R.RecvKeepsInv(y.rcv, length, peek);
      case SegmentArrives(Data(at, payload)) => R.AcceptKeepsInv(y.rcv, at, payload);
      case _ =>
    }
  }

  /** Data-phase safety, with no assumption on the run: bytes come out as they went in and every
      acknowledgement in flight is at most what is written. */
  lemma DataPhaseSafety(y: System, steps: seq<Step>)
    requires Initial(y) && CanHappen(y, steps) && forall i :: 0 <= i < |steps| ==> !steps[i].Shut?
    ensures var z := Run(y, steps);
            z.delivered <= z.stream && forall a :: a in z.acks ==> a <= z.snd.written
  {
    InitialInv(y);
    BeforeClose(y, steps);
    RunKeepsInv(y, steps);
    DataPhaseOfInv(Run(y, steps));
  }

  lemma DataPhaseOfInv(z: System)
    requires Inv(z) && !z.snd.closeCalled
    ensures z.delivered <= z.stream && forall a :: a in z.acks ==> a <= z.snd.written
  {
    hide R.Inv, R.Agrees, Intervals.Covers, Accounted, SI.Right;
    SafetyOfInv(z);
  }

  /** The whole life of a connection without address change, with no assumption on the run: prefix safety and FIN
      completeness. */
  lemma WithoutAddressChangeSafety(y: System, steps: seq<Step>)
    requires Initial(y) && CanHappen(y, steps)
    requires forall i :: 0 <= i < |steps| ==> !steps[i].ResumeAuth? && !steps[i].ResumeRsp?
    ensures var z := Run(y, steps);
            && z.delivered <= z.stream
            && (forall g :: g in z.wire && g.Fin? ==> g.seqNum == |z.stream|)
            && (z.rcv.finRcvd ==> z.rcv.expected == |z.stream|)
  {
    WithoutAddressChange(y, steps);
    EndToEndSafety(y, steps);
    FinCompleteness(y, steps);
  }

  /** An acknowledgement in flight is beyond what is written exactly if it acknowledges a FIN that stands taken
      back at the moment. */
  lemma AckBeyondWrittenExactly(y: System, ack: nat)
    requires Inv(y) && ack in y.acks
    ensures ack > y.snd.written <==> ack == |y.stream| + 1 && y.rcv.finRcvd && !y.snd.finSent
  {
    hide R.Inv, R.Agrees, Intervals.Covers, Accounted, SI.Right, SI.DataTiles;
  }

  /** Accounting, in every run and for every buffer size: the count of sent bytes is at most the payload in the
      queue, and equal to it without address change. */
  lemma SentBytesAreQueued(y: System, steps: seq<Step>)
    requires Initial(y) && IsRun(y, steps)
    ensures var z := Run(y, steps);
            z.snd.segSent <= SI.Sum(z.snd.queue) && (!z.resumed ==> z.snd.segSent == SI.Sum(z.snd.queue))
  {
    InitialInv(y);
    RunKeepsInv(y, steps);
  }

  /** With a large enough write buffer the congestion window stays between one packet and that buffer. */
  lemma WindowBounds(y: System, steps: seq<Step>)
    requires Initial(y) && IsRun(y, steps)
    requires |y.snd.buf| >= SP.MIN_WRITE_BUF && y.snd.readBufLen >= MAX_PAYLOAD
    ensures SP.CongestionOk(Run(y, steps).snd)
  {
    InitialInv(y);
    RunKeepsInv(y, steps);
    BuffersFixed(y, steps);
  }

  lemma {:induction false} BuffersFixed(y: System, steps: seq<Step>)
    requires Inv(y) && IsRun(y, steps)
    ensures |Run(y, steps).snd.buf| == |y.snd.buf| && Run(y, steps).snd.readBufLen == y.snd.readBufLen
    ensures |Run(y, steps).rcv.buf| == |y.rcv.buf|
    decreases |steps|
  {
    hide Inv, Enabled, Tame, Next;
    if steps != [] {
      StepKeepsInv(y, steps[0]);
      StepFrame(y, steps[0]);
      BuffersFixed(Next(y, steps[0]), steps[1..]);
    }
  }

  /** No stall: wherever a run has led, an uncongested sender without a FIN, with nothing in flight, something
      to send and an open window sends. */
  lemma NeverStalls(y: System, steps: seq<Step>)
    requires Initial(y) && IsRun(y, steps)
    requires |y.snd.buf| >= SP.MIN_WRITE_BUF && y.snd.readBufLen >= MAX_PAYLOAD
    ensures var s := Run(y, steps).snd;
            !s.finSent && !s.congested && s.queue == [] && s.sent < s.written && s.rcvWindow > 0 ==>
              S.WriteAvail(s).1 != []
  {
    InitialInv(y);
    RunKeepsInv(y, steps);
    WindowBounds(y, steps);
    var z := Run(y, steps);
    if !z.snd.finSent && !z.snd.congested && z.snd.queue == [] && z.snd.sent < z.snd.written && z.snd.rcvWindow > 0 {
      SP.NoStall(z.snd, z.stream);
    }
  }
}
