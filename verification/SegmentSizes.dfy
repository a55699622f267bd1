/** The size of packets in whole runs: nothing that is ever queued or sent, repeated or not, before the end of the
    stream or past it, has more payload than fits a packet behind the plain header.
 */
module SegmentSizes {
  import opened DtpBase
  import opened SendSpec
  import SI = SendInvariant
  import R = ReceiveSpec
  import opened Connection
  import SS = SendSafety

  predicate Small(q: seq<Packet>) {
    forall i :: 0 <= i < |q| ==> q[i].len <= 1452
  }

  predicate AllSmall(out: seq<Segment>) {
    forall i :: 0 <= i < |out| && out[i].Data? ==> |out[i].payload| <= 1452
  }

  /** A handler leaves small packets, and emits small segments. */
  predicate StaysSmall(t: Sender, out: seq<Segment>) {
    Small(t.queue) && AllSmall(out)
  }

  lemma WireSmall(s: Sender, p: Packet)
    requires p.len <= 1452
    ensures Wire(s, p).Data? ==> |Wire(s, p).payload| <= 1452
  {
  }

  lemma {:induction false} LoopSmall(s: Sender, len: int)
    requires Small(s.queue)
    ensures StaysSmall(SendLoop(s, len).0, SendLoop(s, len).1)
    decreases if len > 0 then len else 0
  {
    hide Wire;
    if KeepsSending(s, len) {
      var n := PacketSize(s, len);
      WireSmall(s, NewPacket(s, n));
      LoopSmall(Queued(s, n), len - n);
    }
  }

  lemma WriteAvailSmall(s: Sender)
    requires Small(s.queue)
    ensures StaysSmall(WriteAvail(s).0, WriteAvail(s).1)
  {
    hide SendLoop, Sendable;
    LoopSmall(s, Sendable(s));
  }

  /** Each packet starts no later than the one before it ends, and the first no later than `ack`. */
  predicate NoGap(q: seq<Packet>, ack: nat) {
    && (q != [] ==> q[0].seqNum <= ack)
    && (forall i :: 0 <= i < |q| - 1 ==> q[i + 1].seqNum <= q[i].End())
  }

  lemma {:induction false} RemoveSmall(q: seq<Packet>, ack: nat)
    requires Small(q) && NoGap(q, ack)
    ensures Small(RemovePackets(q, ack).0)
    decreases |q|
  {
    if q != [] && q[0].End() < ack {
      RemoveSmall(q[1..], ack);
    }
  }

  lemma {:induction false} TilesHaveNoGap(q: seq<Packet>, lo: int, hi: int, ack: nat)
    requires SI.DataTiles(q, lo, hi) && lo <= ack
    ensures NoGap(q, ack) && (q != [] ==> q[|q| - 1].End() == hi)
    decreases |q|
  {
    if q != [] {
      TilesHaveNoGap(q[1..], lo + q[0].len, hi, if ack < lo + q[0].len then lo + q[0].len else ack);
      assert forall i :: 0 < i < |q| - 1 ==> q[i + 1] == q[1..][i] && q[i] == q[1..][i - 1];
    }
  }

  lemma QueueHasNoGap(s: Sender, ack: nat, stream: seq<byte>)
    requires SS.Safe(s, stream) && s.acked <= ack
    ensures NoGap(s.queue, ack)
  {
    hide SI.Sum, SI.Buffered, SI.GoBackN;
    if s.finSent && s.queue != [] {
      var d := s.queue[..|s.queue| - 1];
      TilesHaveNoGap(d, s.acked, |stream|, ack);
      assert forall i :: 0 <= i < |d| ==> d[i] == s.queue[i];
    } else if !s.finSent {
      TilesHaveNoGap(s.queue, s.acked, s.sent, ack);
    }
  }

  lemma AckSmall(s: Sender, ack: nat, window: nat, stream: seq<byte>)
    requires SS.Safe(s, stream) && Small(s.queue)
    ensures SI.Sane(s)
    ensures StaysSmall(HandleAck(s, ack, window).0, HandleAck(s, ack, window).1)
  {
    hide WriteAvail, RemovePackets, Shifted, MovedCwnd, Wire, SS.Safe, Halved, AvoidanceCwnd, SI.Sane;
    SS.SafeIsSane(s, stream);
    SaneIs(s);
    var t := NoteWindow(s, window);
    var u := CountAck(t, ack);
    WriteAvailSmall(t.(herWindowZero := false));
    if s.acked <= ack {
      QueueHasNoGap(s, ack, stream);
      RemoveSmall(s.queue, ack);
      WriteAvailSmall(Acknowledge(u, ack));
      if s.queue != [] {
        WireSmall(u, u.queue[0]);
      }
    }
  }

  lemma {:induction false} TimeoutSmall(s: Sender, i: nat, due: Packet -> bool)
    requires Small(s.queue) && s.cwnd >= 0 && forall k :: 0 <= k < |s.queue| ==> s.queue[k].End() >= 0
    ensures StaysSmall(TimeoutLoop(s, i, due).0, TimeoutLoop(s, i, due).1)
    decreases |s.queue| - i
  {
    hide Wire, Dropped, Resent;
    if i < |s.queue| {
      SamePackets(s, i);
      if s.congested && !s.queue[i].isRetrans {
        TimeoutSmall(Dropped(s, i), i, due);
      } else if due(s.queue[i]) {
        WireSmall(s, s.queue[i]);
        TimeoutSmall(Resent(s, i), i + 1, due);
      }
    }
  }

  lemma SamePackets(s: Sender, i: nat)
    requires Small(s.queue) && s.cwnd >= 0 && i < |s.queue| && forall k :: 0 <= k < |s.queue| ==> s.queue[k].End() >= 0
    ensures var t := Dropped(s, i);
            && Small(t.queue) && t.cwnd >= 0 && |t.queue| == |s.queue| - 1
            && forall k :: 0 <= k < |t.queue| ==> t.queue[k].End() >= 0
    ensures var t := Resent(s, i);
            && Small(t.queue) && t.cwnd >= 0 && |t.queue| == |s.queue|
            && forall k :: 0 <= k < |t.queue| ==> t.queue[k].End() >= 0
  {
  }

  lemma ResumeSmall(s: Sender)
    requires Small(s.queue)
    ensures StaysSmall(SendSpec.ResumeAuth(s).0, SendSpec.ResumeAuth(s).1)
    ensures StaysSmall(SendSpec.ResumeRsp(s).0, SendSpec.ResumeRsp(s).1)
  {
    hide WriteAvail, Wire;
    WriteAvailSmall(SlowStart(s));
    var t := WriteAvail(SlowStart(s)).0;
    if t.queue != [] {
      WireSmall(t, t.queue[0]);
    }
  }

  lemma SendSmall(s: Sender, data: seq<byte>)
    requires Small(s.queue)
    ensures StaysSmall(Send(s, data).0, Send(s, data).1)
  {
    hide WriteAvail, Splice;
    var n := Min(|data|, |s.buf| - (s.written - s.acked));
    if data != [] && n > 0 && s.written - s.acked >= 0 {
      WriteAvailSmall(Appended(s, data[..n]));
    }
  }

  // ---------- runs ----------

  ghost predicate SmallSystem(y: System) {
    Small(y.snd.queue) && forall g :: g in y.wire && g.Data? ==> |g.payload| <= 1452
  }

  lemma EmittedSmall(y: System, o: Output)
    requires SmallSystem(y) && StaysSmall(o.0, o.1)
    ensures SmallSystem(Emitted(y, o))
  {
    hide Small;
  }

  lemma StepStaysSmall(y: System, p: Step)
    requires Inv(y) && SmallSystem(y)
    ensures SmallSystem(Next(y, p))
  {
    hide Inv, Small, HandleAck, TimeoutLoop, Send, WriteAvail, SendSpec.ResumeAuth, SendSpec.ResumeRsp, R.Recv, R.Accept,
      StaysSmall;
    InvIsRunnable(y);
    SafeOf(y);
    var s := y.snd;
    match p {
      case Write(data) =>
        SendSmall(s, data);
        EmittedSmall(y, (Send(s, data).0, Send(s, data).1));
      case Shut =>
        SameSmall(s, s.(closeCalled := true));
        WriteAvailSmall(s.(closeCalled := true));
        EmittedSmall(y, Close(s));
      case AckArrives(ack, window) =>
        AckSmall(s, ack, window, y.stream);
        EmittedSmall(y, HandleAck(s, ack, window));
      case Timeout(due) =>
        TimeoutSmall(s, 0, due);
        EmittedSmall(y, HandleTimeout(s, due));
      case ResumeAuth =>
        ResumeSmall(s);
        EmittedSmall(y, SendSpec.ResumeAuth(s));
      case ResumeRsp =>
        ResumeSmall(s);
        EmittedSmall(y, SendSpec.ResumeRsp(s));
      case PeerData(window) => SameSmall(s, NoteWindow(s, window));
      case _ =>
    }
  }

  lemma SameSmall(s: Sender, t: Sender)
    requires t.queue == s.queue
    ensures Small(t.queue) <==> Small(s.queue)
  {
  }

  lemma SafeOf(y: System)
    requires Inv(y)
    ensures SS.Safe(y.snd, y.stream)
  {
  }

  lemma {:induction false} RunStaysSmall(y: System, steps: seq<Step>)
    requires Inv(y) && SmallSystem(y) && IsRun(y, steps)
    ensures SmallSystem(Run(y, steps))
    decreases |steps|
  {
    hide Inv, Next, Enabled, Tame, SmallSystem;
    if steps != [] {
      StepKeepsInv(y, steps[0]);
      StepStaysSmall(y, steps[0]);
      RunStaysSmall(Next(y, steps[0]), steps[1..]);
    }
  }

  /** In every run no data segment on the wire, and no packet in the queue, has more than 1452 bytes of payload. */
  lemma PacketsFit(y: System, steps: seq<Step>)
    requires Initial(y) && IsRun(y, steps)
    ensures var z := Run(y, steps);
            && (forall g :: g in z.wire && g.Data? ==> |g.payload| <= 1452)
            && (forall i :: 0 <= i < |z.snd.queue| ==> z.snd.queue[i].len <= 1452)
  {
    hide Inv, IsRun, Run;
    InitialInv(y);
    RunStaysSmall(y, steps);
  }
}
