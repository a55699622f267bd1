/** What every handler of the sending half keeps: the queue tiles the bytes in flight, the buffer
    holds the unacknowledged bytes, go-back-N discipline, window accounting, and the place of the FIN.
 */
module SendInvariant {
  import opened DtpBase
  import opened SendSpec

  // ---------- the queue ----------

  /** Data packets that follow one another without gap or overlap from `lo` to `hi`, each with its own
      number in its header. */
  predicate DataTiles(q: seq<Packet>, lo: int, hi: int) {
    if q == [] then lo == hi
    else
      && q[0].seqNum == lo && q[0].hdrSeq == lo && q[0].len > 0 && !q[0].isFin
      && DataTiles(q[1..], lo + q[0].len, hi)
  }

  /** Payload bytes in the queue. */
  function Sum(q: seq<Packet>): int {
    if q == [] then 0 else q[0].len + Sum(q[1..])
  }

  /** Only the head can have been sent again; while congested it is all there is. */
  predicate GoBackN(q: seq<Packet>, congested: bool) {
    && (forall i :: 1 <= i < |q| ==> !q[i].isRetrans)
    && (congested ==> |q| == 1 && q[0].isRetrans)
  }

  predicate FinAt(q: seq<Packet>, n: nat) {
    q != [] && var p := q[|q| - 1]; p.isFin && p.len == 0 && p.seqNum == n && p.hdrSeq == n
  }

  // ---------- the phases ----------

  /** No FIN is out: the queue tiles [acked, sent). `n` is the number of bytes written so far. */
  predicate Open(s: Sender, n: nat) {
    && !s.finSent && s.written == n && s.acked <= s.sent <= n
    && DataTiles(s.queue, s.acked, s.sent)
  }

  /** The FIN is out and follows all data. After it timed out, `sent` stands in front of it. */
  predicate FinOut(s: Sender, n: nat) {
    && s.finSent && s.written == n + 1 && s.acked <= n
    && FinAt(s.queue, n) && DataTiles(s.queue[..|s.queue| - 1], s.acked, n)
    && (s.sent == n + 1 || (s.sent == n && |s.queue| == 1 && s.congested))
  }

  /** The FIN is acknowledged. */
  predicate FinAcked(s: Sender, n: nat) {
    s.finSent && s.written == n + 1 && s.sent == n + 1 && s.acked == n + 1 && s.queue == []
  }

  predicate Phase(s: Sender, n: nat) {
    Open(s, n) || FinOut(s, n) || FinAcked(s, n)
  }

  /** Field bounds that hold throughout: sizes fit an int, windows are positive. */
  predicate Sane(s: Sender) {
    && 0 < |s.buf| < TWO_31 && 0 < s.readBufLen < TWO_31 && s.rcvWindow < TWO_31
    && s.cwnd > 0 && s.ssthresh > 0
  }

  /** The peer has not closed, so this side is not closing second. */
  predicate PeerOpen(s: Sender) {
    !s.finRcvd && (s.state.Established? || s.state.FinWait1? || s.state.FinWait2?)
  }

  predicate Closing(s: Sender, n: nat) {
    && PeerOpen(s)
    && (s.finSent ==> s.closeCalled && !s.state.Established?)
    && (!s.closeCalled ==> s.state.Established?)
    && (s.state.FinWait2? ==> FinAcked(s, n))
  }

  predicate Inv(s: Sender, n: nat) {
    && Sane(s)
    && Phase(s, n)
    && n - s.acked <= |s.buf|
    && GoBackN(s.queue, s.congested)
    && s.segSent <= Sum(s.queue)
    && Closing(s, n)
  }

  /** The buffer holds the stream from `acked` on. */
  predicate Buffered(buf: seq<byte>, acked: nat, stream: seq<byte>) {
    && |stream| - acked <= |buf|
    && (forall i {:trigger stream[i]} :: acked <= i < |stream| ==> buf[i - acked] == stream[i])
  }

  predicate Good(s: Sender, stream: seq<byte>) {
    Inv(s, |stream|) && Buffered(s.buf, s.acked, stream)
  }

  /** A FIN was sent at some time; from then on dtp_send refuses data, so the stream is complete. */
  predicate Ended(s: Sender) {
    !s.state.Established?
  }

  /** A segment says the truth about the stream; a FIN names its end, and there is none before the end. */
  predicate Right(g: Segment, stream: seq<byte>, ended: bool) {
    match g
    case Data(at, payload) => at + |payload| <= |stream| && payload == stream[at..at + |payload|]
    case Fin(at) => ended && at == |stream|
  }

  predicate AllRight(out: seq<Segment>, stream: seq<byte>, ended: bool) {
    forall i :: 0 <= i < |out| ==> Right(out[i], stream, ended)
  }

  // ---------- queue lemmas ----------

  lemma {:induction false} TilesAppend(q: seq<Packet>, lo: int, mid: int, p: Packet)
    requires DataTiles(q, lo, mid)
    requires p.seqNum == mid && p.hdrSeq == mid && p.len > 0 && !p.isFin
    ensures DataTiles(q + [p], lo, mid + p.len)
    decreases |q|
  {
    if q == [] {
      assert (q + [p])[1..] == [];
    } else {
      TilesAppend(q[1..], lo + q[0].len, mid, p);
      assert (q + [p])[1..] == q[1..] + [p];
    }
  }

  lemma {:induction false} TilesBounds(q: seq<Packet>, lo: int, hi: int)
    requires DataTiles(q, lo, hi)
    ensures lo <= hi && Sum(q) == hi - lo
    ensures forall i :: 0 <= i < |q| ==>
      !q[i].isFin && q[i].len > 0 && q[i].hdrSeq == q[i].seqNum && lo <= q[i].seqNum && q[i].End() <= hi
    decreases |q|
  {
    if q != [] {
      TilesBounds(q[1..], lo + q[0].len, hi);
    }
  }

  lemma {:induction false} SumAppend(q: seq<Packet>, p: Packet)
    ensures Sum(q + [p]) == Sum(q) + p.len
    decreases |q|
  {
    if q == [] {
      assert (q + [p])[1..] == [];
    } else {
      SumAppend(q[1..], p);
      assert (q + [p])[1..] == q[1..] + [p];
    }
  }

  // ---------- C arithmetic ----------

  lemma MinUnsignedIs(x: int, y: int)
    requires 0 <= x < TWO_31 && 0 <= y < TWO_32
    ensures MinUnsigned(x, y) == Min(x, y)
  {
  }

  /** What DTPWriteAvail may send while cursors are in order. The window is honoured exactly when the
      bytes in flight do not exceed it; beyond that the unsigned difference wraps and it is ignored. */
  lemma SendableIs(s: Sender)
    requires Sane(s) && s.acked <= s.sent <= s.written && s.written - s.acked < TWO_31
    ensures var unsent, free := s.written - s.sent, s.cwnd - s.segSent;
            Sendable(s) == if s.sent - s.acked <= s.rcvWindow
                           then Min(Min(unsent, s.rcvWindow - (s.sent - s.acked)), free)
                           else Min(unsent, free)
  {
    var x, y := s.written - s.sent, U32(s.rcvWindow - (s.sent - s.acked));
    MinUnsignedIs(x, y);
    if s.sent - s.acked <= s.rcvWindow {
      assert y == s.rcvWindow - (s.sent - s.acked);
    } else {
      assert y == TWO_32 + s.rcvWindow - (s.sent - s.acked);
    }
  }

  // ---------- sending ----------

  lemma BufferSlice(buf: seq<byte>, acked: nat, stream: seq<byte>, at: nat, n: nat)
    requires Buffered(buf, acked, stream) && acked <= at && at + n <= |stream|
    ensures BufferBytes(buf, at - acked, n) == stream[at..at + n]
  {
  }

  /** What the sending loop cannot change. */
  predicate SameExceptQueue(s: Sender, t: Sender) {
    t == s.(queue := t.queue, sent := t.sent, segSent := t.segSent, scaleOption := t.scaleOption)
  }

  /** How far the count of sent bytes is behind the queue; only a slow start changes it. */
  function Lag(s: Sender): int {
    Sum(s.queue) - s.segSent
  }

  /** Some rounds of the sending loop lead from `s` to `t` and emit `out`. */
  predicate Progress(s: Sender, t: Sender, out: seq<Segment>, stream: seq<byte>) {
    && SameExceptQueue(s, t) && Good(t, stream) && Open(t, |stream|)
    && AllRight(out, stream, false)
    && Lag(t) == Lag(s) && t.segSent - s.segSent == t.sent - s.sent
    && s.sent <= t.sent
  }

  /** One packet of the sending loop. */
  lemma SendOne(s: Sender, n: int, stream: seq<byte>)
    requires Good(s, stream) && Open(s, |stream|) && !s.congested && 0 < n <= |stream| - s.sent
    ensures Progress(s, Queued(s, n), [Wire(s, NewPacket(s, n))], stream)
  {
    var p := NewPacket(s, n);
    TilesAppend(s.queue, s.acked, s.sent, p);
    SumAppend(s.queue, p);
    BufferSlice(s.buf, s.acked, stream, s.sent, n);
  }

  lemma ProgressTrans(s: Sender, t: Sender, u: Sender, a: seq<Segment>, b: seq<Segment>, stream: seq<byte>)
    requires Progress(s, t, a, stream) && Progress(t, u, b, stream)
    ensures Progress(s, u, a + b, stream)
  {
    hide Good, Open, Right, Sum;
  }

  /** The sending loop keeps everything and puts only stream bytes on the wire. */
  lemma {:induction false} SendLoopKeeps(s: Sender, len: int, stream: seq<byte>)
    requires Good(s, stream) && Open(s, |stream|) && !s.congested && len <= |stream| - s.sent
    ensures var (t, out) := SendLoop(s, len);
            Progress(s, t, out, stream) && t.sent - s.sent <= Max(len, 0) && (KeepsSending(s, len) ==> out != [])
    decreases if len > 0 then len else 0
  {
    if KeepsSending(s, len) {
      var n := PacketSize(s, len);
      SendOne(s, n, stream);
      var t, g := Queued(s, n), Wire(s, NewPacket(s, n));
      var (u, out) := SendLoop(t, len - n);
      assert SendLoop(s, len) == (u, [g] + out);
      SendLoopKeeps(t, len - n, stream);
      ProgressTrans(s, t, u, [g], out, stream);
    }
  }

  lemma {:induction false} LoopAppends(s: Sender, len: int)
    ensures |SendLoop(s, len).0.queue| >= |s.queue| + if KeepsSending(s, len) then 1 else 0
    decreases if len > 0 then len else 0
  {
    if KeepsSending(s, len) {
      LoopAppends(Queued(s, PacketSize(s, len)), len - PacketSize(s, len));
    }
  }

  lemma SendFinKeeps(s: Sender, stream: seq<byte>)
    requires Good(s, stream) && Open(s, |stream|) && !s.congested && s.closeCalled && s.sent == |stream|
    ensures var (t, out) := SendFin(s);
            Good(t, stream) && FinOut(t, |stream|) && Ended(t) && AllRight(out, stream, true) && Lag(t) == Lag(s)
  {
    var p := Packet(s.sent, 0, s.sent, false, true);
    SumAppend(s.queue, p);
    assert (s.queue + [p])[..|s.queue|] == s.queue;
    assert s.state.FinWait2? ==> FinAcked(s, |stream|);
  }

  /** Once the FIN is out DTPWriteAvail has nothing to do. */
  lemma WriteAvailIdle(s: Sender, n: nat)
    requires Inv(s, n) && !Open(s, n)
    ensures WriteAvail(s) == (s, [])
  {
    hide DataTiles, Sum, FinAt, GoBackN, MinUnsigned;
    if !s.congested {
      var window := U32(s.rcvWindow - (s.sent - s.acked));
      MinUnsignedIs(0, window);
      assert Sendable(s) <= 0;
    }
  }

  /** DTPWriteAvail keeps the invariant, and everything it emits is right. */
  lemma WriteAvailKeeps(s: Sender, stream: seq<byte>)
    requires Good(s, stream)
    ensures var (t, out) := WriteAvail(s);
            && Good(t, stream) && AllRight(out, stream, Ended(t)) && (Ended(s) ==> Ended(t))
            && t == s.(queue := t.queue, sent := t.sent, segSent := t.segSent, scaleOption := t.scaleOption,
                       written := t.written, finSent := t.finSent, state := t.state)
            && Lag(t) == Lag(s)
  {
    if !Open(s, |stream|) {
      WriteAvailIdle(s, |stream|);
    } else if !s.congested {
      SendableIs(s);
      SendLoopKeeps(s, Sendable(s), stream);
      var (t, out) := SendLoop(s, Sendable(s));
      if t.closeCalled && !t.finSent && (t.finRcvd || t.sent == t.written) {
        SendFinKeeps(t, stream);
      }
    }
  }

  /** What every handler keeps from `s` to `t`, emitting `out`. */
  predicate Kept(s: Sender, t: Sender, out: seq<Segment>, stream: seq<byte>) {
    && Good(t, stream) && AllRight(out, stream, Ended(t)) && (Ended(s) ==> Ended(t))
    && s.acked <= t.acked && t.closeCalled == s.closeCalled && |t.buf| == |s.buf| && t.readBufLen == s.readBufLen
  }

  // ---------- acknowledgements ----------

  /** An acknowledgement trims the queue to exactly the bytes after it. */
  lemma {:induction false} RemoveTiles(q: seq<Packet>, lo: int, hi: int, ack: nat)
    requires DataTiles(q, lo, hi) && lo <= ack
    ensures var (r, freed, any) := RemovePackets(q, ack);
            && DataTiles(r, ack, Max(hi, ack)) && freed == Sum(q) - Sum(r)
            && (any <==> q != [] && q[0].End() <= ack)
            && (!any ==> |r| == |q| && (q != [] ==> r[0].isRetrans == q[0].isRetrans))
            && |r| <= |q| && (any ==> |r| < |q|)
            && (forall i :: 1 <= i < |r| ==> r[i] == q[|q| - |r| + i])
            && (any && r != [] ==> r[0].isRetrans == q[|q| - |r|].isRetrans)
    decreases |q|
  {
    if q != [] {
      TilesBounds(q[1..], lo + q[0].len, hi);
      if q[0].End() < ack {
        RemoveTiles(q[1..], lo + q[0].len, hi, ack);
      }
    }
  }

  /** A FIN behind the data stays until it is itself acknowledged. */
  lemma {:induction false} RemoveBeforeFin(d: seq<Packet>, fin: Packet, lo: int, n: nat, ack: nat)
    requires DataTiles(d, lo, n) && lo <= ack && fin.isFin && fin.len == 0 && fin.seqNum == n
    ensures ack <= n ==> RemovePackets(d + [fin], ack) ==
                         (RemovePackets(d, ack).0 + [fin], RemovePackets(d, ack).1, RemovePackets(d, ack).2)
    ensures ack == n + 1 ==> RemovePackets(d + [fin], ack) == ([], Sum(d), true)
    decreases |d|
  {
    TilesBounds(d, lo, n);
    if d == [] {
      assert d + [fin] == [fin];
      assert [fin][1..] == [];
    } else {
      assert (d + [fin])[0] == d[0] && (d + [fin])[1..] == d[1..] + [fin];
      if d[0].End() < ack {
        RemoveBeforeFin(d[1..], fin, lo + d[0].len, n, ack);
      } else if ack < d[0].End() {
        var p := d[0].(seqNum := ack, hdrSeq := ack, len := d[0].len - (ack - d[0].seqNum));
        assert [p] + (d[1..] + [fin]) == ([p] + d[1..]) + [fin];
      }
    }
  }

  lemma ShiftedBuffer(buf: seq<byte>, acked: nat, ack: nat, written: int, stream: seq<byte>)
    requires Buffered(buf, acked, stream) && acked <= ack && |stream| <= written
    ensures Buffered(Shifted(buf, ack - acked, written - ack), ack, stream)
  {
    hide Shifted;
  }

  lemma MovedCwndPositive(s: Sender, acked: nat)
    requires Sane(s)
    ensures 0 < MovedCwnd(s.cwnd, s.ssthresh, |s.buf|, acked) <= |s.buf|
  {
    var cwnd := if s.cwnd < s.ssthresh then s.cwnd + acked else s.cwnd;
    var more := Multiplied(s.cwnd, s.ssthresh, acked);
    if more > 0 {
      QuotientNonNegative(more * DTP_MTU, cwnd);
    }
  }

  lemma QuotientNonNegative(a: int, b: int)
    requires a >= 0 && b > 0
    ensures a / b >= 0
  {
  }

  lemma AcknowledgeOpen(s: Sender, ack: nat, stream: seq<byte>)
    requires Good(s, stream) && Open(s, |stream|) && s.acked <= ack <= |stream|
    ensures Good(Acknowledge(s, ack), stream) && Open(Acknowledge(s, ack), |stream|)
    ensures Lag(Acknowledge(s, ack)) == Lag(s)
  {
    hide RemovePackets, DataTiles, Sum, Shifted, Buffered, MovedCwnd;
    RemoveTiles(s.queue, s.acked, s.sent, ack);
    ShiftedBuffer(s.buf, s.acked, ack, s.written, stream);
    MovedCwndPositive(s, ack - s.acked);
  }

  /** Data behind which the FIN waits is trimmed like any other. */
  lemma TrimBeforeFin(q: seq<Packet>, lo: int, n: nat, ack: nat, congested: bool)
    requires FinAt(q, n) && DataTiles(q[..|q| - 1], lo, n) && lo <= ack <= n && GoBackN(q, congested)
    ensures var (r, freed, any) := RemovePackets(q, ack);
            && FinAt(r, n) && DataTiles(r[..|r| - 1], ack, n) && freed == Sum(q) - Sum(r)
            && GoBackN(r, congested && !any) && (|q| == 1 ==> |r| == 1 && !any)
  {
    var d, fin := q[..|q| - 1], q[|q| - 1];
    assert q == d + [fin];
    RemoveBeforeFin(d, fin, lo, n, ack);
    RemoveTiles(d, lo, n, ack);
    var r := RemovePackets(d, ack).0;
    SumAppend(d, fin);
    SumAppend(r, fin);
    assert (r + [fin])[..|r|] == r;
    assert forall i :: 1 <= i < |r| ==> r[i] == q[|d| - |r| + i];
  }

  lemma FinGone(q: seq<Packet>, lo: int, n: nat)
    requires FinAt(q, n) && DataTiles(q[..|q| - 1], lo, n) && lo <= n
    ensures RemovePackets(q, n + 1) == ([], Sum(q), true)
  {
    var d, fin := q[..|q| - 1], q[|q| - 1];
    assert q == d + [fin];
    RemoveBeforeFin(d, fin, lo, n, n + 1);
    SumAppend(d, fin);
  }

  lemma AcknowledgeFin(s: Sender, ack: nat, stream: seq<byte>)
    requires Good(s, stream) && FinOut(s, |stream|) && s.acked <= ack <= s.written
    ensures Good(Acknowledge(s, ack), stream)
    ensures if ack == s.written then FinAcked(Acknowledge(s, ack), |stream|) else FinOut(Acknowledge(s, ack), |stream|)
    ensures Lag(Acknowledge(s, ack)) == Lag(s)
  {
    hide RemovePackets, DataTiles, Sum, FinAt, Shifted, Buffered, MovedCwnd, GoBackN;
    ShiftedBuffer(s.buf, s.acked, ack, s.written, stream);
    MovedCwndPositive(s, ack - s.acked);
    EmptySum();
    if ack == s.written {
      FinGone(s.queue, s.acked, |stream|);
      EmptyGoBackN();
    } else {
      TrimBeforeFin(s.queue, s.acked, |stream|, ack, s.congested);
    }
  }

  lemma EmptyGoBackN()
    ensures GoBackN([], false)
  {
  }

  lemma EmptySum()
    ensures Sum([]) == 0
  {
  }

  lemma AcknowledgeKeeps(s: Sender, ack: nat, stream: seq<byte>)
    requires Good(s, stream) && s.acked <= ack <= s.written
    ensures Good(Acknowledge(s, ack), stream) && Lag(Acknowledge(s, ack)) == Lag(s)
    ensures ack == s.written && s.finSent ==> FinAcked(Acknowledge(s, ack), |stream|)
    ensures Open(s, |stream|) ==> Open(Acknowledge(s, ack), |stream|)
  {
    if Open(s, |stream|) {
      AcknowledgeOpen(s, ack, stream);
    } else if FinOut(s, |stream|) {
      AcknowledgeFin(s, ack, stream);
    } else {
      ShiftedBuffer(s.buf, s.acked, ack, s.written, stream);
    }
  }

  /** Sending any queued packet again sends exactly the bytes its header names; the assertion of DTPRetransmit
      holds. */
  lemma WireRight(s: Sender, i: nat, stream: seq<byte>)
    requires Good(s, stream) && i < |s.queue|
    ensures s.queue[i].hdrSeq == s.queue[i].seqNum
    ensures Right(Wire(s, s.queue[i]), stream, Ended(s))
  {
    hide Sum, GoBackN, Buffered, DataTiles, Wire, Right;
    var n, p := |stream|, s.queue[i];
    if s.finSent && i == |s.queue| - 1 {
      FinRight(s, p, stream);
    } else if s.finSent {
      TilesBounds(s.queue[..|s.queue| - 1], s.acked, n);
      assert p == s.queue[..|s.queue| - 1][i];
      DataRight(s, p, stream, Ended(s));
    } else {
      TilesBounds(s.queue, s.acked, s.sent);
      DataRight(s, p, stream, Ended(s));
    }
  }

  lemma DataRight(s: Sender, p: Packet, stream: seq<byte>, ended: bool)
    requires Buffered(s.buf, s.acked, stream) && !p.isFin && p.hdrSeq == p.seqNum
    requires s.acked <= p.seqNum && 0 <= p.len && p.End() <= |stream|
    ensures Right(Wire(s, p), stream, ended)
  {
    hide Buffered;
    BufferSlice(s.buf, s.acked, stream, p.seqNum, p.len);
  }

  lemma FinRight(s: Sender, p: Packet, stream: seq<byte>)
    requires p.isFin && p.hdrSeq == |stream| && Ended(s)
    ensures Right(Wire(s, p), stream, Ended(s))
  {
  }

  /** The assertions of HandleDuplicateACK hold: the head starts at the acknowledged byte. */
  lemma HeadStartsAtAcked(s: Sender, n: nat)
    requires Inv(s, n) && s.queue != []
    ensures s.queue[0].seqNum == s.acked <= s.queue[0].End()
    ensures FinOut(s, n) && |s.queue| == 1 ==> s.queue[0].End() == n
    ensures !s.queue[0].isFin <==> s.queue[0].len > 0
    ensures s.queue[0].isFin <==> FinOut(s, n) && |s.queue| == 1
  {
    if FinOut(s, n) && |s.queue| > 1 {
      assert s.queue[..|s.queue| - 1][0] == s.queue[0];
    }
  }

  /** The head of the queue lies in the buffer. */
  lemma HeadInBuffer(s: Sender, stream: seq<byte>)
    requires Good(s, stream) && s.queue != []
    ensures var p := s.queue[0];
            && p.seqNum == p.hdrSeq == s.acked <= p.End()
            && (p.isFin || (0 <= p.len && p.End() - s.acked <= |s.buf|))
  {
    HeadStartsAtAcked(s, |stream|);
    if FinOut(s, |stream|) && |s.queue| > 1 {
      TilesBounds(s.queue[..|s.queue| - 1], s.acked, |stream|);
      assert s.queue[..|s.queue| - 1][0] == s.queue[0];
    } else if Open(s, |stream|) {
      TilesBounds(s.queue, s.acked, s.sent);
    }
  }

  lemma {:induction false} SumMark(q: seq<Packet>, p: Packet)
    requires q != [] && p.len == q[0].len
    ensures Sum([p] + q[1..]) == Sum(q)
  {
    assert ([p] + q[1..])[1..] == q[1..];
  }

  lemma MarkTiles(d: seq<Packet>, p: Packet, lo: int, hi: int)
    requires d != [] && DataTiles(d, lo, hi) && p == d[0].(isRetrans := p.isRetrans)
    ensures DataTiles([p] + d[1..], lo, hi)
  {
    assert ([p] + d[1..])[1..] == d[1..];
  }

  lemma MarkBeforeFin(q: seq<Packet>, p: Packet, lo: int, n: nat)
    requires FinAt(q, n) && DataTiles(q[..|q| - 1], lo, n) && p == q[0].(isRetrans := p.isRetrans)
    ensures var m := [p] + q[1..]; FinAt(m, n) && DataTiles(m[..|m| - 1], lo, n)
  {
    var m, d := [p] + q[1..], q[..|q| - 1];
    if |q| > 1 {
      MarkTiles(d, p, lo, n);
      assert m[..|m| - 1] == [p] + d[1..];
      assert m[|m| - 1] == q[|q| - 1];
    } else {
      assert m[..0] == q[..0];
    }
  }

  lemma MarkHeadKeeps(s: Sender, stream: seq<byte>)
    requires Good(s, stream) && s.queue != []
    ensures Good(MarkHead(s), stream) && Lag(MarkHead(s)) == Lag(s)
  {
    hide DataTiles, Sum, FinAt, Buffered;
    var q, p := s.queue, s.queue[0].(isRetrans := true);
    SumMark(q, p);
    if FinOut(s, |stream|) {
      MarkBeforeFin(q, p, s.acked, |stream|);
    } else {
      MarkTiles(q, p, s.acked, s.sent);
    }
  }

  lemma CwndKeeps(s: Sender, cwnd: int, ssthresh: int, stream: seq<byte>)
    requires Good(s, stream) && cwnd > 0 && ssthresh > 0
    ensures var t := s.(ssthresh := ssthresh, cwnd := cwnd);
            Good(t, stream) && Lag(t) == Lag(s)
  {
  }

  lemma FastRetransmitKeeps(s: Sender, stream: seq<byte>)
    requires Good(s, stream)
    ensures var (t, out) := FastRetransmit(s);
            Kept(s, t, out, stream) && Lag(t) == Lag(s) && t.acked == s.acked
  {
    if s.queue != [] {
      MarkHeadKeeps(s, stream);
      WireRight(s, 0, stream);
      CwndKeeps(MarkHead(s), AvoidanceCwnd(s.cwnd), Halved(s.cwnd), stream);
    }
  }

  /** After a side that is closing has seen all its data acknowledged, DTPWriteAvail sends the FIN. */
  lemma FinFollows(s: Sender, n: nat)
    requires Inv(s, n) && Open(s, n) && s.acked == n && s.closeCalled
    ensures WriteAvail(s).0.written == n + 1
  {
    SendableIs(s);
    TilesBounds(s.queue, s.acked, s.sent);
    assert s.queue == [];
  }

  /** HandleACKPacket keeps the invariant for every acknowledgement of something written. */
  lemma HandleAckKeeps(s: Sender, ack: nat, window: nat, stream: seq<byte>)
    requires Good(s, stream) && ack <= s.written && window < TWO_31
    ensures Sane(s)
    ensures var (t, out) := HandleAck(s, ack, window);
            Kept(s, t, out, stream) && Lag(t) == Lag(s) && t.acked <= Max(s.acked, ack)
  {
    hide WriteAvail, FastRetransmit, AckAndSend, Good, Right, Sum, Buffered;
    var t := NoteWindow(s, window);
    var u := CountAck(t, ack);
    FieldsKeep(s, ack, window, stream);
    if ack < s.acked {
    } else if t.herWindowZero && window > 0 {
      WriteAvailKeeps(t.(herWindowZero := false), stream);
    } else if ack == s.acked && u.numAcks == 4 {
      FastRetransmitKeeps(u, stream);
    } else {
      AckAndSendKeeps(u, ack, stream);
    }
  }

  /** The peer's window and the duplicate count do not matter to the invariant. */
  lemma FieldsKeep(s: Sender, ack: nat, window: nat, stream: seq<byte>)
    requires Good(s, stream) && window < TWO_31
    ensures Sane(s)
    ensures var t := NoteWindow(s, window);
            var u := CountAck(t, ack);
            && Good(u, stream) && Lag(u) == Lag(s)
            && Good(t.(herWindowZero := false), stream) && Lag(t.(herWindowZero := false)) == Lag(s)
  {
    hide DataTiles, Sum, Buffered, GoBackN, FinAt;
  }

  lemma AckAndSendKeeps(s: Sender, ack: nat, stream: seq<byte>)
    requires Good(s, stream) && s.acked <= ack <= s.written
    ensures var (t, out) := AckAndSend(s, ack);
            Kept(s, t, out, stream) && Lag(t) == Lag(s) && t.acked == ack
  {
    AcknowledgeKeeps(s, ack, stream);
    var a := Acknowledge(s, ack);
    WriteAvailKeeps(a, stream);
    var v := WriteAvail(a).0;
    if v.state.FinWait1? && v.written == ack {
      if Open(a, |stream|) {
        if ack == |stream| {
          FinFollows(a, |stream|);
        }
      } else {
        WriteAvailIdle(a, |stream|);
      }
      assert FinAcked(v, |stream|);
    }
  }

  // ---------- timeout ----------

  /** While congested, packets that were not sent again are dropped, whatever their age. */
  lemma {:induction false} TimeoutDrops(s: Sender, i: nat, due: Packet -> bool)
    requires s.cwnd >= 0 && s.congested && i <= |s.queue|
    requires forall k :: 0 <= k < |s.queue| ==> s.queue[k].End() >= 0
    requires forall k :: i <= k < |s.queue| ==> !s.queue[k].isRetrans
    ensures TimeoutLoop(s, i, due) == (s.(queue := s.queue[..i], segSent := s.segSent - Sum(s.queue[i..])), [])
    decreases |s.queue|
  {
    if i < |s.queue| {
      var p, q := s.queue[i], s.queue[..i] + s.queue[i + 1..];
      assert q[..i] == s.queue[..i] && q[i..] == s.queue[i..][1..];
      TimeoutDrops(Dropped(s, i), i, due);
    } else {
      assert s.queue[..i] == s.queue;
    }
  }

  lemma PacketsEnd(s: Sender, n: nat)
    requires Inv(s, n)
    ensures forall i :: 0 <= i < |s.queue| ==> s.queue[i].End() >= 0
  {
    var k := |s.queue| - 1;
    if FinOut(s, n) {
      TilesBounds(s.queue[..k], s.acked, n);
      assert forall i :: 0 <= i < k ==> s.queue[i] == s.queue[..k][i];
    } else if Open(s, n) {
      TilesBounds(s.queue, s.acked, s.sent);
    }
  }

  /** Go-back-N: a timeout does nothing unless the head is due; then exactly the head stays, marked and
      sent again, and `sent` returns to its end. */
  lemma TimeoutIsGoBackN(s: Sender, n: nat, due: Packet -> bool)
    requires Inv(s, n)
    ensures forall i :: 0 <= i < |s.queue| ==> s.queue[i].End() >= 0
    ensures HandleTimeout(s, due) ==
            if s.queue == [] || !due(s.queue[0]) then (s, [])
            else (TimedOut(s, s.queue[0]).(queue := [s.queue[0].(isRetrans := true)],
                                           segSent := s.segSent - Sum(s.queue[1..])),
                  [Wire(s, s.queue[0])])
  {
    PacketsEnd(s, n);
    if s.queue != [] && due(s.queue[0]) {
      assert !(s.congested && !s.queue[0].isRetrans) && !s.state.FinWait2? && !s.state.Closed?;
      assert forall i :: 1 <= i < |s.queue| ==> !s.queue[i].isRetrans;
      TimeoutOfHead(s, due);
    }
  }

  lemma TimeoutOfHead(s: Sender, due: Packet -> bool)
    requires s.cwnd >= 0 && s.queue != [] && due(s.queue[0])
    requires !(s.congested && !s.queue[0].isRetrans) && !s.state.FinWait2? && !s.state.Closed?
    requires forall i :: 1 <= i < |s.queue| ==> !s.queue[i].isRetrans
    requires forall i :: 0 <= i < |s.queue| ==> s.queue[i].End() >= 0
    ensures HandleTimeout(s, due) ==
            (TimedOut(s, s.queue[0]).(queue := [s.queue[0].(isRetrans := true)], segSent := s.segSent - Sum(s.queue[1..])),
             [Wire(s, s.queue[0])])
  {
    var p := s.queue[0];
    var t := Resent(s, 0);
    TimeoutDrops(t, 1, due);
    assert t.queue[..1] == [p.(isRetrans := true)] && t.queue[1..] == s.queue[1..];
    assert [Wire(s, p)] + [] == [Wire(s, p)];
  }

  /** A timeout keeps the invariant: no unacknowledged byte below the new `sent` leaves the queue. */
  lemma HandleTimeoutKeeps(s: Sender, due: Packet -> bool, stream: seq<byte>)
    requires Good(s, stream)
    ensures forall i :: 0 <= i < |s.queue| ==> s.queue[i].End() >= 0
    ensures var (t, out) := HandleTimeout(s, due);
            Kept(s, t, out, stream) && Lag(t) == Lag(s) && t.acked == s.acked
  {
    TimeoutIsGoBackN(s, |stream|, due);
    if s.queue != [] && due(s.queue[0]) {
      WireRight(s, 0, stream);
      RolledBack(s, stream);
    }
  }

  /** The state a timeout leaves behind. */
  lemma RolledBack(s: Sender, stream: seq<byte>)
    requires Good(s, stream) && s.queue != [] && s.queue[0].End() >= 0
    ensures var t := TimedOut(s, s.queue[0]).(queue := [s.queue[0].(isRetrans := true)], segSent := s.segSent - Sum(s.queue[1..]));
            Good(t, stream) && Lag(t) == Lag(s)
  {
    HeadStartsAtAcked(s, |stream|);
    var p := s.queue[0].(isRetrans := true);
    assert [p][1..] == [];
    assert Sum([p]) == p.len && Sum(s.queue) == p.len + Sum(s.queue[1..]);
    if FinOut(s, |stream|) && |s.queue| == 1 {
      assert [p][..0] == s.queue[..0];
    } else if FinOut(s, |stream|) {
      assert s.queue[..|s.queue| - 1][0] == s.queue[0];
      TilesBounds(s.queue[..|s.queue| - 1], s.acked, |stream|);
    } else {
      TilesBounds(s.queue, s.acked, s.sent);
    }
    var t := TimedOut(s, s.queue[0]).(queue := [p], segSent := s.segSent - Sum(s.queue[1..]));
    assert (FinOut(s, |stream|) && |s.queue| == 1) || DataTiles([p], s.acked, p.End());
    assert FinOut(t, |stream|) || Open(t, |stream|);
  }

  // ---------- address change ----------

  /** A FIN that timed out and was not acknowledged yet: `sent` stands in front of it. */
  predicate FinRolledBack(s: Sender) {
    s.finSent && s.sent < s.written
  }

  lemma QueueSum(s: Sender, n: nat)
    requires Inv(s, n)
    ensures Sum(s.queue) >= 0
  {
    hide GoBackN;
    if Open(s, n) {
      TilesBounds(s.queue, s.acked, s.sent);
    } else if FinOut(s, n) {
      var k := |s.queue| - 1;
      TilesBounds(s.queue[..k], s.acked, n);
      assert s.queue == s.queue[..k] + [s.queue[k]];
      SumAppend(s.queue[..k], s.queue[k]);
    }
  }

  /** A slow start keeps the invariant if and only if no FIN stands rolled back. */
  lemma SlowStartKeeps(s: Sender, stream: seq<byte>)
    requires Good(s, stream)
    ensures Good(SlowStart(s), stream) <==> !FinRolledBack(s)
    ensures Kept(s, SlowStart(s), [], stream) <==> !FinRolledBack(s)
  {
    hide DataTiles, Sum, FinAt, Buffered, Right;
    QueueSum(s, |stream|);
  }

  /** The transfer resumes after an address change with the invariant intact, and only right segments, if and
      only if no FIN stands rolled back; otherwise the FIN's place in the sequence goes out as a data byte. */
  lemma ResumeKeeps(s: Sender, stream: seq<byte>)
    requires Good(s, stream)
    ensures Kept(s, ResumeAuth(s).0, ResumeAuth(s).1, stream) <==> !FinRolledBack(s)
    ensures Kept(s, ResumeRsp(s).0, ResumeRsp(s).1, stream) <==> !FinRolledBack(s)
    ensures AllRight(ResumeAuth(s).1, stream, Ended(ResumeAuth(s).0)) <==> !FinRolledBack(s)
    ensures AllRight(ResumeRsp(s).1, stream, Ended(ResumeRsp(s).0)) <==> !FinRolledBack(s)
    ensures !FinRolledBack(s) ==> ResumeAuth(s).0.acked == s.acked && ResumeRsp(s).0.acked == s.acked
  {
    hide ResumeAuth, ResumeRsp, Good, Right, FinRolledBack;
    if FinRolledBack(s) {
      ResumeIsWrong(s, stream);
    } else {
      ResumeGood(s, stream);
    }
  }

  lemma ResumeIsWrong(s: Sender, stream: seq<byte>)
    requires Good(s, stream) && FinRolledBack(s)
    ensures !AllRight(ResumeAuth(s).1, stream, Ended(ResumeAuth(s).0))
    ensures !AllRight(ResumeRsp(s).1, stream, Ended(ResumeRsp(s).0))
  {
    hide WriteAvail, DataTiles, Buffered, Wire;
    ResumeSendsFinAsData(s, |stream|);
    var g := ResumeAuth(s).1[0];
    assert !Right(g, stream, true) && !Right(g, stream, false);
  }

  lemma ResumeGood(s: Sender, stream: seq<byte>)
    requires Good(s, stream) && !FinRolledBack(s)
    ensures Kept(s, ResumeAuth(s).0, ResumeAuth(s).1, stream) && Kept(s, ResumeRsp(s).0, ResumeRsp(s).1, stream)
    ensures ResumeAuth(s).0.acked == s.acked && ResumeRsp(s).0.acked == s.acked
  {
    SlowStartKeeps(s, stream);
    var r := SlowStart(s);
    WriteAvailKeeps(r, stream);
    var (t, out) := WriteAvail(r);
    if t.queue != [] {
      MarkHeadKeeps(t, stream);
      WireRight(t, 0, stream);
    }
  }

  lemma ResumeSendsFinAsData(s: Sender, n: nat)
    requires Inv(s, n) && FinRolledBack(s)
    ensures s.acked == n && |s.buf| > 0
    ensures var out := WriteAvail(SlowStart(s)).1; out != [] && out[0] == Data(n, s.buf[0..1])
    ensures ResumeRsp(s).1 != [] && ResumeRsp(s).1[0] == WriteAvail(SlowStart(s)).1[0]
  {
    var r := SlowStart(s);
    assert FinOut(s, n) && s.queue[..|s.queue| - 1] == [];
    MinUnsignedIs(1, U32(r.rcvWindow - (r.sent - r.acked)));
    assert Sendable(r) == 1 && KeepsSending(r, 1);
  }

  // ---------- application calls ----------

  /** New bytes behind the written ones keep the invariant for the longer stream. */
  lemma AppendKeeps(s: Sender, more: seq<byte>, stream: seq<byte>)
    requires Good(s, stream) && !Ended(s) && |stream| - s.acked + |more| <= |s.buf|
    ensures s.acked <= |stream| == s.written
    ensures Good(Appended(s, more), stream + more) && Lag(Appended(s, more)) == Lag(s)
  {
    hide DataTiles, Sum, Buffered, Splice;
    SpliceBuffered(s.buf, s.acked, stream, more);
  }

  /** dtp_send: the accepted bytes extend the stream. */
  lemma SendKeeps(s: Sender, data: seq<byte>, stream: seq<byte>)
    requires Good(s, stream)
    ensures var (t, out, res) := Send(s, data);
            var longer := stream + data[..if res.Accepted? then res.count else 0];
            && (res.Accepted? ==> res.count <= |data|) && Kept(s, t, out, longer) && Lag(t) == Lag(s)
            && t.acked == s.acked && t.cwnd == s.cwnd && t.ssthresh == s.ssthresh
            && (Ended(s) ==> longer == stream)
  {
    hide DataTiles, Sum, Buffered, WriteAvail, Right, GoBackN, Splice;
    assert stream + data[..0] == stream;
    var n := Min(|data|, |s.buf| - (s.written - s.acked));
    if data != [] && !Ended(s) && n > 0 {
      AppendKeeps(s, data[..n], stream);
      WriteAvailKeeps(Appended(s, data[..n]), stream + data[..n]);
    }
  }

  lemma SpliceBuffered(buf: seq<byte>, acked: nat, stream: seq<byte>, more: seq<byte>)
    requires Buffered(buf, acked, stream) && acked <= |stream| && |stream| - acked + |more| <= |buf|
    ensures Buffered(Splice(buf, |stream| - acked, more), acked, stream + more)
  {
    hide Splice;
  }

  lemma CloseKeeps(s: Sender, stream: seq<byte>)
    requires Good(s, stream)
    ensures var (t, out) := Close(s);
            Kept(s.(closeCalled := true), t, out, stream) && Lag(t) == Lag(s) && t.acked == s.acked
  {
    var u := s.(closeCalled := true);
    assert Good(u, stream);
    WriteAvailKeeps(u, stream);
  }

  lemma NoteWindowKeeps(s: Sender, window: nat, stream: seq<byte>)
    requires Good(s, stream) && window < TWO_31
    ensures Kept(s, NoteWindow(s, window), [], stream) && Lag(NoteWindow(s, window)) == Lag(s)
  {
  }
}
