/** What each handler of the sending half puts on the wire and leaves behind, in terms of the stream and of numbers
    alone: which bytes go out, in packets of which size, how the congestion window moves, and what is repeated.
 */
module SendEffects {
  import opened DtpBase
  import opened SendSpec
  import opened SendInvariant
  import SP = SendProperties

  // ---------- sending ----------

  /** Data segments that carry the stream from `lo` to `hi`, one after the other. */
  predicate Carry(out: seq<Segment>, lo: nat, hi: nat, stream: seq<byte>) {
    if out == [] then lo == hi
    else
      && out[0].Data? && out[0].seqNum == lo && out[0].payload != [] && Right(out[0], stream, false)
      && Carry(out[1..], lo + |out[0].payload|, hi, stream)
  }

  /** The header of packet number `i` of a call; the first may have to carry the window scale. */
  function HeaderBytes(i: nat, scale: bool): nat {
    if i == 0 && scale then 24 else 20
  }

  /** No packet exceeds 1472 bytes, and all but the last have exactly that many. */
  predicate Packed(out: seq<Segment>, scale: bool) {
    forall i :: 0 <= i < |out| ==>
      && out[i].Data? && HeaderBytes(i, scale) + |out[i].payload| <= 1472
      && (i < |out| - 1 ==> HeaderBytes(i, scale) + |out[i].payload| == 1472)
  }

  /** The unsent bytes, as far as the peer's window allows, unless that is exceeded already, and the congestion
      window. */
  function Allowed(s: Sender): int {
    var unsent, inFlight := s.written - s.sent, s.sent - s.acked;
    Min(if inFlight <= s.rcvWindow then Min(unsent, s.rcvWindow - inFlight) else unsent, s.cwnd - s.segSent)
  }

  /** Less than a full payload goes out only if no more is left, no more will come, or the peer takes no more. */
  predicate MaySendShort(s: Sender, unsent: int) {
    unsent < MAX_PAYLOAD || s.closeCalled || s.rcvWindow < MAX_PAYLOAD
  }

  /** Of `len` bytes those up to `end` went out: all of them, or all but less than a full payload that has to wait;
      and the last packet did not have to wait. */
  predicate SentAll(s: Sender, len: int, out: seq<Segment>, end: int) {
    var rest := Max(0, len) - (end - s.sent);
    && 0 <= rest && (rest > 0 ==> rest < MAX_PAYLOAD && !MaySendShort(s, s.written - end))
    && (out != [] && out[|out| - 1].Data? ==>
          var last := |out[|out| - 1].payload|;
          last + rest >= MAX_PAYLOAD || MaySendShort(s, s.written - end + last))
  }

  /** The segments of a call, from some place on. */
  predicate Sends(s: Sender, len: int, out: seq<Segment>, end: int, stream: seq<byte>) {
    s.sent <= end && Carry(out, s.sent, end, stream) && Packed(out, s.scaleOption) && SentAll(s, len, out, end)
  }

  lemma {:induction false} LoopSends(s: Sender, len: int, stream: seq<byte>)
    requires Good(s, stream) && Open(s, |stream|) && !s.congested && len <= |stream| - s.sent
    ensures var (t, out) := SendLoop(s, len);
            Sends(s, len, out, t.sent, stream) && t.scaleOption == (s.scaleOption && out == [])
    decreases if len > 0 then len else 0
  {
    hide Good, Queued, Wire, KeepsSending, PacketSize, Sends;
    InOrder(s, stream);
    RoundIs(s, len);
    if KeepsSending(s, len) {
      var n := PacketSize(s, len);
      SendOne(s, n, stream);
      NewWire(s, n, stream);
      var u := Queued(s, n);
      LoopSends(u, len - n, stream);
      var (t, out) := SendLoop(u, len - n);
      OneMore(s, len, out, t.sent, stream);
    } else {
      NothingGoesOut(s, len, stream);
    }
  }

  lemma InOrder(s: Sender, stream: seq<byte>)
    requires Good(s, stream) && Open(s, |stream|)
    ensures s.written == |stream| && s.written - s.sent < TWO_31 && s.sent <= s.written
  {
  }

  lemma RoundIs(s: Sender, len: int)
    requires 0 <= s.written - s.sent < TWO_31
    ensures KeepsSending(s, len) <==> len > 0 && (len >= MAX_PAYLOAD || MaySendShort(s, s.written - s.sent))
    ensures KeepsSending(s, len) ==>
              var n := PacketSize(s, len);
              && 0 < n <= len && HeaderBytes(0, s.scaleOption) + n <= 1472
              && (n < len ==> HeaderBytes(0, s.scaleOption) + n == 1472)
              && Queued(s, n) == s.(queue := Queued(s, n).queue, segSent := Queued(s, n).segSent, sent := s.sent + n,
                                    scaleOption := false)
  {
  }

  lemma NothingGoesOut(s: Sender, len: int, stream: seq<byte>)
    requires len > 0 ==> len < MAX_PAYLOAD && !MaySendShort(s, s.written - s.sent)
    ensures Sends(s, len, [], s.sent, stream)
  {
  }

  /** One more packet in front. */
  lemma OneMore(s: Sender, len: int, out: seq<Segment>, end: nat, stream: seq<byte>)
    requires 0 <= s.written - s.sent < TWO_31 && s.written == |stream| && KeepsSending(s, len) && len <= |stream| - s.sent
    requires Sends(Queued(s, PacketSize(s, len)), len - PacketSize(s, len), out, end, stream)
    ensures var n := PacketSize(s, len);
            0 <= n <= |stream| - s.sent && Sends(s, len, [Data(s.sent, stream[s.sent..s.sent + n])] + out, end, stream)
  {
    hide KeepsSending, PacketSize, Queued, Packed;
    RoundIs(s, len);
    var n := PacketSize(s, len);
    var u, g := Queued(s, n), Data(s.sent, stream[s.sent..s.sent + n]);
    var all := [g] + out;
    assert all[1..] == out;
    CarryBounds(out, u.sent, end, stream);
    FirstAndRest(g, out, s.scaleOption);
    assert all[|out|] == if out == [] then g else out[|out| - 1];
  }

  lemma {:induction false} CarryBounds(out: seq<Segment>, lo: nat, hi: nat, stream: seq<byte>)
    requires Carry(out, lo, hi, stream)
    ensures lo <= hi && (out == [] <==> lo == hi)
    decreases |out|
  {
    if out != [] {
      CarryBounds(out[1..], lo + |out[0].payload|, hi, stream);
    }
  }

  lemma NewWire(s: Sender, n: nat, stream: seq<byte>)
    requires Good(s, stream) && Open(s, |stream|) && n <= |stream| - s.sent
    ensures Wire(s, NewPacket(s, n)) == Data(s.sent, stream[s.sent..s.sent + n])
  {
    BufferSlice(s.buf, s.acked, stream, s.sent, n);
  }

  lemma FirstAndRest(g: Segment, out: seq<Segment>, scale: bool)
    requires g.Data? && Packed(out, false) && HeaderBytes(0, scale) + |g.payload| <= 1472
    requires out != [] ==> HeaderBytes(0, scale) + |g.payload| == 1472
    ensures Packed([g] + out, scale)
  {
    var all := [g] + out;
    forall i | 0 <= i < |all|
      ensures all[i].Data? && HeaderBytes(i, scale) + |all[i].payload| <= 1472
      ensures i < |all| - 1 ==> HeaderBytes(i, scale) + |all[i].payload| == 1472
    {
      if i > 0 {
        assert all[i] == out[i - 1];
      }
    }
  }

  /** DTPWriteAvail in full: the bytes that may go out do, in order and in packets of 1472 bytes but for the last, and
      the FIN follows exactly if the connection is closing and nothing is left. */
  lemma WriteAvailSends(s: Sender, stream: seq<byte>) returns (data: seq<Segment>)
    requires Good(s, stream) && Open(s, |stream|) && !s.congested
    ensures var (t, out) := WriteAvail(s);
            var end := if t.finSent then t.sent - 1 else t.sent;
            && out == data + (if t.finSent then [Fin(|stream|)] else []) && Sends(s, Allowed(s), data, end, stream)
            && (t.finSent <==> s.closeCalled && end == |stream|)
            && t.scaleOption == (s.scaleOption && data == [])
  {
    hide DataTiles, Sum, Buffered, GoBackN, SendLoop, Sends, Sendable;
    SendableIs(s);
    LoopSends(s, Sendable(s), stream);
    SendLoopKeeps(s, Sendable(s), stream);
    data := SendLoop(s, Sendable(s)).1;
  }

  // ---------- the congestion window ----------

  /** The whole part of a quotient, said without dividing. */
  predicate Quotient(q: int, a: int, b: int) {
    q * b <= a < (q + 1) * b
  }

  lemma QuotientIs(a: int, b: int)
    requires b > 0
    ensures Quotient(a / b, a, b)
  {
  }

  /** An acknowledgement of new bytes moves the congestion window: in slow start by as many bytes, beyond it, and for
      the bytes beyond the threshold, by one packet for each full window; never past the write buffer. */
  lemma AckMovesWindow(s: Sender, ack: nat, window: nat) returns (moved: int)
    requires s.cwnd > 0 && s.ssthresh > 0 && s.acked < ack && !(s.herWindowZero && window > 0)
    ensures var t, acked := HandleAck(s, ack, window).0, ack - s.acked;
            && t.cwnd == Min(moved, |s.buf|) && t.ssthresh == s.ssthresh
            && (s.cwnd < s.ssthresh && acked <= s.ssthresh ==> moved == s.cwnd + acked)
            && (s.cwnd < s.ssthresh && acked > s.ssthresh ==>
                  Quotient(moved - (s.cwnd + acked), (acked - s.ssthresh) * 1472, s.cwnd + acked))
            && (s.cwnd >= s.ssthresh ==> Quotient(moved - s.cwnd, acked * 1472, s.cwnd))
  {
    hide WriteAvail, RemovePackets, Shifted, Quotient;
    var u := NoteWindow(s, window);
    SP.WriteAvailFrame(Acknowledge(u, ack));
    var acked := ack - s.acked;
    var grown := if s.cwnd < s.ssthresh then s.cwnd + acked else s.cwnd;
    var more := if s.cwnd < s.ssthresh then acked - s.ssthresh else acked;
    QuotientIs(more * 1472, grown);
    moved := if more > 0 then grown + more * 1472 / grown else grown;
  }

  /** No other acknowledgement moves it, but for the fourth of the same number. */
  lemma AckLeavesWindow(s: Sender, ack: nat, window: nat)
    requires s.cwnd > 0 && s.ssthresh > 0
    requires ack < s.acked || (s.herWindowZero && window > 0) || (ack == s.acked && s.numAcks != 3)
    ensures var t := HandleAck(s, ack, window).0; t.cwnd == s.cwnd && t.ssthresh == s.ssthresh
  {
    hide WriteAvail, RemovePackets, Shifted, MovedCwnd;
    var u := NoteWindow(s, window);
    SP.WriteAvailFrame(u.(herWindowZero := false));
    if ack == s.acked {
      SP.WriteAvailFrame(Acknowledge(CountAck(u, ack), ack));
    }
  }

  // ---------- acknowledgements ----------

  /** The fourth acknowledgement of the same number repeats exactly the head of the queue, which starts at that number,
      marks it and halves the congestion window, to three packets above the new threshold. */
  lemma FourthDuplicate(s: Sender, window: nat, stream: seq<byte>)
    requires Good(s, stream) && s.queue != [] && s.numAcks == 3 && !(s.herWindowZero && window > 0)
    ensures Sane(s)
    ensures var (t, out) := HandleAck(s, s.acked, window);
            var half := Max(s.cwnd / 2, 1452);
            && |out| == 1 && IsHead(out[0], s, stream)
            && t == s.(rcvWindow := window, herWindowZero := s.herWindowZero || window == 0, numAcks := 4,
                       queue := [s.queue[0].(isRetrans := true)] + s.queue[1..], ssthresh := half, cwnd := half + 4356)
  {
    hide Good, Wire, IsHead, WriteAvail, Acknowledge;
    IsSane(s, stream);
    HeadWire(s, stream);
    var u := CountAck(NoteWindow(s, window), s.acked);
    SameWire(s, u, s.queue[0]);
  }

  /** The segment is the packet at the head of the queue: it carries the stream from `acked` to the packet's end, or
      is the FIN when that is all that is left. */
  predicate IsHead(g: Segment, s: Sender, stream: seq<byte>) {
    && s.queue != []
    && if s.queue[0].isFin then s.acked == |stream| && g == Fin(|stream|)
       else s.acked < s.queue[0].End() <= |stream| && g == Data(s.acked, stream[s.acked..s.queue[0].End()])
  }

  lemma IsSane(s: Sender, stream: seq<byte>)
    requires Good(s, stream)
    ensures Sane(s)
  {
  }

  lemma SameWire(s: Sender, t: Sender, p: Packet)
    requires t.buf == s.buf && t.acked == s.acked
    ensures Wire(t, p) == Wire(s, p)
  {
  }

  lemma HeadWire(s: Sender, stream: seq<byte>)
    requires Good(s, stream) && s.queue != []
    ensures IsHead(Wire(s, s.queue[0]), s, stream)
  {
    hide DataTiles, Sum, GoBackN;
    HeadStartsAtAcked(s, |stream|);
    HeadInBuffer(s, stream);
    WireRight(s, 0, stream);
  }

  /** An acknowledgement frees the head of the queue if it is for all of it. */
  predicate FreesHead(s: Sender, ack: nat) {
    s.queue != [] && if s.queue[0].isFin then s.queue[0].End() < ack else s.queue[0].End() <= ack
  }

  /** The fields of a sender whose cursors have moved to an acknowledgement, before it sends on. */
  predicate Moved(s: Sender, a: Sender, ack: nat, window: nat) {
    && a.acked == ack && a.sent == Max(s.sent, ack) && a.written == s.written
    && a.rcvWindow == window && a.herWindowZero == (s.herWindowZero || window == 0)
    && a.congested == (s.congested && !FreesHead(s, ack))
    && a.numAcks == (if FreesHead(s, ack) then 1 else if ack == s.acked then s.numAcks + 1 else s.numAcks)
    && a.state == s.state && a.finSent == s.finSent && a.closeCalled == s.closeCalled && a.scaleOption == s.scaleOption
    && |a.buf| == |s.buf| && (s.queue != [] && !FreesHead(s, ack) ==> a.queue != [])
  }

  lemma FreesHeadIs(q: seq<Packet>, ack: nat)
    ensures var (r, _, any) := RemovePackets(q, ack);
            && (any <==> q != [] && if q[0].isFin then q[0].End() < ack else q[0].End() <= ack)
            && (q != [] && !any ==> r != [])
  {
  }

  /** An acknowledgement that is not old, does not reopen the window and is not the fourth of its number is worked in:
      cursors, buffer and queue move to it, congestion and the count of duplicates end if it frees the head of the
      queue; then the sender sends on. FIN_WAIT_2 is entered exactly when the FIN is acknowledged. */
  lemma AckIsWorkedIn(s: Sender, ack: nat, window: nat, stream: seq<byte>) returns (a: Sender)
    requires Good(s, stream) && s.acked <= ack <= s.written && window < TWO_31
    requires !(s.herWindowZero && window > 0) && !(ack == s.acked && s.numAcks == 3)
    ensures Sane(s) && Moved(s, a, ack, window) && Good(a, stream) && Lag(a) == Lag(s)
    ensures var (t, out) := HandleAck(s, ack, window);
            var (v, more) := WriteAvail(a);
            && out == more && t == v.(state := t.state)
            && (t.state.FinWait2? <==> s.state.FinWait2? || (s.finSent && ack == |stream| + 1))
            && (!t.state.FinWait2? ==> t.state == v.state)
  {
    hide WriteAvail, Acknowledge, Moved, Good, Lag;
    var u := CountAck(NoteWindow(s, window), ack);
    FieldsKeep(s, ack, window, stream);
    AcknowledgeKeeps(u, ack, stream);
    a := Acknowledge(u, ack);
    AckMoves(s, ack, window);
    FinAckState(s, a, ack, window, stream);
  }

  lemma AckMoves(s: Sender, ack: nat, window: nat)
    requires s.acked <= ack && s.cwnd > 0 && s.ssthresh > 0
    ensures Moved(s, Acknowledge(CountAck(NoteWindow(s, window), ack), ack), ack, window)
  {
    hide RemovePackets, Shifted, MovedCwnd;
    FreesHeadIs(s.queue, ack);
  }

  lemma FinAckState(s: Sender, a: Sender, ack: nat, window: nat, stream: seq<byte>)
    requires Good(s, stream) && s.acked <= ack <= s.written && Moved(s, a, ack, window) && Good(a, stream)
    ensures var v := WriteAvail(a).0;
            && (AckedState(v, ack).FinWait2? <==> s.state.FinWait2? || (s.finSent && ack == |stream| + 1))
            && (!AckedState(v, ack).FinWait2? ==> AckedState(v, ack) == v.state)
  {
    hide WriteAvail, DataTiles, Sum, Buffered, GoBackN;
    WriteAvailKeeps(a, stream);
    if Open(a, |stream|) {
      if ack == |stream| && a.closeCalled {
        FinFollows(a, |stream|);
      }
    } else {
      WriteAvailIdle(a, |stream|);
    }
  }

  /** Any other one: an old one is ignored, and one that reopens the window only makes the sender send on. */
  lemma AckIsNotWorkedIn(s: Sender, ack: nat, window: nat)
    requires s.cwnd > 0 && s.ssthresh > 0
    ensures ack < s.acked ==> HandleAck(s, ack, window) == (s, [])
    ensures s.acked <= ack && s.herWindowZero && window > 0 ==>
              HandleAck(s, ack, window) == WriteAvail(s.(rcvWindow := window, herWindowZero := false))
  {
    hide WriteAvail, ProcessAck;
  }

  lemma Duplicate(s: Sender, window: nat, stream: seq<byte>)
    requires Good(s, stream) && s.queue != [] && s.numAcks != 3 && !s.herWindowZero && 0 < window < TWO_31
    ensures Sane(s)
    ensures var t := HandleAck(s, s.acked, window).0;
            && Good(t, stream) && t.queue != [] && t.acked == s.acked && t.numAcks == s.numAcks + 1 && !t.herWindowZero
  {
    hide Good, WriteAvail, HandleAck;
    AckInRange(s, stream);
    var a := AckIsWorkedIn(s, s.acked, window, stream);
    HandleAckKeeps(s, s.acked, window, stream);
    HeadIsLonger(s, stream);
    WriteAvailKeeps(a, stream);
    StaysQueued(a);
  }

  lemma AckInRange(s: Sender, stream: seq<byte>)
    requires Good(s, stream)
    ensures s.acked <= s.written
  {
  }

  lemma HeadIsLonger(s: Sender, stream: seq<byte>)
    requires Good(s, stream)
    ensures !FreesHead(s, s.acked)
  {
    if s.queue != [] {
      HeadStartsAtAcked(s, |stream|);
    }
  }

  lemma StaysQueued(s: Sender)
    requires s.queue != []
    ensures WriteAvail(s).0.queue != []
  {
    LoopAppends(s, Sendable(s));
  }

  /** Fast retransmit: after the acknowledgement that freed a packet, three more of the same number, with whatever open
      windows, repeat the packet at the head of the queue. */
  lemma FastRetransmitHappens(s: Sender, a: nat, b: nat, c: nat, stream: seq<byte>)
    requires Good(s, stream) && s.queue != [] && s.numAcks == 1 && !s.herWindowZero
    requires 0 < a < TWO_31 && 0 < b < TWO_31 && 0 < c < TWO_31
    ensures Sane(s)
    ensures var t := HandleAck(s, s.acked, a).0;
            && Sane(t)
            && var u := HandleAck(t, s.acked, b).0;
               && Sane(u) && u.queue != [] && u.acked == s.acked
               && |HandleAck(u, s.acked, c).1| == 1 && IsHead(HandleAck(u, s.acked, c).1[0], u, stream)
  {
    hide Good, HandleAck, IsHead;
    Duplicate(s, a, stream);
    var t := HandleAck(s, s.acked, a).0;
    Duplicate(t, b, stream);
    FourthDuplicate(HandleAck(t, s.acked, b).0, c, stream);
  }

  // ---------- timeouts and address changes ----------

  /** A timeout of the head repeats exactly it and rolls everything behind it back, the FIN included; the congestion
      window starts over at one packet, the threshold is half of what it was. */
  lemma TimeoutRepeatsHead(s: Sender, due: Packet -> bool, stream: seq<byte>)
    requires Good(s, stream)
    ensures Sane(s) && forall k :: 0 <= k < |s.queue| ==> s.queue[k].End() >= 0
    ensures s.queue == [] || !due(s.queue[0]) ==> HandleTimeout(s, due) == (s, [])
    ensures s.queue != [] && due(s.queue[0]) ==>
              var (t, out) := HandleTimeout(s, due);
              && |out| == 1 && IsHead(out[0], s, stream) && Lag(t) == Lag(s) && s.queue[0].End() >= 0
              && t == s.(queue := [s.queue[0].(isRetrans := true)], segSent := t.segSent, congested := true,
                         sent := s.queue[0].End(), finSent := s.queue[0].isFin,
                         written := if s.queue[0].isFin then |stream| + 1 else |stream|,
                         ssthresh := Max(s.cwnd / 2, 1452), cwnd := 1452)
  {
    hide DataTiles, Sum, Buffered, GoBackN, TimeoutLoop, Wire, IsHead, Right;
    TimeoutIsGoBackN(s, |stream|, due);
    HandleTimeoutKeeps(s, due, stream);
    if s.queue != [] {
      HeadWire(s, stream);
      HeadStartsAtAcked(s, |stream|);
    }
  }

  /** Once the FIN is acknowledged, or the connection closed, no timeout repeats anything, whatever is queued. */
  lemma {:induction false} NothingRepeatedWhenDone(s: Sender, i: nat, due: Packet -> bool)
    requires s.state.FinWait2? || s.state.Closed?
    requires s.cwnd >= 0 && forall k :: 0 <= k < |s.queue| ==> s.queue[k].End() >= 0
    ensures TimeoutLoop(s, i, due).1 == []
    decreases |s.queue| - i
  {
    if i < |s.queue| {
      if s.congested && !s.queue[i].isRetrans {
        NothingRepeatedWhenDone(Dropped(s, i), i, due);
      } else if due(s.queue[i]) {
        NothingRepeatedWhenDone(Resent(s, i), i + 1, due);
      }
    }
  }

  /** Resuming after an address change starts over with one packet and the own read buffer as the peer's window; what
      may go out then does. */
  lemma ResumeSends(s: Sender, stream: seq<byte>) returns (data: seq<Segment>)
    requires Good(s, stream) && Open(s, |stream|)
    ensures var (t, out) := ResumeAuth(s);
            var end := if t.finSent then t.sent - 1 else t.sent;
            var r := s.(rcvWindow := s.readBufLen, cwnd := 1452, segSent := 0);
            && t.rcvWindow == t.ssthresh == s.readBufLen && t.cwnd == 1452 && !t.congested && t.segSent == end - s.sent
            && out == data + (if t.finSent then [Fin(|stream|)] else []) && Sends(r, Allowed(r), data, end, stream)
            && (t.finSent <==> s.closeCalled && end == |stream|)
  {
    hide DataTiles, Sum, Buffered, GoBackN, Sends, SendLoop, Right, Sendable;
    SlowStartKeeps(s, stream);
    var r := SlowStart(s);
    data := WriteAvailSends(r, stream);
    SendableIs(r);
    SendLoopKeeps(r, Sendable(r), stream);
    var t := WriteAvail(r).0;
    SameSends(r, s.(rcvWindow := s.readBufLen, cwnd := 1452, segSent := 0), Allowed(r), data,
              if t.finSent then t.sent - 1 else t.sent, stream);
  }

  lemma SameSends(s: Sender, t: Sender, len: int, out: seq<Segment>, end: int, stream: seq<byte>)
    requires Sends(s, len, out, end, stream) && t.sent == s.sent && t.written == s.written && t.rcvWindow == s.rcvWindow
    requires t.closeCalled == s.closeCalled && t.scaleOption == s.scaleOption
    ensures Sends(t, len, out, end, stream)
  {
  }

  /** After RSP the head of the queue is repeated as well. */
  lemma ResumeRepeatsHead(s: Sender, stream: seq<byte>)
    requires Good(s, stream) && !FinRolledBack(s)
    ensures var (t, out) := ResumeRsp(s);
            var (u, more) := ResumeAuth(s);
            if u.queue == [] then t == u && out == more
            else
              && |out| == |more| + 1 && out[..|more|] == more && IsHead(out[|more|], u, stream) && u.acked == s.acked
              && t == u.(queue := [u.queue[0].(isRetrans := true)] + u.queue[1..])
  {
    hide Good, WriteAvail, Wire, IsHead, FinRolledBack;
    ResumeGood(s, stream);
    var u := ResumeAuth(s).0;
    if u.queue != [] {
      HeadWire(u, stream);
    }
  }

  // ---------- dtp_send ----------

  /** dtp_send takes what fits behind the written bytes, waits if nothing does, and refuses once a FIN was sent. */
  lemma SendAccepts(s: Sender, data: seq<byte>, stream: seq<byte>)
    requires Good(s, stream)
    ensures var room := |s.buf| - (|stream| - s.acked);
            Send(s, data).2 == if data == [] then Accepted(0)
                               else if Ended(s) then BrokenPipe
                               else if room == 0 then WouldBlock
                               else Accepted(if |data| <= room then |data| else room)
  {
    hide WriteAvail, Splice, DataTiles, Sum, Buffered, GoBackN;
  }
}
