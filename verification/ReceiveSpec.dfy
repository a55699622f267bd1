/** The receiving half of a D2TP connection as a value: the flat read buffer, the received
    intervals and the cursors, with the meaning of each handler and the invariant they keep.
 */
module ReceiveSpec {
  import opened DtpBase
  import opened Intervals

  /** The receive fields of dtp_context.
        buf       tc_readBuf, whose first byte is stream position `read`
        list      the intervals reachable from tc_readBufHead
        read      tc_lastByteRead
        expected  tc_nextByteExpected
        rcvd      tc_lastByteRcvd
        finRcvd   tc_isFINRcvd, which for a side that has not closed means CLOSE_WAIT
   */
  datatype RecvState = RecvState(buf: seq<byte>, list: IntervalList,
                                 read: nat, expected: nat, rcvd: nat, finRcvd: bool)
  {
    /** GetAckNumber */
    function AckNumber(): nat {
      expected + if finRcvd then 1 else 0
    }

    /** The end of the stretch the buffer can hold. */
    function Limit(): nat {
      read + |buf|
    }
  }

  datatype RecvOutcome = Bytes(data: seq<byte>) | WouldBlock

  /** List and cursors agree: a normal list inside [read, limit) whose head is [read, expected)
      once anything in order has arrived, and whose last interval ends at rcvd. */
  predicate Consistent(l: IntervalList, read: nat, limit: nat, expected: nat, rcvd: nat) {
    && Normal(l)
    && read <= expected <= limit
    && (l == [] ==> expected == read && rcvd == read)
    && (l != [] ==>
          && l[|l| - 1].End() <= limit
          && rcvd == l[|l| - 1].End()
          && (if expected == read then read < l[0].start else l[0] == Interval(read, expected - read)))
  }

  predicate Inv(s: RecvState) {
    Consistent(s.list, s.read, s.Limit(), s.expected, s.rcvd)
  }

  /** Every covered position holds the stream's byte; only a `wild` sender puts anything past the stream. */
  ghost predicate Agrees(s: RecvState, stream: seq<byte>, wild: bool) {
    forall q: nat :: Covers(s.list, q) ==> Holds(s.buf, s.read, stream, q) || (wild && q > |stream|)
  }

  /** The buffer, whose first byte is position `read`, holds the stream's byte at position q. */
  predicate Holds(buf: seq<byte>, read: nat, stream: seq<byte>, q: nat) {
    read <= q < read + |buf| && q < |stream| && buf[q - read] == stream[q]
  }

  /** The part of a packet that is new and fits the buffer: [AcceptStart, AcceptEnd). */
  function AcceptStart(s: RecvState, seqNum: nat): nat {
    Max(s.expected, seqNum)
  }

  function AcceptEnd(s: RecvState, seqNum: nat, len: nat): nat {
    Min(s.Limit(), seqNum + len)
  }

  /** The cursor after the head interval changed. */
  function Advance(l: IntervalList, expected: nat): nat {
    if l != [] && l[0].Has(expected) then l[0].End() else expected
  }

  function LastEnd(l: IntervalList, read: nat): nat {
    if l == [] then read else l[|l| - 1].End()
  }

  /** HandleNormalPacket: the new state and the value it returns. */
  function Accept(s: RecvState, seqNum: nat, payload: seq<byte>): (r: (RecvState, int))
    requires Inv(s)
  {
    var lo, hi := AcceptStart(s, seqNum), AcceptEnd(s, seqNum, |payload|);
    if hi <= lo then
      (s, hi - lo)
    else
      var x := Interval(lo, hi - lo);
      var list := Insert(s.list, x);
      (RecvState(Splice(s.buf, lo - s.read, payload[lo - seqNum..hi - seqNum]),
                 list, s.read, Advance(list, s.expected), LastEnd(list, s.read), s.finRcvd),
       x.len - Overlapped(s.list, x))
  }

  lemma AcceptParts(s: RecvState, seqNum: nat, payload: seq<byte>, lo: nat, hi: int)
    requires Inv(s) && lo == Max(s.expected, seqNum) && hi == Min(s.read + |s.buf|, seqNum + |payload|)
    ensures s.read <= s.expected <= lo && Normal(s.list) && (s.list != [] ==> s.rcvd == LastEnd(s.list, 0))
    ensures hi <= lo ==> Accept(s, seqNum, payload) == (s, hi - lo)
    ensures lo < hi ==>
              var x := Interval(lo, hi - lo);
              var list := Insert(s.list, x);
              && seqNum <= lo && hi - seqNum <= |payload| && hi - s.read <= |s.buf|
              && Accept(s, seqNum, payload) ==
                 (RecvState(Splice(s.buf, lo - s.read, payload[lo - seqNum..hi - seqNum]),
                            list, s.read, Advance(list, s.expected), LastEnd(list, s.read), s.finRcvd),
                  x.len - Overlapped(s.list, x))
  {
    hide Normal, Insert, Overlapped, Splice, Advance;
  }

  /** HandleFINPacket on a side that is established or already in CLOSE_WAIT. */
  function AcceptFin(s: RecvState, seqNum: nat): (r: RecvState) {
    if !s.finRcvd && seqNum != s.expected then s else s.(finRcvd := true)
  }

  /** The list after `len` bytes of its head were read. */
  function Drain(l: IntervalList, len: nat): (r: IntervalList)
    requires l != [] && len <= l[0].len
  {
    if len == l[0].len then l[1..] else [Interval(l[0].start + len, l[0].len - len)] + l[1..]
  }

  /** dtp_recv with MSG_PEEK as `peek`; a blocking wait is the outcome WouldBlock. */
  function Recv(s: RecvState, length: nat, peek: bool): (r: (RecvState, RecvOutcome))
    requires Inv(s)
  {
    var len := Min(length, s.expected - s.read);
    if len == 0 then
      (s, if length == 0 || s.finRcvd then Bytes([]) else WouldBlock)
    else if peek then
      (s, Bytes(s.buf[..len]))
    else
      var moveLen := s.rcvd - (s.read + len);
      (s.(read := s.read + len,
          list := Drain(s.list, len),
          buf := if moveLen > 0 then Slide(s.buf, len, moveLen) else s.buf),
       Bytes(s.buf[..len]))
  }

  lemma RecvParts(s: RecvState)
    requires Inv(s)
    ensures s.read <= s.expected <= s.rcvd <= s.Limit()
    ensures s.read < s.expected ==> s.list != [] && s.list[0] == Interval(s.read, s.expected - s.read)
  {
  }

  /** Reassembly: one packet adds exactly its new, fitting positions, and nothing else. */
  lemma AcceptCovers(s: RecvState, seqNum: nat, payload: seq<byte>, q: nat)
    requires Inv(s)
    ensures Covers(Accept(s, seqNum, payload).0.list, q) <==>
            Covers(s.list, q) || AcceptStart(s, seqNum) <= q < AcceptEnd(s, seqNum, |payload|)
  {
    var lo, hi := AcceptStart(s, seqNum), AcceptEnd(s, seqNum, |payload|);
    if lo < hi {
      InsertCovers(s.list, Interval(lo, hi - lo), q);
    }
  }

  /** The returned value, when positive, counts exactly the positions that were missing. */
  lemma AcceptReturnsNewBytes(s: RecvState, seqNum: nat, payload: seq<byte>)
    requires Inv(s)
    ensures var ret := Accept(s, seqNum, payload).1;
            var lo, hi := AcceptStart(s, seqNum), AcceptEnd(s, seqNum, |payload|);
            if hi <= lo then ret == hi - lo else ret == |Range(lo, hi) - Positions(s.list)|
  {
    var lo, hi := AcceptStart(s, seqNum), AcceptEnd(s, seqNum, |payload|);
    if lo < hi {
      var x := Interval(lo, hi - lo);
      FreshIsNewPositions(s.list, x);
      assert x.End() == hi;
    }
  }

  /** Inserting an interval at or after the cursor, inside the buffer, keeps list and cursors in step. */
  lemma InsertKeepsConsistent(l: IntervalList, read: nat, limit: nat, expected: nat, rcvd: nat, x: Interval)
    requires Consistent(l, read, limit, expected, rcvd)
    requires x.len > 0 && expected <= x.start && x.End() <= limit
    ensures var r := Insert(l, x);
            Consistent(r, read, limit, Advance(r, expected), LastEnd(r, read))
    ensures expected <= Advance(Insert(l, x), expected)
  {
    var r := Insert(l, x);
    assert Within(l, read, limit);
    InsertNormal(l, x, read, limit);
    if x.start == expected && read < expected {
      InsertFront(l[1..], Hull(x, l[0]));
    } else if x.start == expected {
      InsertFront(l, x);
    } else if read < expected {
      assert r == [l[0]] + Insert(l[1..], x);
    } else {
      HeadAfter(l, x, read);
    }
  }

  lemma {:induction false} HeadAfter(l: IntervalList, x: Interval, read: nat)
    requires Normal(l) && read < x.start && (l == [] || read < l[0].start)
    ensures Insert(l, x) != [] && read < Insert(l, x)[0].start
    decreases |l|
  {
    if l != [] && l[0].start <= x.End() && x.start <= l[0].End() {
      HeadAfter(l[1..], Hull(x, l[0]), read);
    }
  }

  /** The invariant survives every packet: no copy leaves the buffer, cursors and list agree again. */
  lemma AcceptKeepsInv(s: RecvState, seqNum: nat, payload: seq<byte>)
    requires Inv(s)
    ensures var t := Accept(s, seqNum, payload).0;
            Inv(t) && |t.buf| == |s.buf| && s.expected <= t.expected && t.read == s.read && t.finRcvd == s.finRcvd
  {
    var lo, hi := AcceptStart(s, seqNum), AcceptEnd(s, seqNum, |payload|);
    if lo < hi {
      InsertKeepsConsistent(s.list, s.read, s.Limit(), s.expected, s.rcvd, Interval(lo, hi - lo));
    }
  }

  /** tc_nextByteExpected is the first position that has not arrived. */
  lemma ExpectedIsFirstMissing(s: RecvState)
    requires Inv(s)
    ensures !Covers(s.list, s.expected)
    ensures forall q: nat :: s.read <= q < s.expected ==> Covers(s.list, q)
    ensures forall q: nat :: Covers(s.list, q) ==> s.read <= q < s.rcvd
  {
    if s.list != [] {
      FirstOfNormal(s.list);
      forall q: nat | s.read <= q < s.expected ensures Covers(s.list, q) {
        assert s.list[0].Has(q);
      }
    }
  }

  /** A packet that carries stream bytes, or lies past the stream, leaves every covered position right. */
  lemma AcceptAgrees(s: RecvState, seqNum: nat, payload: seq<byte>, stream: seq<byte>, wild: bool)
    requires Inv(s) && Agrees(s, stream, wild)
    requires || (seqNum + |payload| <= |stream| && payload == stream[seqNum..seqNum + |payload|])
             || (wild && seqNum > |stream|)
    ensures Agrees(Accept(s, seqNum, payload).0, stream, wild)
  {
    hide Covers, Holds, Accept, Inv;
    var t := Accept(s, seqNum, payload).0;
    forall q: nat | Covers(t.list, q) ensures Holds(t.buf, t.read, stream, q) || (wild && q > |stream|) {
      AcceptKeepsInv(s, seqNum, payload);
      if seqNum > |stream| {
        if q <= |stream| {
          PastByte(s, seqNum, payload, stream, q);
        }
      } else if Covers(s.list, q) ==> Holds(s.buf, s.read, stream, q) {
        AcceptedByte(s, seqNum, payload, stream, q);
      }
    }
  }

  lemma PastByte(s: RecvState, seqNum: nat, payload: seq<byte>, stream: seq<byte>, q: nat)
    requires Inv(s) && (Covers(s.list, q) ==> Holds(s.buf, s.read, stream, q))
    requires q <= |stream| < seqNum && Covers(Accept(s, seqNum, payload).0.list, q)
    ensures Holds(Accept(s, seqNum, payload).0.buf, s.read, stream, q)
  {
    hide Normal, Covers, Insert, Overlapped, Splice;
    AcceptCovers(s, seqNum, payload, q);
  }

  lemma AcceptedByte(s: RecvState, seqNum: nat, payload: seq<byte>, stream: seq<byte>, q: nat)
    requires Inv(s) && (Covers(s.list, q) ==> Holds(s.buf, s.read, stream, q))
    requires seqNum + |payload| <= |stream| && payload == stream[seqNum..seqNum + |payload|]
    requires Covers(Accept(s, seqNum, payload).0.list, q)
    ensures Holds(Accept(s, seqNum, payload).0.buf, s.read, stream, q)
  {
    hide Normal, Covers, Insert, Overlapped, Splice;
    AcceptCovers(s, seqNum, payload, q);
    var lo, hi := AcceptStart(s, seqNum), AcceptEnd(s, seqNum, |payload|);
    if lo <= q < hi {
      SliceAt(payload, lo - seqNum, hi - seqNum, q - lo);
      SliceAt(stream, seqNum, seqNum + |payload|, q - seqNum);
    }
  }

  lemma SliceAt(s: seq<byte>, lo: nat, hi: nat, i: nat)
    requires lo + i < hi <= |s|
    ensures s[lo..hi][i] == s[lo + i]
  {
  }

  lemma DrainCovers(l: IntervalList, len: nat, q: nat)
    requires Normal(l) && l != [] && 0 < len <= l[0].len
    ensures Normal(Drain(l, len))
    ensures Covers(Drain(l, len), q) <==> Covers(l, q) && l[0].start + len <= q
  {
    CoversSplit(l, q);
    var d := Drain(l, len);
    if len < l[0].len {
      CoversSplit(d, q);
      assert d[1..] == l[1..];
    }
    if Covers(l[1..], q) {
      var i :| 0 <= i < |l[1..]| && l[1..][i].Has(q);
      assert l[0].End() < l[i + 1].start;
    }
  }

  lemma DrainKeepsConsistent(l: IntervalList, read: nat, limit: nat, expected: nat, rcvd: nat, len: nat)
    requires Consistent(l, read, limit, expected, rcvd)
    requires 0 < len <= expected - read
    ensures len <= l[0].len
    ensures Consistent(Drain(l, len), read + len, limit + len, expected, rcvd)
  {
    var d := Drain(l, len);
    assert len < l[0].len ==> d[1..] == l[1..];
  }

  /** Reading slides the window and leaves the cursors in step. */
  lemma RecvKeepsInv(s: RecvState, length: nat, peek: bool)
    requires Inv(s)
    ensures var t := Recv(s, length, peek).0;
            Inv(t) && |t.buf| == |s.buf| && t.expected == s.expected && t.finRcvd == s.finRcvd && s.read <= t.read
  {
    hide Normal, Drain, Slide;
    var len := Min(length, s.expected - s.read);
    if len > 0 && !peek {
      DrainKeepsConsistent(s.list, s.read, s.Limit(), s.expected, s.rcvd, len);
    }
  }

  /** The bytes handed out are the next bytes of the stream, and the rest keeps its place in it. */
  lemma RecvAgrees(s: RecvState, length: nat, peek: bool, stream: seq<byte>, wild: bool)
    requires Inv(s) && Agrees(s, stream, wild) && s.expected <= |stream|
    ensures var (t, out) := Recv(s, length, peek);
            && Agrees(t, stream, wild)
            && (out == WouldBlock <==> length > 0 && s.expected == s.read && !s.finRcvd)
            && (out == WouldBlock ==> t == s)
            && (out.Bytes? ==>
                  && s.read + |out.data| <= s.expected
                  && out.data == stream[s.read..s.read + |out.data|]
                  && t.read == if peek then s.read else s.read + |out.data|)
  {
    hide Normal, Covers, Drain, Slide, Inv;
    ExpectedIsFirstMissing(s);
    RecvParts(s);
    var len := Min(length, s.expected - s.read);
    assert s.buf[..len] == stream[s.read..s.read + len] by {
      forall i | 0 <= i < len ensures s.buf[i] == stream[s.read + i] {
        assert Covers(s.list, s.read + i) && Holds(s.buf, s.read, stream, s.read + i);
      }
    }
    if len > 0 && !peek {
      SlideAgrees(s, length, stream, wild);
    }
  }

  lemma SlideAgrees(s: RecvState, length: nat, stream: seq<byte>, wild: bool)
    requires Inv(s) && Agrees(s, stream, wild) && 0 < Min(length, s.expected - s.read)
    ensures Agrees(Recv(s, length, false).0, stream, wild)
  {
    hide Covers, Holds, Recv, Inv;
    var t := Recv(s, length, false).0;
    forall q: nat | Covers(t.list, q) ensures Holds(t.buf, t.read, stream, q) || (wild && q > |stream|) {
      if Covers(s.list, q) ==> Holds(s.buf, s.read, stream, q) {
        SlidByte(s, length, stream, q);
      }
    }
  }

  lemma SlidByte(s: RecvState, length: nat, stream: seq<byte>, q: nat)
    requires Inv(s) && (Covers(s.list, q) ==> Holds(s.buf, s.read, stream, q))
    requires 0 < Min(length, s.expected - s.read)
    requires Covers(Recv(s, length, false).0.list, q)
    ensures Holds(Recv(s, length, false).0.buf, Recv(s, length, false).0.read, stream, q)
  {
    hide Normal, Covers, Drain, Slide;
    var t := Recv(s, length, false).0;
    var len := Min(length, s.expected - s.read);
    RecvKeepsInv(s, length, false);
    ExpectedIsFirstMissing(t);
    DrainCovers(s.list, len, q);
    SlideAt(s.buf, len, s.rcvd - t.read, q - t.read);
  }

  /** What is covered after a read: what was, from the new position on. */
  lemma RecvCovers(s: RecvState, length: nat, peek: bool, q: nat)
    requires Inv(s)
    ensures var t := Recv(s, length, peek).0; Covers(t.list, q) <==> Covers(s.list, q) && t.read <= q
  {
    hide Normal, Covers, Drain, Slide;
    var len := Min(length, s.expected - s.read);
    ExpectedIsFirstMissing(s);
    if len > 0 && !peek {
      DrainCovers(s.list, len, q);
    }
  }

  // ---------- the order of arrival ----------

  datatype Arrival = Arrival(at: nat, payload: seq<byte>) {
    predicate Has(q: nat) {
      at <= q < at + |payload|
    }
  }

  /** The state after packets arrived in this order. */
  function AcceptAll(s: RecvState, packets: seq<Arrival>): (r: RecvState)
    requires Inv(s)
    ensures Inv(r) && r.read == s.read && |r.buf| == |s.buf| && r.finRcvd == s.finRcvd
    decreases |packets|
  {
    if packets == [] then s
    else
      AcceptKeepsInv(s, packets[0].at, packets[0].payload);
      AcceptAll(Accept(s, packets[0].at, packets[0].payload).0, packets[1..])
  }

  ghost predicate Brought(packets: seq<Arrival>, q: nat) {
    exists i :: 0 <= i < |packets| && packets[i].Has(q)
  }

  lemma BroughtSplit(packets: seq<Arrival>, q: nat)
    requires packets != []
    ensures Brought(packets, q) <==> packets[0].Has(q) || Brought(packets[1..], q)
  {
    if Brought(packets[1..], q) {
      var i :| 0 <= i < |packets| - 1 && packets[1..][i].Has(q);
      assert packets[i + 1].Has(q);
    }
    if Brought(packets, q) && !packets[0].Has(q) {
      var i :| 0 <= i < |packets| && packets[i].Has(q);
      assert packets[1..][i - 1].Has(q);
    }
  }

  /** What is covered after any packets: what was, and what they brought from nextByteExpected to the end of the
      buffer. */
  lemma {:induction false} AcceptAllCovers(s: RecvState, packets: seq<Arrival>, q: nat)
    requires Inv(s)
    ensures Covers(AcceptAll(s, packets).list, q) <==>
            Covers(s.list, q) || (s.expected <= q < s.Limit() && Brought(packets, q))
    decreases |packets|
  {
    hide Covers, Accept, Inv;
    if packets != [] {
      var p := packets[0];
      var t := Accept(s, p.at, p.payload).0;
      AcceptKeepsInv(s, p.at, p.payload);
      AcceptCovers(s, p.at, p.payload, q);
      BroughtSplit(packets, q);
      RecvParts(s);
      ExpectedIsFirstMissing(s);
      ExpectedIsFirstMissing(t);
      AcceptAllCovers(t, packets[1..], q);
    }
  }

  /** The order of arrival, and duplicates, do not matter: the same packets leave the same list and cursors. */
  lemma OrderDoesNotMatter(s: RecvState, a: seq<Arrival>, b: seq<Arrival>)
    requires Inv(s) && forall p :: p in a <==> p in b
    ensures var x, y := AcceptAll(s, a), AcceptAll(s, b);
            x.list == y.list && x.expected == y.expected && x.rcvd == y.rcvd && x.read == y.read
  {
    hide AcceptAll, Brought;
    var x, y := AcceptAll(s, a), AcceptAll(s, b);
    forall q: nat ensures Covers(x.list, q) <==> Covers(y.list, q) {
      AcceptAllCovers(s, a, q);
      AcceptAllCovers(s, b, q);
      SameBrought(a, b, q);
    }
    NormalFormIsUnique(x.list, y.list);
    SameCursors(x, y);
  }

  lemma SameBrought(a: seq<Arrival>, b: seq<Arrival>, q: nat)
    requires forall p :: p in a <==> p in b
    ensures Brought(a, q) <==> Brought(b, q)
  {
    if Brought(a, q) {
      var i :| 0 <= i < |a| && a[i].Has(q);
      assert a[i] in b;
    }
    if Brought(b, q) {
      var i :| 0 <= i < |b| && b[i].Has(q);
      assert b[i] in a;
    }
  }

  /** List and reading position determine the cursors. */
  lemma SameCursors(x: RecvState, y: RecvState)
    requires Inv(x) && Inv(y) && x.list == y.list && x.read == y.read
    ensures x.expected == y.expected && x.rcvd == y.rcvd
  {
  }

  /** If the packets carry bytes of one stream, the bytes at every covered position are the same too. */
  lemma {:induction false} AcceptAllAgrees(s: RecvState, packets: seq<Arrival>, stream: seq<byte>)
    requires Inv(s) && Agrees(s, stream, false)
    requires forall p :: p in packets ==> p.at + |p.payload| <= |stream| && p.payload == stream[p.at..p.at + |p.payload|]
    ensures Agrees(AcceptAll(s, packets), stream, false)
    decreases |packets|
  {
    hide Accept, Inv, Agrees;
    if packets != [] {
      var p := packets[0];
      AcceptKeepsInv(s, p.at, p.payload);
      AcceptAgrees(s, p.at, p.payload, stream, false);
      AcceptAllAgrees(Accept(s, p.at, p.payload).0, packets[1..], stream);
    }
  }

  // ---------- receiving and reading everything ----------

  /** A packet with the first missing byte moves nextByteExpected if there is room. */
  lemma MissingArrives(s: RecvState, payload: seq<byte>)
    requires Inv(s) && s.read == s.expected && |s.buf| > 0 && payload != []
    ensures var t := Accept(s, s.expected, payload).0;
            t.expected > s.expected && |t.buf| == |s.buf| && t.finRcvd == s.finRcvd
  {
    hide Inv, Covers, Accept;
    AcceptKeepsInv(s, s.expected, payload);
    AcceptCovers(s, s.expected, payload, s.expected);
    ExpectedIsFirstMissing(Accept(s, s.expected, payload).0);
  }

  /** A packet at the end of everything received and read moves nextByteExpected as far as there is room. */
  lemma NextAccepted(r: RecvState, n: nat, payload: seq<byte>)
    requires r == RecvState(r.buf, [], n, n, n, r.finRcvd) && |r.buf| > 0 && payload != [] && Inv(r)
    ensures var t := Accept(r, n, payload).0;
            && t.expected == n + Min(|r.buf|, |payload|) && t.finRcvd == r.finRcvd && t.read == n
            && |t.buf| == |r.buf| && t.buf[0] == payload[0] && Inv(t)
  {
    hide Accept, Normal, Inv, Overlapped;
    var x := Interval(n, Min(|r.buf|, |payload|));
    assert Insert([], x) == [x];
    AcceptParts(r, n, payload, n, x.End());
    AcceptKeepsInv(r, n, payload);
  }

  /** A receiver that has everything can read everything, and then nothing is left. */
  lemma EverythingRead(r: RecvState, stream: seq<byte>)
    requires Inv(r) && Agrees(r, stream, false) && r.expected == |stream|
    ensures var (t, out) := Recv(r, |stream|, false);
            && t == RecvState(t.buf, [], |stream|, |stream|, |stream|, r.finRcvd) && |t.buf| == |r.buf| && Inv(t)
            && stream[..r.read] + (if out.Bytes? then out.data else []) == stream
  {
    hide Recv, Agrees, Covers;
    var n := |stream|;
    var (t, out) := Recv(r, n, false);
    RecvKeepsInv(r, n, false);
    RecvAgrees(r, n, false, stream, false);
    NothingCovered(t, stream);
    AmountRead(r, n, false);
  }

  /** A read hands out as much as there is in order, up to what is asked for; a peek leaves everything as it was. */
  lemma AmountRead(s: RecvState, n: nat, peek: bool)
    requires Inv(s)
    ensures var (t, out) := Recv(s, n, peek);
            && (out.Bytes? ==> |out.data| == Min(n, s.expected - s.read))
            && (if peek then t == s else t.read == s.read + Min(n, s.expected - s.read))
  {
    hide Normal, Drain, Slide;
  }

  lemma NothingCovered(t: RecvState, stream: seq<byte>)
    requires Inv(t) && Agrees(t, stream, false) && t.expected == |stream|
    ensures t.read == |stream| ==> t.list == [] && t.rcvd == |stream|
  {
    if t.list != [] {
      HeadIsCovered(t.list);
    }
  }

  lemma HeadIsCovered(l: IntervalList)
    requires Normal(l) && l != []
    ensures Covers(l, l[0].start)
  {
    assert l[0].Has(l[0].start);
  }

  lemma SlideAt(buf: seq<byte>, from: nat, len: nat, i: nat)
    requires from + len <= |buf| && i < len
    ensures Slide(buf, from, len)[i] == buf[from + i]
  {
  }
}
