/** The receiving half in its own form: a byte array, a singly linked list of received intervals
    that HandleNormalPacket merges in place, and the cursors of dtp_context.
 */
module ReadBuffer {
  import opened DtpBase
  import opened Intervals
  import opened ReceiveSpec

  /** struct buffer */
  class Node {
    var start: nat
    var len: nat
    var next: Node?

    constructor (start: nat, len: nat)
      ensures this.start == start && this.len == len && next == null
    {
      this.start, this.len, next := start, len, null;
    }

    ghost function Value(): Interval
      reads this
    {
      Interval(start, len)
    }

    /** CalculateOverlap: if [start, start + len) touches this node, grow the node to their hull. */
    method CalculateOverlap(start: nat, len: nat) returns (touches: bool, overlap: int)
      modifies this
      ensures overlap == Shared(Interval(start, len), old(Value()))
      ensures touches <==> overlap >= 0
      ensures Value() == if touches then Hull(Interval(start, len), old(Value())) else old(Value())
      ensures next == old(next)
    {
      var lo, hi := Max(start, this.start), Min(start + len, this.start + this.len);
      overlap := hi - lo;
      touches := overlap >= 0;
      if touches {
        this.len := Max(this.start + this.len, start + len) - Min(this.start, start);
        this.start := Min(this.start, start);
      }
    }
  }

  /** `nodes` is the list that starts at `head`. */
  ghost predicate Chain(head: Node?, nodes: seq<Node>)
    reads nodes
  {
    && (forall i, j :: 0 <= i < j < |nodes| ==> nodes[i] != nodes[j])
    && head == At(nodes, 0)
    && (forall i {:trigger nodes[i].next} :: 0 <= i < |nodes| ==> nodes[i].next == At(nodes, i + 1))
  }

  /** Node number i, or null outside the list. */
  ghost function At(nodes: seq<Node>, i: int): Node? {
    if 0 <= i < |nodes| then nodes[i] else null
  }

  ghost function Values(nodes: seq<Node>): (l: IntervalList)
    reads nodes
    ensures |l| == |nodes|
    ensures forall i :: 0 <= i < |nodes| ==> l[i] == nodes[i].Value()
  {
    seq(|nodes|, i requires 0 <= i < |nodes| reads nodes => nodes[i].Value())
  }

  class ReadBuffer {
    var readBuf: array<byte>
    var head: Node?
    var lastByteRead: nat
    var nextByteExpected: nat
    var lastByteRcvd: nat
    var isFinRcvd: bool
    ghost var nodes: seq<Node>

    ghost function View(): RecvState
      reads this, readBuf, nodes
    {
      RecvState(readBuf[..], Values(nodes), lastByteRead, nextByteExpected, lastByteRcvd, isFinRcvd)
    }

    ghost predicate Valid()
      reads this, readBuf, nodes
    {
      Chain(head, nodes) && Inv(View())
    }

    constructor (readBufLen: nat)
      ensures Valid() && fresh(readBuf)
      ensures View().list == [] && View().read == 0 && |View().buf| == readBufLen && !View().finRcvd
    {
      readBuf := new byte[readBufLen];
      head := null;
      lastByteRead, nextByteExpected, lastByteRcvd := 0, 0, 0;
      isFinRcvd := false;
      nodes := [];
    }

    /** Node `temp`, number j, has taken over from `cur`: unlink `cur` if it was on the list and give
        it back. */
    method Retire(cur: Node, temp: Node, prev: Node?, pprev: Node?,
                  ghost list: IntervalList, ghost i: nat, ghost j: nat, ghost merged: bool) returns (prev': Node?)
      requires i <= j < |nodes| && temp == nodes[j]
      requires Pointers(nodes, i, j, merged, cur, temp, prev, pprev)
      requires Split(head, nodes, list, i, j, j + 1, merged, cur)
      modifies `head, cur, pprev
      ensures Split(head, nodes, list, i, j + 1, j + 1, true, temp)
      ensures prev' == At(nodes, i - 1) && temp.next == old(temp.next)
    {
      prev' := prev;
      if prev == cur {
        if pprev != null {
          pprev.next := temp;
        } else {
          head := temp;
        }
        prev' := pprev;
      }
      cur.start, cur.len, cur.next := 0, 0, null;
    }

    /** The body of the walk, at node `temp` with number j: if it touches the current node it grows
        and takes over. */
    method Visit(cur: Node, temp: Node, prev: Node?, pprev: Node?, writeLen: int, merged: bool,
                 ghost list: IntervalList, ghost i: nat, ghost j: nat)
      returns (cur': Node, temp': Node?, prev': Node?, pprev': Node?, writeLen': int, merged': bool, ghost i': nat)
      requires i <= j < |nodes| && temp == nodes[j] && Walking(head, nodes, list, i, j, merged, cur, temp, prev, pprev)
      requires |list| == |nodes| && temp.start <= cur.start + cur.len
      requires merged ==> Increasing(list, j) && cur.start <= list[j - 1].start
      modifies `head, temp, cur, pprev
      ensures i' <= j + 1 && Walking(head, nodes, list, i', j + 1, merged', cur', temp', prev', pprev')
      ensures if merged' then cur'.start <= list[j].start else !merged && cur' == cur && cur.next == old(cur.next)
      ensures WalkFrom(list, i', j + 1, merged', cur'.Value(), writeLen') ==
              WalkFrom(list, i, j, merged, old(cur.Value()), writeLen)
    {
      hide WalkFrom, Increasing;
      VisitFacts(list, i, j, merged, cur.Value(), writeLen);
      cur', prev', writeLen', merged', i' := cur, prev, writeLen, merged, i;
      var touches, overlap := temp.CalculateOverlap(cur.start, cur.len);
      if touches {
        if overlap > 0 {
          writeLen' := writeLen - overlap;
        }
        prev' := Retire(cur, temp, prev, pprev, list, i, j, merged);
        cur' := temp;
        merged' := true;
      } else {
        i' := i + 1;
      }
      pprev', prev', temp' := prev', temp, temp.next;
    }

    /** The list walk of HandleNormalPacket. Afterwards nodes [0, i) stay, `cur` follows them if
        anything was merged, and nodes [j, ..) come after. */
    method Walk(added: Node, ghost list: IntervalList, ghost goal: Walked)
      returns (cur: Node, writeLen: int, merged: bool, temp: Node?, prev: Node?, pprev: Node?, ghost i: nat, ghost j: nat)
      requires Walking(head, nodes, list, 0, 0, false, added, head, null, null) && added.next == null
      requires |list| == |nodes|
      requires forall t :: 0 < t < |list| ==> Increasing(list, t)
      requires goal == WalkFrom(list, 0, 0, false, added.Value(), added.len)
      modifies `head, nodes, added
      ensures i <= j <= |nodes| && Walking(head, nodes, list, i, j, merged, cur, temp, prev, pprev)
      ensures !merged ==> cur == added && cur.next == null
      ensures Walked(i, j, merged, cur.Value(), writeLen) == goal
    {
      hide Split;
      cur := added;
      writeLen := added.len;
      merged := false;
      temp, prev, pprev := head, null, null;
      i, j := 0, 0;
      while temp != null && temp.start <= cur.start + cur.len
        invariant i <= j <= |nodes| && Walking(head, nodes, list, i, j, merged, cur, temp, prev, pprev)
        invariant if merged then j > 0 && cur.start <= list[j - 1].start else cur == added && cur.next == null
        invariant WalkFrom(list, i, j, merged, cur.Value(), writeLen) == goal
        decreases |nodes| - j
      {
        NodeIs(head, nodes, list, i, j, merged, cur);
        assert j > 0 ==> Increasing(list, j);
        cur, temp, prev, pprev, writeLen, merged, i := Visit(cur, temp, prev, pprev, writeLen, merged, list, i, j);
        j := j + 1;
      }
      NodeIs(head, nodes, list, i, j, merged, cur);
    }

    /** Nothing touched the new node: link it in where the walk stopped. */
    method LinkIn(cur: Node, temp: Node?, prev: Node?, ghost list: IntervalList, ghost i: nat)
      requires i <= |nodes| && Split(head, nodes, list, i, i, i, false, cur)
      requires temp == At(nodes, i) && prev == At(nodes, i - 1) && cur !in nodes && cur.next == null
      requires i > 0 ==> list[0].End() < cur.start
      requires i == 0 && list != [] ==> cur.start < list[0].End()
      modifies `head, prev, cur
      ensures Split(head, nodes, list, i, i, i, true, cur) && cur.Value() == old(cur.Value())
    {
      if head == null {
        head := cur;
      } else if cur.start < head.start + head.len {
        cur.next := head;
        head := cur;
      } else {
        prev.next := cur;
        cur.next := temp;
      }
    }

    /** What holds before the walk, and what its outcome will mean. */
    lemma StartWalk(head: Node?, nodes: seq<Node>, list: IntervalList, added: Node, goal: Walked)
      requires Chain(head, nodes) && list == Values(nodes) && Normal(list) && added !in nodes && added.len > 0
      requires goal == WalkFrom(list, 0, 0, false, added.Value(), added.len)
      ensures Walking(head, nodes, list, 0, 0, false, added, head, null, null)
      ensures forall t :: 0 < t < |list| ==> Increasing(list, t)
      ensures Merged(list, added.Value(), goal)
    {
      WalkFromInserts(list, added.Value());
    }

    /** The list update of HandleNormalPacket: afterwards the list is the old one with the new
        interval inserted, and `cur` is the node that holds it. */
    method MergeNode(added: Node) returns (cur: Node, writeLen: int)
      requires Chain(head, nodes) && Normal(Values(nodes))
      requires added !in nodes && added.next == null && added.len > 0
      modifies `head, `nodes, nodes, added
      ensures Chain(head, nodes) && (forall n :: n in nodes ==> n in old(nodes) || n == added)
      ensures Values(nodes) == Insert(old(Values(nodes)), old(added.Value()))
      ensures writeLen == old(added.len) - Overlapped(old(Values(nodes)), old(added.Value()))
      ensures cur in nodes
      ensures LastEnd(Values(nodes), 0) == if cur.next == null then cur.start + cur.len else LastEnd(old(Values(nodes)), 0)
      ensures nodes != [] && (cur.next != null ==> old(nodes) != [])
    {
      hide Insert, Overlapped, WalkFrom, Increasing, Normal, Split, Values, Replaced, LastEnd, Chain;
      ghost var list, i, j := Values(nodes), 0, 0;
      ghost var goal := WalkFrom(list, 0, 0, false, added.Value(), added.len);
      StartWalk(head, nodes, list, added, goal);
      var merged, temp, prev, pprev;
      cur, writeLen, merged, temp, prev, pprev, i, j :=
        Walk(added, list, goal);
      if !merged {
        LinkIn(cur, temp, prev, list, i);
      }
      JoinedChain(head, nodes, list, i, j, cur);
      JoinedValues(head, nodes, list, i, j, cur);
      nodes := Replaced(nodes, i, j, cur);
    }

    /** The end of HandleNormalPacket: move the cursors over the changed list. */
    method MoveCursors(cur: Node)
      requires Chain(head, nodes) && nodes != []
      requires LastEnd(Values(nodes), 0) == if cur.next == null then cur.start + cur.len else lastByteRcvd
      modifies `nextByteExpected, `lastByteRcvd
      ensures nextByteExpected == Advance(Values(nodes), old(nextByteExpected))
      ensures lastByteRcvd == LastEnd(Values(nodes), 0)
    {
      if head != null && head.start <= nextByteExpected < head.start + head.len {
        nextByteExpected := head.start + head.len;
      }
      if cur.next == null {
        lastByteRcvd := cur.start + cur.len;
      }
    }

    /** Copy `part` to its place and record it: the branch of HandleNormalPacket that stores bytes. */
    method Store(start: nat, part: seq<byte>) returns (writeLen: int)
      requires Chain(head, nodes) && Normal(Values(nodes)) && part != []
      requires lastByteRead <= start && start - lastByteRead + |part| <= readBuf.Length
      requires nodes != [] ==> lastByteRcvd == LastEnd(Values(nodes), 0)
      modifies `head, `nodes, `nextByteExpected, `lastByteRcvd, readBuf, nodes
      ensures Chain(head, nodes) && nodes != [] && (forall n :: n in nodes ==> n in old(nodes) || fresh(n))
      ensures readBuf[..] == Splice(old(readBuf[..]), start - lastByteRead, part)
      ensures Values(nodes) == Insert(old(Values(nodes)), Interval(start, |part|))
      ensures writeLen == |part| - Overlapped(old(Values(nodes)), Interval(start, |part|))
      ensures nextByteExpected == Advance(Values(nodes), old(nextByteExpected))
      ensures lastByteRcvd == LastEnd(Values(nodes), 0)
    {
      hide Insert, Overlapped, Normal, Splice, Advance, Chain, Values, LastEnd;
      ghost var list := Values(nodes);
      Memcpy(readBuf, start - lastByteRead, part);
      ghost var copied := readBuf[..];
      var cur := new Node(start, |part|);
      assert Values(nodes) == list;
      cur, writeLen := MergeNode(cur);
      assert readBuf[..] == copied;
      MoveCursors(cur);
    }

    /** HandleNormalPacket: copy the part of the packet that is new and fits, record it in the list,
        move the cursors, and report how many bytes were missing before. */
    method HandleNormalPacket(seqNum: nat, payload: seq<byte>) returns (writeLen: int)
      requires Valid()
      modifies this, readBuf, nodes
      ensures Valid() && readBuf == old(readBuf)
      ensures forall n :: n in nodes ==> n in old(nodes) || fresh(n)
      ensures (View(), writeLen) == Accept(old(View()), seqNum, payload)
    {
      hide Insert, Overlapped, Inv, Normal, Splice, Advance, Chain, Accept;
      ghost var before := View();
      var start := Max(nextByteExpected, seqNum);
      var end := Min(lastByteRead + readBuf.Length, seqNum + |payload|);
      AcceptKeepsInv(before, seqNum, payload);
      AcceptParts(before, seqNum, payload, start, end);
      writeLen := end - start;
      if writeLen > 0 {
        writeLen := Store(start, payload[start - seqNum..end - seqNum]);
      }
    }

    /** Take `len` bytes off the head interval and give the node back if nothing is left of it. */
    method DrainHead(len: nat)
      requires Chain(head, nodes) && nodes != [] && len <= nodes[0].len
      modifies `head, `nodes, head
      ensures Chain(head, nodes) && (forall n :: n in nodes ==> n in old(nodes))
      ensures Values(nodes) == Drain(old(Values(nodes)), len)
    {
      ghost var list := Values(nodes);
      head.start, head.len := head.start + len, head.len - len;
      assert Values(nodes) == [Interval(list[0].start + len, list[0].len - len)] + list[1..];
      if head.len == 0 {
        FreeHead();
      }
    }

    /** The head leaves the list and is given back. */
    method FreeHead()
      requires Chain(head, nodes) && nodes != []
      modifies `head, `nodes, head
      ensures Chain(head, nodes) && nodes == old(nodes)[1..] && Values(nodes) == old(Values(nodes))[1..]
    {
      var b := head;
      head := head.next;
      b.start, b.len, b.next := 0, 0, null;
      nodes := nodes[1..];
    }

    /** dtp_recv: hand out bytes that have arrived in order and, unless peeking, slide the window. The
        asserted facts are the ones the original tests and exits on. */
    method Recv(length: nat, peek: bool) returns (out: RecvOutcome)
      requires Valid()
      modifies this, readBuf, nodes
      ensures Valid() && readBuf == old(readBuf)
      ensures forall n :: n in nodes ==> n in old(nodes)
      ensures (View(), out) == ReceiveSpec.Recv(old(View()), length, peek)
    {
      hide Inv, Normal, Slide, Chain, Values, Drain;
      ghost var before := View();
      RecvKeepsInv(before, length, peek);
      RecvParts(before);
      var len := Min(length, nextByteExpected - lastByteRead);
      if len == 0 {
        out := if length == 0 || isFinRcvd then Bytes([]) else WouldBlock;
      } else {
        HeadIs(head, nodes);
        assert lastByteRead == head.start && len <= head.len;
        out := Bytes(readBuf[..len]);
        if !peek {
          lastByteRead := lastByteRead + len;
          DrainHead(len);
          var moveLen := lastByteRcvd - lastByteRead;
          if moveLen > 0 {
            MemmoveToFront(readBuf, len, moveLen);
          }
        }
      }
    }

    /** HandleFINPacket on a side that has not closed: a FIN counts once everything before it is in. */
    method HandleFin(seqNum: nat)
      requires Valid()
      modifies `isFinRcvd
      ensures Valid() && View() == AcceptFin(old(View()), seqNum)
    {
      hide Consistent, Chain, Values;
      if !isFinRcvd && seqNum != nextByteExpected {
        return;
      }
      isFinRcvd := true;
    }
  }

  lemma HeadIs(head: Node?, nodes: seq<Node>)
    requires Chain(head, nodes) && Values(nodes) != []
    ensures nodes != [] && head == nodes[0] && Values(nodes)[0] == head.Value()
  {
  }

  /** The walk at node number j: the heap is split there and the loop's pointers are where they should be. */
  ghost predicate Walking(head: Node?, nodes: seq<Node>, list: IntervalList, i: nat, j: nat, merged: bool,
                          cur: Node, temp: Node?, prev: Node?, pprev: Node?)
    requires i <= j <= |nodes|
    reads nodes, cur
  {
    Pointers(nodes, i, j, merged, cur, temp, prev, pprev) && Split(head, nodes, list, i, j, j, merged, cur)
  }

  ghost predicate Pointers(nodes: seq<Node>, i: nat, j: nat, merged: bool, cur: Node, temp: Node?, prev: Node?, pprev: Node?)
    requires i <= j <= |nodes|
  {
    && temp == At(nodes, j)
    && (if merged then i < j && cur == nodes[j - 1] && prev == cur && pprev == At(nodes, i - 1)
        else i == j && cur !in nodes && prev == At(nodes, i - 1) && pprev == At(nodes, i - 2))
  }

  /** The heap during the walk: nodes [0, i) and [j, ..) are linked as they were, the former lead to
      the current node once something was merged, and to node j before that; nodes [0, i) and
      [v, ..) have the values of `list`. */
  ghost predicate Split(head: Node?, nodes: seq<Node>, list: IntervalList, i: nat, j: nat, v: nat, merged: bool, cur: Node)
    requires i <= j <= |nodes|
    reads nodes, cur
  {
    && |list| == |nodes|
    && (forall a, b :: 0 <= a < b < |nodes| ==> nodes[a] != nodes[b])
    && (forall t {:trigger nodes[t].start} :: 0 <= t < i || v <= t < |nodes| ==> nodes[t].start == list[t].start)
    && (forall t {:trigger nodes[t].len} :: 0 <= t < i || v <= t < |nodes| ==> nodes[t].len == list[t].len)
    && (forall t {:trigger nodes[t].next} :: 0 <= t < i - 1 || j <= t < |nodes| ==> nodes[t].next == At(nodes, t + 1))
    && (i > 0 ==> head == nodes[0])
    && (if i == 0 then head else nodes[i - 1].next) == (if merged then cur else At(nodes, j))
    && (merged ==> cur.next == At(nodes, j))
  }

  predicate Increasing(list: IntervalList, t: int) {
    0 < t < |list| && list[t - 1].start < list[t].start && list[t].len > 0
  }

  lemma NodeIs(head: Node?, nodes: seq<Node>, list: IntervalList, i: nat, j: nat, merged: bool, cur: Node)
    requires i <= j <= |nodes| && Split(head, nodes, list, i, j, j, merged, cur)
    ensures |list| == |nodes| && (j < |nodes| ==> nodes[j].start == list[j].start)
  {
  }

  lemma VisitFacts(list: IntervalList, i: nat, j: nat, merged: bool, v: Interval, writeLen: int)
    requires j < |list| && list[j].start <= v.End()
    requires merged ==> Increasing(list, j) && v.start <= list[j - 1].start
    ensures merged ==> Shared(v, list[j]) >= 0
    ensures Hull(v, list[j]).start <= list[j].start
    ensures WalkFrom(list, i, j, merged, v, writeLen) ==
            if Shared(v, list[j]) >= 0 then WalkFrom(list, i, j + 1, true, Hull(v, list[j]), writeLen - Shared(v, list[j]))
            else WalkFrom(list, i + 1, j + 1, merged, v, writeLen)
  {
  }

  /** What the walk finds: nodes [0, i) stay, `value` replaces nodes [i, j), something was merged or not, and
      `writeLen` positions were missing. */
  datatype Walked = Walked(i: nat, j: nat, merged: bool, value: Interval, writeLen: int)

  function WalkFrom(list: IntervalList, i: nat, j: nat, merged: bool, v: Interval, writeLen: int): Walked
    requires j <= |list|
    decreases |list| - j
  {
    if j == |list| || v.End() < list[j].start then Walked(i, j, merged, v, writeLen)
    else if Shared(v, list[j]) >= 0 then WalkFrom(list, i, j + 1, true, Hull(v, list[j]), writeLen - Shared(v, list[j]))
    else WalkFrom(list, i + 1, j + 1, merged, v, writeLen)
  }

  /** The list once the nodes [i, j) are replaced by `cur`. */
  ghost function Replaced(nodes: seq<Node>, i: nat, j: nat, cur: Node): (r: seq<Node>)
    requires i <= j <= |nodes|
    ensures |r| == i + 1 + |nodes| - j && r[i] == cur
    ensures forall t :: 0 <= t < i ==> r[t] == nodes[t]
    ensures forall t :: i < t < |r| ==> r[t] == nodes[t - i - 1 + j]
  {
    nodes[..i] + [cur] + nodes[j..]
  }

  /** A heap split by the walk is a list again once the middle is left out. */
  lemma JoinedChain(head: Node?, nodes: seq<Node>, list: IntervalList, i: nat, j: nat, cur: Node)
    requires i <= j <= |nodes| && Split(head, nodes, list, i, j, j, true, cur)
    requires cur !in nodes || (i < j && cur == nodes[j - 1])
    ensures Chain(head, Replaced(nodes, i, j, cur))
  {
    hide Replaced;
  }

  lemma JoinedValues(head: Node?, nodes: seq<Node>, list: IntervalList, i: nat, j: nat, cur: Node)
    requires i <= j <= |nodes| && Split(head, nodes, list, i, j, j, true, cur)
    ensures Values(Replaced(nodes, i, j, cur)) == list[..i] + [cur.Value()] + list[j..]
    ensures forall n :: n in Replaced(nodes, i, j, cur) ==> n in nodes || n == cur
    ensures cur in Replaced(nodes, i, j, cur)
    ensures LastEnd(list[..i] + [cur.Value()] + list[j..], 0) == if cur.next == null then cur.start + cur.len else LastEnd(list, 0)
    ensures cur.next != null ==> nodes != []
  {
    hide Replaced, Values;
    assert Replaced(nodes, i, j, cur)[i] == cur;
  }

  /** What an outcome of the walk means for the list. */
  predicate Merged(list: IntervalList, x: Interval, g: Walked) {
    && g.i <= g.j <= |list|
    && Insert(list, x) == list[..g.i] + [g.value] + list[g.j..]
    && g.writeLen == x.len - Overlapped(list, x)
    && (!g.merged ==> g.value == x && g.i == g.j && (list != [] ==> if g.i == 0 then x.start < list[0].End() else list[0].End() < x.start))
  }

  /** The walk computes Insert and counts Overlapped. */
  lemma WalkFromInserts(list: IntervalList, x: Interval)
    requires Normal(list) && x.len > 0
    ensures Merged(list, x, WalkFrom(list, 0, 0, false, x, x.len))
  {
    assert list[0..] == list;
    WalkFromSkips(list, 0, x, x.len);
    WalkFromCounts(list, 0, 0, false, x, x.len);
  }

  lemma {:induction false} WalkFromCounts(list: IntervalList, i: nat, j: nat, merged: bool, v: Interval, writeLen: int)
    requires j <= |list|
    ensures WalkFrom(list, i, j, merged, v, writeLen).writeLen == writeLen - Overlapped(list[j..], v)
    decreases |list| - j
  {
    if j < |list| {
      var rest := list[j..];
      assert rest[0] == list[j] && rest[1..] == list[j + 1..];
      if list[j].start <= v.End() {
        if Shared(v, list[j]) >= 0 {
          WalkFromCounts(list, i, j + 1, true, Hull(v, list[j]), writeLen - Shared(v, list[j]));
        } else {
          WalkFromCounts(list, i + 1, j + 1, merged, v, writeLen);
        }
      }
    }
  }

  lemma Assoc(a: IntervalList, b: IntervalList, c: IntervalList, d: IntervalList)
    ensures a + (b + c + d) == (a + b) + c + d
  {
  }

  /** Once a node has taken over, the walk only swallows. */
  lemma {:induction false} WalkFromSwallows(list: IntervalList, i: nat, j: nat, v: Interval, writeLen: int)
    requires Normal(list) && v.len > 0 && j <= |list| && (j < |list| ==> v.start < list[j].start)
    ensures var g := WalkFrom(list, i, j, true, v, writeLen);
            g.i == i && j <= g.j <= |list| && g.merged && Insert(list[j..], v) == [g.value] + list[g.j..]
    decreases |list| - j
  {
    if j < |list| {
      var rest := list[j..];
      assert rest[0] == list[j] && rest[1..] == list[j + 1..];
      if list[j].start <= v.End() {
        WalkFromSwallows(list, i, j + 1, Hull(v, list[j]), writeLen - Shared(v, list[j]));
      }
    }
  }

  /** Before that, it skips what lies to the left. */
  lemma {:induction false} WalkFromSkips(list: IntervalList, j: nat, v: Interval, writeLen: int)
    requires Normal(list) && v.len > 0 && j <= |list| && (j > 0 ==> list[0].End() < v.start)
    ensures Skipped(list, j, v, WalkFrom(list, j, j, false, v, writeLen))
    decreases |list| - j
  {
    hide Skipped, Insert, Normal;
    if j < |list| && list[j].start <= v.End() {
      NormalAt(list, j);
      if Shared(v, list[j]) >= 0 {
        WalkFromSwallows(list, j, j + 1, Hull(v, list[j]), writeLen - Shared(v, list[j]));
        SkipTouch(list, j, v, WalkFrom(list, j, j + 1, true, Hull(v, list[j]), writeLen - Shared(v, list[j])));
      } else {
        WalkFromSkips(list, j + 1, v, writeLen);
        SkipOne(list, j, v, WalkFrom(list, j + 1, j + 1, false, v, writeLen));
      }
    } else {
      SkipNone(list, j, v, writeLen);
    }
  }

  lemma NormalAt(list: IntervalList, j: nat)
    requires Normal(list) && j < |list|
    ensures list[j].len > 0 && (j + 1 < |list| ==> list[j].End() < list[j + 1].start)
    ensures list[0].End() <= list[j].End()
  {
  }

  ghost predicate Skipped(list: IntervalList, j: nat, v: Interval, g: Walked) {
    && j <= g.i <= g.j <= |list|
    && Insert(list[j..], v) == list[j..g.i] + [g.value] + list[g.j..]
    && (!g.merged ==> g.value == v && g.i == g.j && (list != [] ==> if g.i == 0 then v.start < list[0].End() else list[0].End() < v.start))
  }

  lemma SkipNone(list: IntervalList, j: nat, v: Interval, writeLen: int)
    requires j <= |list| && (j < |list| ==> v.End() < list[j].start) && (j > 0 ==> list[0].End() < v.start)
    ensures Skipped(list, j, v, Walked(j, j, false, v, writeLen))
  {
    assert list[j..j] == [];
    assert j < |list| ==> list[j..][0] == list[j];
  }

  lemma SkipTouch(list: IntervalList, j: nat, v: Interval, g: Walked)
    requires j < |list| && list[j].start <= v.End() && Shared(v, list[j]) >= 0
    requires g.i == j && j + 1 <= g.j <= |list| && g.merged && Insert(list[j + 1..], Hull(v, list[j])) == [g.value] + list[g.j..]
    ensures Skipped(list, j, v, g)
  {
    var rest := list[j..];
    assert rest[0] == list[j] && rest[1..] == list[j + 1..];
    assert list[j..j] == [];
  }

  lemma SkipOne(list: IntervalList, j: nat, v: Interval, g: Walked)
    requires j < |list| && list[j].End() < v.start && list[j].len > 0 && Skipped(list, j + 1, v, g)
    ensures Skipped(list, j, v, g)
  {
    var rest := list[j..];
    assert rest[0] == list[j] && rest[1..] == list[j + 1..];
    assert list[j..g.i] == [list[j]] + list[j + 1..g.i];
    Assoc([list[j]], list[j + 1..g.i], [g.value], list[g.j..]);
  }
}
