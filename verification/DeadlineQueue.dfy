/** The retransmission queue: every live context, ordered by the whole second of its deadline.
    The keys are changed in place by dtp_setsockopt, which then removes and reinserts the context.
 */
module DeadlineQueue {

  import opened DtpBase

  /** The fields of dtp_context that the queue, the deadline options and the scheduler use. */
  class Flow {
    var sec: int                 // tc_deadlineTime
    var usec: int
    var deadline: int
    var blockSize: nat
    var blockRemain: nat
    var isDeadlineSet: bool
    var useMobile: bool
    var scheduleSend: bool

    /** A context starts with the current time as its deadline. */
    constructor (nowSec: int, nowUsec: int)
      ensures sec == nowSec && usec == nowUsec && deadline == 0 && blockSize == 0 && blockRemain == 0
      ensures !isDeadlineSet && !useMobile && !scheduleSend
    {
      sec, usec, deadline, blockSize, blockRemain := nowSec, nowUsec, 0, 0, 0;
      isDeadlineSet, useMobile, scheduleSend := false, false, false;
    }

    /** The deadline counts from now, once both it and a block size are set. */
    method StartDeadline(nowSec: int, nowUsec: int)
      modifies this`isDeadlineSet, this`sec, this`usec
      ensures isDeadlineSet && sec == nowSec + deadline && usec == nowUsec
    {
      isDeadlineSet, sec, usec := true, nowSec + deadline, nowUsec;
    }
  }

  predicate Timestamp(sec: int, usec: int) {
    sec >= 0 && 0 <= usec < 1000000
  }

  predicate SameFlows(q: seq<Flow>, s: set<Flow>) {
    (forall f :: f in q ==> f in s) && forall f :: f in s ==> f in q
  }

  class RetransQueue {
    var queue: seq<Flow>
    ghost var live: set<Flow>            // the contexts created and not yet removed
    ghost var ticket: map<Flow, nat>     // when each of them was last put into the queue
    ghost var clock: nat

    /** Earlier deadline second first, and among equal seconds whoever was put in first. */
    ghost predicate Before(a: Flow, b: Flow)
      reads this`ticket, a`sec, b`sec
    {
      a in ticket && b in ticket && (a.sec < b.sec || (a.sec == b.sec && ticket[a] < ticket[b]))
    }

    ghost predicate Ordered(q: seq<Flow>)
      reads this`ticket, q`sec
    {
      forall i, j :: 0 <= i < j < |q| ==> Before(q[i], q[j])
    }

    ghost predicate Stamped()
      reads this
    {
      live <= ticket.Keys && forall f :: f in live ==> ticket[f] < clock
    }

    /** The queue holds exactly the live contexts, each once, in order. */
    ghost predicate Valid()
      reads this, queue`sec, queue`usec
    {
      && Stamped() && Ordered(queue)
      && SameFlows(queue, live)
      && forall f :: f in queue ==> Timestamp(f.sec, f.usec)
    }

    /** The order is strict, so no context is in the queue twice. */
    lemma Distinct(q: seq<Flow>)
      requires Ordered(q)
      ensures forall i, j :: 0 <= i < j < |q| ==> q[i] != q[j]
    {
      forall i, j | 0 <= i < j < |q| ensures q[i] != q[j] {
        assert Before(q[i], q[j]);
      }
    }

    constructor ()
      ensures Valid() && queue == [] && live == {}
    {
      queue, live, ticket, clock := [], {}, map[], 0;
    }

    /** Putting `f` between those before it and those after it keeps the order. */
    lemma InsertOrdered(q: seq<Flow>, i: nat, f: Flow)
      requires Ordered(q) && i <= |q|
      requires forall k :: 0 <= k < i ==> Before(q[k], f)
      requires forall k :: i <= k < |q| ==> Before(f, q[k])
      ensures Ordered(q[..i] + [f] + q[i..])
    {
      var r := q[..i] + [f] + q[i..];
      forall a, b | 0 <= a < b < |r| ensures Before(r[a], r[b]) {
        var a', b' := if a < i then a else a - 1, if b < i then b else b - 1;
        if a != i && b != i {
          assert r[a] == q[a'] && r[b] == q[b'];
        }
      }
    }

    /** The place of a context with deadline second `sec`: behind every context not later than it. */
    method Place(sec: int) returns (i: nat)
      requires Ordered(queue)
      ensures i <= |queue|
      ensures forall k :: 0 <= k < i ==> queue[k].sec <= sec
      ensures forall k :: i <= k < |queue| ==> sec < queue[k].sec
    {
      i := 0;
      while i < |queue| && queue[i].sec <= sec
        invariant i <= |queue|
        invariant forall k :: 0 <= k < i ==> queue[k].sec <= sec
      {
        i := i + 1;
      }
      forall k | i <= k < |queue| ensures sec < queue[k].sec {
        assert i == k || Before(queue[i], queue[k]);
      }
    }

    /** A fresh ticket for a context outside the queue does not disturb the order. */
    ghost method Stamp(f: Flow)
      requires Ordered(queue) && f !in queue && Stamped()
      requires forall g :: g in queue ==> g in live
      modifies this`ticket, this`clock
      ensures ticket == old(ticket)[f := old(clock)] && clock == old(clock) + 1
      ensures Ordered(queue)
    {
      assert forall a, b :: 0 <= a < b < |queue| ==> Before(queue[a], queue[b]);
      ticket, clock := ticket[f := clock], clock + 1;
      forall a, b | 0 <= a < b < |queue| ensures Before(queue[a], queue[b]) {
        assert old(Before(queue[a], queue[b]));
      }
    }

    /** Ordered insert: before the first context whose deadline second is later. */
    method Insert(f: Flow)
      requires Valid() && f !in live && Timestamp(f.sec, f.usec)
      modifies this
      ensures Valid() && live == old(live) + {f}
      ensures ticket == old(ticket)[f := old(clock)] && clock == old(clock) + 1
    {
      hide Ordered;
      var i := Place(f.sec);
      Stamp(f);
      InsertOrdered(queue, i, f);
      queue, live := queue[..i] + [f] + queue[i..], live + {f};
    }

    /** TAILQ_REMOVE; the key of `f` itself may already have been changed. */
    method Remove(f: Flow)
      requires f in live && Stamped() && SameFlows(queue, live)
      requires forall i, j :: 0 <= i < j < |queue| ==> queue[i] != queue[j]
      requires forall i, j :: 0 <= i < j < |queue| && queue[i] != f && queue[j] != f ==> Before(queue[i], queue[j])
      requires forall g :: g in queue && g != f ==> Timestamp(g.sec, g.usec)
      modifies this`queue, this`live
      ensures Valid() && live == old(live) - {f}
    {
      var i :| 0 <= i < |queue| && queue[i] == f;
      queue, live := queue[..i] + queue[i + 1..], live - {f};
    }

    /** CreateContext. */
    method Create(nowSec: int, nowUsec: int) returns (f: Flow)
      requires Valid() && Timestamp(nowSec, nowUsec)
      modifies this
      ensures Valid() && fresh(f) && live == old(live) + {f}
      ensures ticket == old(ticket)[f := old(clock)] && clock == old(clock) + 1
      ensures f.sec == nowSec && f.usec == nowUsec && f.deadline == 0 && f.blockSize == 0 && f.blockRemain == 0
      ensures !f.isDeadlineSet && !f.useMobile && !f.scheduleSend
    {
      f := new Flow(nowSec, nowUsec);
      Insert(f);
    }

    /** A context leaves the queue when it is closed. */
    method Close(f: Flow)
      requires Valid() && f in live
      modifies this`queue, this`live
      ensures Valid() && live == old(live) - {f}
    {
      Distinct(queue);
      Remove(f);
    }

    method Reinsert(f: Flow)
      requires f in live && Stamped() && SameFlows(queue, live)
      requires forall i, j :: 0 <= i < j < |queue| ==> queue[i] != queue[j]
      requires forall i, j :: 0 <= i < j < |queue| && queue[i] != f && queue[j] != f ==> Before(queue[i], queue[j])
      requires forall g :: g in queue ==> Timestamp(g.sec, g.usec)
      modifies this
      ensures Valid() && live == old(live)
      ensures ticket == old(ticket)[f := old(clock)] && clock == old(clock) + 1
    {
      Remove(f);
      Insert(f);
    }

    /** DTP_SO_BLOCKSIZE. */
    method SetBlockSize(f: Flow, size: nat, nowSec: int, nowUsec: int)
      requires Valid() && f in live && size < TWO_32 && Timestamp(nowSec, nowUsec)
      modifies this, f
      ensures Valid() && live == old(live)
      ensures ticket == old(ticket)[f := old(clock)] && clock == old(clock) + 1
      ensures f.blockSize == size && f.blockRemain == (old(f.blockRemain) + size) % TWO_32 && f.deadline == old(f.deadline)
      ensures if f.deadline > 0 && size > 0
              then f.sec == nowSec + f.deadline && f.usec == nowUsec && f.isDeadlineSet
              else f.sec == old(f.sec) && f.usec == old(f.usec) && f.isDeadlineSet == old(f.isDeadlineSet)
      ensures f.scheduleSend == old(f.scheduleSend) && f.useMobile == old(f.useMobile)
    {
      Distinct(queue);
      f.blockSize := size;
      f.blockRemain := (f.blockRemain + f.blockSize) % TWO_32;
      if f.deadline > 0 && f.blockSize > 0 {
        f.StartDeadline(nowSec, nowUsec);
      }
      Reinsert(f);
    }

    /** DTP_SO_DEADLINE: fails, with the queue left alone, for a negative deadline and for one set
        before any block size; the new value is stored all the same. */
    method SetDeadline(f: Flow, deadline: int, nowSec: int, nowUsec: int) returns (ok: bool)
      requires Valid() && f in live && Timestamp(nowSec, nowUsec)
      modifies this, f
      ensures Valid() && live == old(live)
      ensures ok <==> deadline == 0 || (deadline > 0 && f.blockSize > 0)
      ensures if ok then ticket == old(ticket)[f := old(clock)] && clock == old(clock) + 1
              else queue == old(queue) && ticket == old(ticket) && clock == old(clock)
      ensures f.deadline == deadline && f.blockSize == old(f.blockSize) && f.blockRemain == old(f.blockRemain)
      ensures if ok && deadline > 0
              then f.sec == nowSec + deadline && f.usec == nowUsec && f.isDeadlineSet
              else f.sec == old(f.sec) && f.usec == old(f.usec) && f.isDeadlineSet == old(f.isDeadlineSet)
      ensures f.useMobile == (old(f.useMobile) || deadline == 0) && f.scheduleSend == old(f.scheduleSend)
    {
      Distinct(queue);
      f.deadline := deadline;
      if f.deadline > 0 && f.blockSize > 0 {
        f.StartDeadline(nowSec, nowUsec);
      } else if f.deadline == 0 {
        f.useMobile := true;
      } else {
        return false;
      }
      Reinsert(f);
      return true;
    }

    /** Which contexts are live, their deadlines and when each was last put in determine the queue. */
    lemma QueueIsDetermined(a: seq<Flow>, b: seq<Flow>)
      requires Ordered(a) && Ordered(b)
      requires forall f :: f in a <==> f in b
      ensures a == b
      decreases |a|
    {
      assert a != [] ==> a[0] in a;
      assert b != [] ==> b[0] in b;
      if a != [] {
        SameFirst(a, b);
        Distinct(a);
        Distinct(b);
        forall f ensures f in a[1..] <==> f in b[1..] {
          assert f in a <==> f == a[0] || f in a[1..];
          assert f in b <==> f == b[0] || f in b[1..];
        }
        QueueIsDetermined(a[1..], b[1..]);
        assert a == [a[0]] + a[1..] && b == [b[0]] + b[1..];
      }
    }

    lemma SameFirst(a: seq<Flow>, b: seq<Flow>)
      requires Ordered(a) && Ordered(b) && a != [] && b != [] && a[0] in b && b[0] in a
      ensures a[0] == b[0]
    {
      var i :| 0 <= i < |b| && b[i] == a[0];
      var j :| 0 <= j < |a| && a[j] == b[0];
      assert i > 0 ==> Before(b[0], b[i]);
      assert j > 0 ==> Before(a[0], a[j]);
    }
  }
}
