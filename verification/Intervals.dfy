/** The list of received intervals kept by a D2TP receiver, as a sequence of values.

    `Insert` is the reference the pointer-list code is proved against; the lemmas say what a list
    means as a set of stream positions.
 */
module Intervals {
  import opened DtpBase

  /** struct buffer without its link: the positions start, ..., start + len - 1. */
  datatype Interval = Interval(start: nat, len: nat) {
    function End(): nat {
      start + len
    }

    predicate Has(q: nat) {
      start <= q < End()
    }
  }

  type IntervalList = seq<Interval>

  /** Sorted, disjoint, never adjacent, never empty. */
  predicate Normal(l: IntervalList) {
    && (forall i :: 0 <= i < |l| ==> l[i].len > 0)
    && (forall i, j :: 0 <= i < j < |l| ==> l[i].End() < l[j].start)
  }

  predicate Covers(l: IntervalList, q: nat) {
    exists i :: 0 <= i < |l| && l[i].Has(q)
  }

  function Hull(a: Interval, b: Interval): (h: Interval) {
    var lo := Min(a.start, b.start);
    Interval(lo, Max(a.End(), b.End()) - lo)
  }

  /** Number of positions two touching intervals share. */
  function Shared(a: Interval, b: Interval): int {
    Min(a.End(), b.End()) - Max(a.start, b.start)
  }

  /** Add `x` to the list, swallowing every interval it touches. */
  function Insert(l: IntervalList, x: Interval): (r: IntervalList) {
    if l == [] then [x]
    else if x.End() < l[0].start then [x] + l
    else if l[0].End() < x.start then [l[0]] + Insert(l[1..], x)
    else Insert(l[1..], Hull(x, l[0]))
  }

  /** How many positions of `x` the list already had, counted along the same walk. */
  function Overlapped(l: IntervalList, x: Interval): int {
    if l == [] || x.End() < l[0].start then 0
    else if l[0].End() < x.start then Overlapped(l[1..], x)
    else Shared(x, l[0]) + Overlapped(l[1..], Hull(x, l[0]))
  }

  /** Total length of the intervals. */
  function Total(l: IntervalList): nat {
    if l == [] then 0 else l[0].len + Total(l[1..])
  }

  /** The set of covered positions. */
  ghost function Positions(l: IntervalList): set<nat> {
    if l == [] then {} else Range(l[0].start, l[0].End()) + Positions(l[1..])
  }

  ghost function Range(lo: nat, hi: nat): (r: set<nat>)
    ensures forall q: nat :: q in r <==> lo <= q < hi
  {
    if lo >= hi then {} else Range(lo, hi - 1) + {hi - 1}
  }

  lemma CoversCons(x: Interval, l: IntervalList, q: nat)
    ensures Covers([x] + l, q) <==> x.Has(q) || Covers(l, q)
  {
    if Covers(l, q) {
      var i :| 0 <= i < |l| && l[i].Has(q);
      assert ([x] + l)[i + 1].Has(q);
    }
    if x.Has(q) {
      assert ([x] + l)[0].Has(q);
    }
    if Covers([x] + l, q) && !x.Has(q) {
      var i :| 0 <= i < |l| + 1 && ([x] + l)[i].Has(q);
      assert l[i - 1].Has(q);
    }
  }

  lemma CoversSplit(l: IntervalList, q: nat)
    requires l != []
    ensures Covers(l, q) <==> l[0].Has(q) || Covers(l[1..], q)
  {
    assert l == [l[0]] + l[1..];
    CoversCons(l[0], l[1..], q);
  }

  /** Inserting an interval adds exactly its positions. */
  lemma {:induction false} InsertCovers(l: IntervalList, x: Interval, q: nat)
    requires Normal(l)
    ensures Covers(Insert(l, x), q) <==> Covers(l, q) || x.Has(q)
    decreases |l|
  {
    if l == [] {
      assert [x] == [x] + [];
      CoversCons(x, [], q);
    } else if x.End() < l[0].start {
      CoversCons(x, l, q);
    } else if l[0].End() < x.start {
      InsertCovers(l[1..], x, q);
      CoversCons(l[0], Insert(l[1..], x), q);
      CoversSplit(l, q);
    } else {
      InsertCovers(l[1..], Hull(x, l[0]), q);
      CoversSplit(l, q);
    }
  }

  predicate Within(l: IntervalList, lo: nat, hi: nat) {
    forall i :: 0 <= i < |l| ==> lo <= l[i].start && l[i].End() <= hi
  }

  lemma ConsNormal(x: Interval, l: IntervalList, lo: nat, hi: nat)
    requires Normal(l) && x.len > 0 && lo <= x.start && x.End() <= hi && Within(l, x.End() + 1, hi)
    ensures Normal([x] + l) && Within([x] + l, lo, hi)
  {
  }

  /** Inserting keeps the list in normal form and inside the bounds of what it is made of. */
  lemma {:induction false} InsertNormal(l: IntervalList, x: Interval, lo: nat, hi: nat)
    requires Normal(l) && x.len > 0
    requires lo <= x.start && x.End() <= hi && Within(l, lo, hi)
    ensures Normal(Insert(l, x)) && Insert(l, x) != [] && Within(Insert(l, x), lo, hi)
    decreases |l|
  {
    if l == [] || x.End() < l[0].start {
      ConsNormal(x, l, lo, hi);
    } else if l[0].End() < x.start {
      InsertNormal(l[1..], x, l[0].End() + 1, hi);
      ConsNormal(l[0], Insert(l[1..], x), lo, hi);
    } else {
      InsertNormal(l[1..], Hull(x, l[0]), lo, hi);
    }
  }

  /** An interval that starts no later than the list becomes, or is absorbed into, its head. */
  lemma {:induction false} InsertFront(l: IntervalList, x: Interval)
    requires Normal(l) && x.len > 0
    requires l == [] || x.start <= l[0].start
    ensures Insert(l, x) != [] && Insert(l, x)[0].start == x.start && x.End() <= Insert(l, x)[0].End()
    decreases |l|
  {
    if l != [] && l[0].start <= x.End() {
      InsertFront(l[1..], Hull(x, l[0]));
    }
  }

  /** The length of the list grows by exactly the part of `x` that was not there. */
  lemma {:induction false} InsertTotal(l: IntervalList, x: Interval)
    requires Normal(l) && x.len > 0
    ensures Total(Insert(l, x)) == Total(l) + x.len - Overlapped(l, x)
    decreases |l|
  {
    if l == [] {
    } else if x.End() < l[0].start {
      assert ([x] + l)[1..] == l;
    } else if l[0].End() < x.start {
      InsertTotal(l[1..], x);
      assert ([l[0]] + Insert(l[1..], x))[1..] == Insert(l[1..], x);
    } else {
      InsertTotal(l[1..], Hull(x, l[0]));
    }
  }

  lemma {:induction false} RangeSize(lo: nat, hi: nat)
    requires lo <= hi
    ensures |Range(lo, hi)| == hi - lo
    decreases hi
  {
    if lo < hi {
      RangeSize(lo, hi - 1);
    }
  }

  lemma {:induction false} PositionsAreCovered(l: IntervalList, q: nat)
    ensures q in Positions(l) <==> Covers(l, q)
    decreases |l|
  {
    if l != [] {
      CoversSplit(l, q);
      PositionsAreCovered(l[1..], q);
    }
  }

  /** In normal form the sum of lengths is the number of covered positions. */
  lemma {:induction false} TotalIsSize(l: IntervalList)
    requires Normal(l)
    ensures |Positions(l)| == Total(l)
    decreases |l|
  {
    if l != [] {
      TotalIsSize(l[1..]);
      RangeSize(l[0].start, l[0].End());
      forall q | q in Range(l[0].start, l[0].End()) && q in Positions(l[1..]) ensures false {
        PositionsAreCovered(l[1..], q);
      }
    }
  }

  /** What the receiver reports: the positions of `x` that were missing, as a set. */
  lemma FreshIsNewPositions(l: IntervalList, x: Interval)
    requires Normal(l) && x.len > 0
    ensures x.len - Overlapped(l, x) == |Range(x.start, x.End()) - Positions(l)|
  {
    hide Insert, Overlapped, Covers, Total, Positions;
    var hi := Max(x.End(), if l == [] then 0 else l[|l| - 1].End());
    assert Within(l, 0, hi);
    InsertNormal(l, x, 0, hi);
    var missing := Range(x.start, x.End()) - Positions(l);
    InsertTotal(l, x);
    TotalIsSize(l);
    TotalIsSize(Insert(l, x));
    forall q: nat ensures q in Positions(Insert(l, x)) <==> q in Positions(l) || q in missing {
      PositionsAreCovered(l, q);
      PositionsAreCovered(Insert(l, x), q);
      InsertCovers(l, x, q);
    }
    assert Positions(Insert(l, x)) == Positions(l) + missing;
  }

  /** Two normal lists with the same positions are the same list. */
  lemma {:induction false} NormalFormIsUnique(a: IntervalList, b: IntervalList)
    requires Normal(a) && Normal(b)
    requires forall q: nat :: Covers(a, q) <==> Covers(b, q)
    ensures a == b
    decreases |a|
  {
    if a == [] {
      if b != [] {
        FirstOfNormal(b);
      }
    } else {
      assert a[0].Has(a[0].start) && Covers(a, a[0].start);
      FirstOfNormal(a);
      FirstOfNormal(b);
      assert Covers(b, a[0].start) && Covers(a, b[0].start);
      assert a[0].start == b[0].start;
      assert !Covers(a, a[0].End()) && !Covers(b, b[0].End());
      var x, y := a[0], b[0];
      assert x.End() < y.End() ==> y.Has(x.End());
      assert y.End() < x.End() ==> x.Has(y.End());
      forall q: nat ensures Covers(a[1..], q) <==> Covers(b[1..], q) {
        CoversSplit(a, q);
        CoversSplit(b, q);
        if a[0].Has(q) {
          assert !Covers(a[1..], q) && !Covers(b[1..], q);
        }
      }
      NormalFormIsUnique(a[1..], b[1..]);
    }
  }

  /** The first interval of a normal list starts at the least covered position and ends at a hole. */
  lemma FirstOfNormal(l: IntervalList)
    requires Normal(l) && l != []
    ensures Covers(l, l[0].start)
    ensures forall q: nat :: Covers(l, q) ==> l[0].start <= q
    ensures !Covers(l, l[0].End())
  {
    assert l[0].Has(l[0].start);
  }
}
