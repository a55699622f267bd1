/** The earliest-deadline-first rule that decides when the cellular link may be used: one backward pass
    over the deadline queue computes the latest time at which sending everything back to back still
    meets every deadline. Times are real numbers; rounding is not modelled.
 */
module Scheduler {
  import opened DeadlineQueue

  /** What the pass reads of a queued context: tc_deadlineTime and the time its remaining bytes take. */
  datatype Job = Job(sec: int, usec: int, cost: real)

  const USEC := 1000000.0

  /** The deadline the pass uses: tv_sec + tv_usec / 1e6 + 1. */
  function Exact(j: Job): real {
    j.sec as real + j.usec as real / USEC + 1.0
  }

  /** The deadline by which the queue is ordered, whole seconds only. */
  function Whole(j: Job): real {
    j.sec as real + 1.0
  }

  function MinReal(a: real, b: real): real {
    if a < b then a else b
  }

  /** Sending the jobs back to back in this order from `t` finishes each by its limit. */
  predicate Meets(q: seq<Job>, t: real, limit: Job -> real) {
    q == [] || (t + q[0].cost <= limit(q[0]) && Meets(q[1..], t + q[0].cost, limit))
  }

  /** The latest start of a non-empty queue. */
  function LatestStart(q: seq<Job>, limit: Job -> real): real
    requires q != []
  {
    (if |q| == 1 then limit(q[0]) else MinReal(LatestStart(q[1..], limit), limit(q[0]))) - q[0].cost
  }

  /** The pass as written: 0 stands for "nothing yet". */
  function BackwardPass(q: seq<Job>): real {
    if q == [] then 0.0
    else
      var t := BackwardPass(q[1..]);
      (if t == 0.0 then Exact(q[0]) else MinReal(t, Exact(q[0]))) - q[0].cost
  }

  /** The latest start is exact: starting at `t` meets every limit if and only if `t` is not later. */
  lemma {:induction false} LatestStartIsExact(q: seq<Job>, t: real, limit: Job -> real)
    requires q != []
    ensures Meets(q, t, limit) <==> t <= LatestStart(q, limit)
    decreases |q|
  {
    if |q| > 1 {
      LatestStartIsExact(q[1..], t + q[0].cost, limit);
    } else {
      assert q[1..] == [];
    }
  }

  /** Deadlines lie after the epoch and sizes are not negative. */
  predicate Plausible(q: seq<Job>) {
    forall i :: 0 <= i < |q| ==> q[i].sec >= 0 && 0 <= q[i].usec < 1000000 && q[i].cost >= 0.0
  }

  /** Some proper, non-empty rest of the queue has latest start 0, the value that means "nothing yet". */
  ghost predicate HitsSentinel(q: seq<Job>) {
    exists k :: 0 < k < |q| && LatestStart(q[k..], Exact) == 0.0
  }

  /** The backward pass computes the latest start exactly if it never comes across 0 on the way. */
  lemma PassIsExactly(q: seq<Job>)
    requires Plausible(q) && q != []
    ensures BackwardPass(q) == LatestStart(q, Exact) <==> !HitsSentinel(q)
  {
    PassAgainstLatestStart(q);
  }

  /** Once 0 was hit the pass stays too late, and the true value is not positive. */
  lemma {:induction false} PassAgainstLatestStart(q: seq<Job>)
    requires Plausible(q) && q != []
    ensures if HitsSentinel(q) then LatestStart(q, Exact) < BackwardPass(q) && LatestStart(q, Exact) <= 0.0
            else BackwardPass(q) == LatestStart(q, Exact)
    decreases |q|
  {
    if |q| > 1 {
      var rest := q[1..];
      PassAgainstLatestStart(rest);
      SentinelStep(q);
    } else {
      assert q[1..] == [];
    }
  }

  /** What it computes then: the latest start of the jobs before the first rest for which it came to 0, as if there
      were no others. */
  lemma {:induction false} PassForgets(q: seq<Job>) returns (k: nat)
    requires q != []
    ensures 0 < k <= |q| && BackwardPass(q) == LatestStart(q[..k], Exact)
    ensures BackwardPass(q[k..]) == 0.0 && forall j :: 0 < j < k ==> BackwardPass(q[j..]) != 0.0
    decreases |q|
  {
    k := 1;
    if BackwardPass(q[1..]) != 0.0 {
      var i := PassForgets(q[1..]);
      k := i + 1;
      assert q[..k][1..] == q[1..][..i] && q[1..][i..] == q[k..];
      assert forall j :: 1 < j < k ==> q[j..] == q[1..][j - 1..];
    }
  }

  lemma SentinelStep(q: seq<Job>)
    requires |q| > 1
    ensures HitsSentinel(q) <==> HitsSentinel(q[1..]) || LatestStart(q[1..], Exact) == 0.0
  {
    if HitsSentinel(q[1..]) {
      var k :| 0 < k < |q| - 1 && LatestStart(q[1..][k..], Exact) == 0.0;
      assert q[1..][k..] == q[k + 1..];
    }
    if HitsSentinel(q) {
      var k :| 0 < k < |q| && LatestStart(q[k..], Exact) == 0.0;
      assert k == 1 || q[1..][k - 1..] == q[k..];
    }
  }

  /** A queue on which the pass is wrong: the last job alone could start at 0. */
  lemma SentinelExample()
    ensures var q := [Job(5, 0, 1.0), Job(9, 0, 10.0)];
            && Plausible(q) && BackwardPass(q) == 5.0 && LatestStart(q, Exact) == -1.0 && !Meets(q, 5.0, Exact)
  {
    var q := [Job(5, 0, 1.0), Job(9, 0, 10.0)];
    assert q[1..] == [Job(9, 0, 10.0)] && q[1..][1..] == [];
    LatestStartIsExact(q, 5.0, Exact);
  }

  // ---------- optimality ----------

  predicate SortedBy(q: seq<Job>, limit: Job -> real) {
    forall i, j :: 0 <= i < j < |q| ==> limit(q[i]) <= limit(q[j])
  }

  predicate NoNegativeCost(q: seq<Job>) {
    forall j :: j in q ==> j.cost >= 0.0
  }

  function TotalCost(q: seq<Job>): real {
    if q == [] then 0.0 else q[0].cost + TotalCost(q[1..])
  }

  lemma {:induction false} TotalCostAppend(q: seq<Job>, j: Job)
    ensures TotalCost(q + [j]) == TotalCost(q) + j.cost
    decreases |q|
  {
    if q == [] {
      assert (q + [j])[1..] == [];
    } else {
      TotalCostAppend(q[1..], j);
      assert (q + [j])[1..] == q[1..] + [j];
    }
  }

  lemma {:induction false} TotalCostConcat(p: seq<Job>, q: seq<Job>)
    ensures TotalCost(p + q) == TotalCost(p) + TotalCost(q)
    decreases |p|
  {
    if p == [] {
      assert p + q == q;
    } else {
      TotalCostConcat(p[1..], q);
      assert (p + q)[1..] == p[1..] + q;
    }
  }

  lemma TakeOut(q: seq<Job>, j: Job) returns (others: seq<Job>)
    requires j in q
    ensures multiset(q) == multiset(others) + multiset{j} && TotalCost(q) == TotalCost(others) + j.cost
    ensures forall k :: k in others ==> k in q
  {
    var i :| 0 <= i < |q| && q[i] == j;
    others := q[..i] + q[i + 1..];
    assert q == q[..i] + [j] + q[i + 1..];
    TotalCostConcat(q[..i], q[i + 1..]);
    TotalCostAppend(q[..i], j);
    TotalCostConcat(q[..i] + [j], q[i + 1..]);
  }

  lemma Cancel(a: multiset<Job>, b: multiset<Job>, j: Job)
    requires a + multiset{j} <= b + multiset{j}
    ensures a <= b
  {
    assert forall k :: a[k] + multiset{j}[k] == (a + multiset{j})[k] <= (b + multiset{j})[k] == b[k] + multiset{j}[k];
  }

  /** More jobs take no less time. */
  lemma {:induction false} TotalCostMonotone(p: seq<Job>, q: seq<Job>)
    requires multiset(p) <= multiset(q)
    requires NoNegativeCost(q)
    ensures TotalCost(p) <= TotalCost(q)
    decreases |p|, |q|
  {
    if p != [] {
      assert p[0] in multiset(p);
      var others := TakeOut(q, p[0]);
      assert p == [p[0]] + p[1..];
      Cancel(multiset(p[1..]), multiset(others), p[0]);
      TotalCostMonotone(p[1..], others);
    } else if q != [] {
      TotalCostMonotone(p, q[1..]);
    }
  }

  /** Every job finishes, when the jobs before it are sent first, by its limit. */
  ghost predicate EachInTime(q: seq<Job>, t: real, limit: Job -> real) {
    forall k :: 0 < k <= |q| ==> t + TotalCost(q[..k]) <= limit(q[k - 1])
  }

  /** The step by step reading of a schedule and the one by prefixes agree. */
  lemma {:induction false} MeetsByPrefix(q: seq<Job>, t: real, limit: Job -> real)
    ensures Meets(q, t, limit) <==> EachInTime(q, t, limit)
    decreases |q|
  {
    if q != [] {
      var rest, c := q[1..], q[0].cost;
      MeetsByPrefix(rest, t + c, limit);
      PrefixCost(q, 1);
      if EachInTime(q, t, limit) {
        assert t + TotalCost(q[..1]) <= limit(q[0]);
        forall k | 0 < k <= |rest| ensures t + c + TotalCost(rest[..k]) <= limit(rest[k - 1]) {
          PrefixCost(q, k + 1);
          assert t + TotalCost(q[..k + 1]) <= limit(q[k + 1 - 1]);
        }
      }
      if Meets(q, t, limit) {
        forall k | 0 < k <= |q| ensures t + TotalCost(q[..k]) <= limit(q[k - 1]) {
          PrefixCost(q, k);
          if k > 1 {
            assert t + c + TotalCost(rest[..k - 1]) <= limit(rest[k - 1 - 1]);
          }
        }
      }
    }
  }

  lemma PrefixCost(q: seq<Job>, k: nat)
    requires 0 < k <= |q|
    ensures TotalCost(q[..k]) == q[0].cost + TotalCost(q[1..][..k - 1])
  {
    assert q[..k][1..] == q[1..][..k - 1];
  }

  /** The shortest prefix of `order` that holds all of `part` ends with a job of `part`. */
  lemma ShortestCover(order: seq<Job>, part: multiset<Job>) returns (n: nat)
    requires |part| > 0 && part <= multiset(order)
    ensures 0 < n <= |order| && part <= multiset(order[..n]) && order[n - 1] in part
  {
    n := |order|;
    assert order[..n] == order;
    while n > 0 && part <= multiset(order[..n - 1])
      invariant n <= |order| && part <= multiset(order[..n])
      decreases n
    {
      n := n - 1;
    }
    assert n > 0;
    assert order[..n] == order[..n - 1] + [order[n - 1]];
  }

  /** Earliest deadline first is optimal: if any order of the same jobs meets the limits from `t`,
      then so does the order sorted by limit. */
  lemma EdfOptimal(q: seq<Job>, order: seq<Job>, t: real, limit: Job -> real)
    requires SortedBy(q, limit) && multiset(order) == multiset(q)
    requires NoNegativeCost(q)
    requires Meets(order, t, limit)
    ensures Meets(q, t, limit)
  {
    MeetsByPrefix(order, t, limit);
    forall k | 0 < k <= |q| ensures t + TotalCost(q[..k]) <= limit(q[k - 1]) {
      EdfPrefix(q, order, t, limit, k);
    }
    MeetsByPrefix(q, t, limit);
  }

  lemma EdfPrefix(q: seq<Job>, order: seq<Job>, t: real, limit: Job -> real, k: nat)
    requires SortedBy(q, limit) && multiset(order) == multiset(q)
    requires NoNegativeCost(q)
    requires EachInTime(order, t, limit) && 0 < k <= |q|
    ensures t + TotalCost(q[..k]) <= limit(q[k - 1])
  {
    assert q == q[..k] + q[k..];
    var n := ShortestCover(order, multiset(q[..k]));
    var last := order[n - 1];
    assert last in q[..k];
    var i :| 0 <= i < k && q[i] == last;
    forall j | j in order[..n] ensures j.cost >= 0.0 {
      assert j in multiset(order) && j in q;
    }
    TotalCostMonotone(q[..k], order[..n]);
    assert t + TotalCost(order[..n]) <= limit(last);
  }

  /** Looser limits are met as well. */
  lemma {:induction false} MeetsLooser(q: seq<Job>, t: real, tight: Job -> real, loose: Job -> real)
    requires forall j :: j in q ==> tight(j) <= loose(j)
    requires Meets(q, t, tight)
    ensures Meets(q, t, loose)
    decreases |q|
  {
    if q != [] {
      MeetsLooser(q[1..], t + q[0].cost, tight, loose);
    }
  }

  /** No order at all can start later than the pass says and finish everything by its whole-second
      deadline, given the queue sorted by whole seconds. */
  lemma NoOrderStartsLater(q: seq<Job>, order: seq<Job>, t: real)
    requires Plausible(q) && q != [] && SortedBy(q, Whole) && multiset(order) == multiset(q)
    requires Meets(order, t, Whole)
    ensures Meets(q, t, Whole) && Meets(q, t, Exact) && t <= LatestStart(q, Exact) <= BackwardPass(q)
  {
    EdfOptimal(q, order, t, Whole);
    MeetsLooser(q, t, Whole, Exact);
    LatestStartIsExact(q, t, Exact);
    PassAgainstLatestStart(q);
  }

  // ---------- optimality with the microseconds counted ----------

  predicate SameDeadlines(q: seq<Job>, r: seq<Job>) {
    |q| == |r| && forall i :: 0 <= i < |q| ==> q[i].sec == r[i].sec && q[i].usec == r[i].usec
  }

  /** Whatever the blocks' sizes, no order does better than the queue's on the deadlines as the pass reads them. */
  ghost predicate OptimalForAnySizes(q: seq<Job>) {
    forall r, order, t ::
      (SameDeadlines(q, r) && NoNegativeCost(r) && multiset(order) == multiset(r) && Meets(order, t, Exact))
      ==> Meets(r, t, Exact)
  }

  /** Ordering by whole seconds is optimal for those deadlines if and only if it orders the microseconds too. */
  lemma ExactOptimalExactly(q: seq<Job>)
    ensures OptimalForAnySizes(q) <==> SortedBy(q, Exact)
  {
    if SortedBy(q, Exact) {
      forall r, order, t | SameDeadlines(q, r) && NoNegativeCost(r) && multiset(order) == multiset(r) &&
                           Meets(order, t, Exact)
        ensures Meets(r, t, Exact)
      {
        EdfOptimal(r, order, t, Exact);
      }
    } else {
      var i, j :| 0 <= i < j < |q| && Exact(q[i]) > Exact(q[j]);
      var r, order, t := Inversion(q, i, j);
    }
  }

  function Earliest(q: seq<Job>): (t: real)
    ensures forall j :: j in q ==> t <= Exact(j)
  {
    if q == [] then 0.0 else MinReal(Exact(q[0]), Earliest(q[1..]))
  }

  /** Jobs that take no time and are not late by `t` can go first. */
  lemma {:induction false} MeetsAfterNothing(z: seq<Job>, q: seq<Job>, t: real)
    requires forall j :: j in z ==> j.cost == 0.0 && t <= Exact(j)
    requires Meets(q, t, Exact)
    ensures Meets(z + q, t, Exact)
    decreases |z|
  {
    if z == [] {
      assert z + q == q;
    } else {
      assert (z + q)[1..] == z[1..] + q;
      MeetsAfterNothing(z[1..], q, t);
    }
  }

  /** The cost of job `k` in a queue where jobs `i` and `j` have to be swapped. */
  function SwapCost(q: seq<Job>, i: nat, j: nat, t: real, k: int): real
    requires i < j < |q|
  {
    if k == i then Exact(q[i]) - Exact(q[j]) else if k == j then Exact(q[j]) - t else 0.0
  }

  function Sized(q: seq<Job>, i: nat, j: nat, t: real): (r: seq<Job>)
    requires i < j < |q|
    ensures SameDeadlines(q, r) && forall k :: 0 <= k < |r| ==> r[k].cost == SwapCost(q, i, j, t, k)
  {
    seq(|q|, k requires 0 <= k < |q| => q[k].(cost := SwapCost(q, i, j, t, k)))
  }

  function WithoutTwo(r: seq<Job>, i: nat, j: nat): seq<Job>
    requires i < j < |r|
  {
    r[..i] + r[i + 1..j] + r[j + 1..]
  }

  lemma TwoMovedBack(r: seq<Job>, i: nat, j: nat)
    requires i < j < |r|
    ensures multiset(WithoutTwo(r, i, j) + [r[j], r[i]]) == multiset(r)
  {
    assert r == r[..i] + [r[i]] + r[i + 1..j] + [r[j]] + r[j + 1..];
  }

  lemma Inversion(q: seq<Job>, i: nat, j: nat) returns (r: seq<Job>, order: seq<Job>, t: real)
    requires i < j < |q| && Exact(q[i]) > Exact(q[j])
    ensures SameDeadlines(q, r) && NoNegativeCost(r) && multiset(order) == multiset(r)
    ensures Meets(order, t, Exact) && !Meets(r, t, Exact)
  {
    t := Earliest(q);
    r := Sized(q, i, j, t);
    order := WithoutTwo(r, i, j) + [r[j], r[i]];
    TwoMovedBack(r, i, j);
    assert t <= Exact(q[j]) && r[i].cost >= 0.0 && r[j].cost >= 0.0;
    assert Exact(r[i]) == Exact(q[i]) && Exact(r[j]) == Exact(q[j]);
    TwoInOrder(r[j], r[i], t);
    forall x | x in WithoutTwo(r, i, j) ensures x.cost == 0.0 && t <= Exact(x) {
      var k :| 0 <= k < |r| && k != i && k != j && r[k] == x;
      assert Exact(r[k]) == Exact(q[k]);
    }
    MeetsAfterNothing(WithoutTwo(r, i, j), [r[j], r[i]], t);
    TwoTooMany(r, i, j, t);
  }

  lemma TwoInOrder(a: Job, b: Job, t: real)
    requires t + a.cost <= Exact(a) && t + a.cost + b.cost <= Exact(b)
    ensures Meets([a, b], t, Exact)
  {
    assert [a, b][1..] == [b] && [b][1..] == [];
  }

  lemma TwoTooMany(r: seq<Job>, i: nat, j: nat, t: real)
    requires i < j < |r| && NoNegativeCost(r) && t + r[i].cost + r[j].cost > Exact(r[j])
    ensures !Meets(r, t, Exact)
  {
    OneOf(r[..j], i);
    TotalCostAppend(r[..j], r[j]);
    assert r[..j + 1] == r[..j] + [r[j]];
    MeetsByPrefix(r, t, Exact);
    assert t + TotalCost(r[..j + 1]) > Exact(r[j + 1 - 1]);
  }

  lemma OneOf(q: seq<Job>, i: nat)
    requires i < |q| && NoNegativeCost(q)
    ensures TotalCost(q) >= q[i].cost
  {
    var one := [q[i]];
    assert one[1..] == [] && q[i] in multiset(q);
    TotalCostMonotone(one, q);
  }

  /** Ordered by whole seconds only, the second job has to go first. */
  lemma WholeSecondOrderIsNotExact()
    ensures var a, b := Job(10, 900000, 1.0), Job(10, 0, 0.5);
            && SortedBy([a, b], Whole) && !SortedBy([a, b], Exact)
            && Meets([b, a], 10.0, Exact) && !Meets([a, b], 10.0, Exact)
  {
    var a, b := Job(10, 900000, 1.0), Job(10, 0, 0.5);
    assert [a, b][1..] == [b] && [b, a][1..] == [a] && [a][1..] == [] && [b][1..] == [];
    assert [a, b][0] == a && [a, b][1] == b;
  }

  // ---------- blocks, bytes and the link ----------

  /** What is left of a flow's block, and its deadline. */
  datatype Block = Block(sec: int, usec: int, bytes: nat)

  function Bytes(q: seq<Block>): nat {
    if q == [] then 0 else q[0].bytes + Bytes(q[1..])
  }

  /** The limit the pass uses, in microseconds: one second after the deadline. */
  function ExactLimit(b: Block): int {
    (b.sec + 1) * 1000000 + b.usec
  }

  /** The same without the microseconds of the deadline. */
  function WholeLimit(b: Block): int {
    (b.sec + 1) * 1000000
  }

  /** A link that carries `speed` bits in a microsecond, started at time `t`, has carried each block, and all those
      before it, by the block's limit. */
  ghost predicate Carries(q: seq<Block>, t: real, speed: real, limit: Block -> int) {
    forall k :: 0 < k <= |q| ==> 8.0 * Bytes(q[..k]) as real <= (limit(q[k - 1]) as real - t * USEC) * speed
  }

  /** The time the rest of a block takes at `speed` megabits per second. */
  function Cost(remain: nat, speed: real): (c: real)
    requires speed > 0.0
    ensures c >= 0.0 && c * (speed * USEC) == 8.0 * remain as real
  {
    (remain as real * 8.0) / (speed * 1000.0 * 1000.0)
  }

  function JobOf(b: Block, speed: real): Job
    requires speed > 0.0
  {
    Job(b.sec, b.usec, Cost(b.bytes, speed))
  }

  function Jobs(q: seq<Block>, speed: real): (jobs: seq<Job>)
    requires speed > 0.0
    ensures |jobs| == |q| && forall i :: 0 <= i < |q| ==> jobs[i] == JobOf(q[i], speed)
  {
    if q == [] then [] else [JobOf(q[0], speed)] + Jobs(q[1..], speed)
  }

  lemma {:induction false} JobsTake(q: seq<Block>, speed: real)
    requires speed > 0.0
    ensures TotalCost(Jobs(q, speed)) * (speed * USEC) == 8.0 * Bytes(q) as real
    decreases |q|
  {
    hide Cost;
    if q != [] {
      JobsTake(q[1..], speed);
      assert Jobs(q, speed)[1..] == Jobs(q[1..], speed);
    }
  }

  lemma JobsPrefix(q: seq<Block>, k: nat, speed: real)
    requires speed > 0.0 && k <= |q|
    ensures Jobs(q, speed)[..k] == Jobs(q[..k], speed)
  {
    hide Cost;
  }

  lemma Scaled(x: real, y: real, c: real)
    requires c > 0.0
    ensures x <= y <==> x * c <= y * c
  {
  }

  /** The job's limit in seconds is the block's in microseconds. */
  predicate SameLimit(limit: Job -> real, micros: Block -> int, b: Block, speed: real)
    requires speed > 0.0
  {
    limit(JobOf(b, speed)) * USEC == micros(b) as real
  }

  lemma InTimeIs(q: seq<Block>, t: real, speed: real, limit: Job -> real, micros: Block -> int, k: nat)
    requires speed > 0.0 && 0 < k <= |q| && SameLimit(limit, micros, q[k - 1], speed)
    ensures t + TotalCost(Jobs(q, speed)[..k]) <= limit(Jobs(q, speed)[k - 1]) <==>
            8.0 * Bytes(q[..k]) as real <= (micros(q[k - 1]) as real - t * USEC) * speed
  {
    hide Cost, Jobs, TotalCost, Bytes;
    JobsPrefix(q, k, speed);
    JobsTake(q[..k], speed);
    var c, l := TotalCost(Jobs(q[..k], speed)), limit(JobOf(q[k - 1], speed));
    Scaled(c, l - t, speed * USEC);
    assert (l - t) * (speed * USEC) == (l * USEC - t * USEC) * speed;
  }

  /** Sending the jobs back to back meets their limits exactly if the link carries the blocks by theirs. */
  lemma CarriesIsMeets(q: seq<Block>, t: real, speed: real, limit: Job -> real, micros: Block -> int)
    requires speed > 0.0 && forall i :: 0 <= i < |q| ==> SameLimit(limit, micros, q[i], speed)
    ensures Carries(q, t, speed, micros) <==> Meets(Jobs(q, speed), t, limit)
  {
    hide Cost, Jobs, TotalCost, Bytes, Meets;
    var jobs := Jobs(q, speed);
    MeetsByPrefix(jobs, t, limit);
    forall k | 0 < k <= |q|
      ensures t + TotalCost(jobs[..k]) <= limit(jobs[k - 1]) <==>
              8.0 * Bytes(q[..k]) as real <= (micros(q[k - 1]) as real - t * USEC) * speed
    {
      InTimeIs(q, t, speed, limit, micros, k);
    }
  }

  lemma Limits(b: Block, speed: real)
    requires speed > 0.0
    ensures SameLimit(Exact, ExactLimit, b, speed) && SameLimit(Whole, WholeLimit, b, speed)
  {
  }

  lemma CarriesIs(q: seq<Block>, t: real, speed: real)
    requires speed > 0.0
    ensures Carries(q, t, speed, ExactLimit) <==> Meets(Jobs(q, speed), t, Exact)
    ensures Carries(q, t, speed, WholeLimit) <==> Meets(Jobs(q, speed), t, Whole)
  {
    forall i | 0 <= i < |q|
      ensures SameLimit(Exact, ExactLimit, q[i], speed) && SameLimit(Whole, WholeLimit, q[i], speed)
    {
      Limits(q[i], speed);
    }
    CarriesIsMeets(q, t, speed, Exact, ExactLimit);
    CarriesIsMeets(q, t, speed, Whole, WholeLimit);
  }

  lemma WithoutFirst<T>(p: seq<T>, q: seq<T>, i: nat)
    requires multiset(p) == multiset(q) && p != [] && i < |q| && q[i] == p[0]
    ensures multiset(p[1..]) == multiset(q[..i] + q[i + 1..])
  {
    assert p == [p[0]] + p[1..];
    assert q == q[..i] + [q[i]] + q[i + 1..];
    assert multiset(p[1..]) == multiset(p) - multiset{p[0]};
    assert multiset(q[..i] + q[i + 1..]) == multiset(q) - multiset{p[0]};
  }

  lemma PutBack<T>(q: seq<T>, i: nat)
    requires i < |q|
    ensures multiset(q) == multiset(q[..i] + q[i + 1..]) + multiset{q[i]}
  {
    assert q == q[..i] + [q[i]] + q[i + 1..];
  }

  /** The same blocks in another order are the same jobs in another order. */
  lemma {:induction false} JobsPermute(p: seq<Block>, q: seq<Block>, speed: real)
    requires speed > 0.0 && multiset(p) == multiset(q)
    ensures multiset(Jobs(p, speed)) == multiset(Jobs(q, speed))
    decreases |p|
  {
    hide Cost, Jobs;
    if p == [] {
      assert |multiset(q)| == 0;
    } else {
      assert p[0] in multiset(q);
      var i :| 0 <= i < |q| && q[i] == p[0];
      WithoutFirst(p, q, i);
      var others := q[..i] + q[i + 1..];
      JobsPermute(p[1..], others, speed);
      var a, b := Jobs(p, speed), Jobs(q, speed);
      assert a[..0] + a[1..] == Jobs(p[1..], speed) && b[..i] + b[i + 1..] == Jobs(others, speed);
      PutBack(a, 0);
      PutBack(b, i);
    }
  }

  /** `latest` is the latest time at which the link can start and still carry every block in time. */
  ghost predicate IsLatestStart(q: seq<Block>, speed: real, latest: real) {
    forall t :: Carries(q, t, speed, ExactLimit) <==> t <= latest
  }

  /** Some proper, non-empty rest of the queue has latest start 0. */
  ghost predicate HasZeroStart(q: seq<Block>, speed: real) {
    exists k :: 0 < k < |q| && IsLatestStart(q[k..], speed, 0.0)
  }

  lemma LatestStartIs(q: seq<Block>, speed: real, latest: real)
    requires speed > 0.0 && q != []
    ensures IsLatestStart(q, speed, latest) <==> latest == LatestStart(Jobs(q, speed), Exact)
  {
    hide Carries, Jobs, LatestStart, Meets;
    var jobs := Jobs(q, speed);
    forall t ensures Carries(q, t, speed, ExactLimit) <==> t <= LatestStart(jobs, Exact) {
      CarriesIs(q, t, speed);
      LatestStartIsExact(jobs, t, Exact);
    }
    if IsLatestStart(q, speed, latest) {
      assert Carries(q, latest, speed, ExactLimit) && Carries(q, LatestStart(jobs, Exact), speed, ExactLimit);
    }
  }

  lemma ZeroStartIs(q: seq<Block>, speed: real)
    requires speed > 0.0
    ensures HasZeroStart(q, speed) <==> HitsSentinel(Jobs(q, speed))
  {
    hide IsLatestStart, Jobs, LatestStart;
    var jobs := Jobs(q, speed);
    forall k | 0 < k < |q| ensures IsLatestStart(q[k..], speed, 0.0) <==> LatestStart(jobs[k..], Exact) == 0.0 {
      assert jobs[k..] == Jobs(q[k..], speed);
      LatestStartIs(q[k..], speed, 0.0);
    }
  }

  // ---------- the scheduler itself ----------

  ghost function BlockOf(f: Flow): Block
    reads f`sec, f`usec, f`blockRemain
  {
    Block(f.sec, f.usec, f.blockRemain)
  }

  ghost function Blocks(q: seq<Flow>): (blocks: seq<Block>)
    reads q`sec, q`usec, q`blockRemain
    ensures |blocks| == |q| && forall i :: 0 <= i < |q| ==> blocks[i] == BlockOf(q[i])
  {
    if q == [] then [] else [BlockOf(q[0])] + Blocks(q[1..])
  }

  /** A valid queue is what the optimality results ask for. */
  lemma QueueIsSorted(rq: RetransQueue, speed: real)
    requires rq.Valid() && speed > 0.0
    ensures var q := Jobs(Blocks(rq.queue), speed); Plausible(q) && SortedBy(q, Whole)
  {
    var q := rq.queue;
    forall i, j | 0 <= i < j < |q| ensures q[i].sec <= q[j].sec {
      assert rq.Before(q[i], q[j]);
    }
  }

  /** Refusing to send is safe: starting now meets every deadline, unless the pass came across 0. */
  lemma DenyIsSafe(q: seq<Job>, now: real)
    requires Plausible(q) && q != [] && now > 0.0 && now < BackwardPass(q)
    ensures Meets(q, now, Exact) <==> !HitsSentinel(q)
  {
    PassAgainstLatestStart(q);
    LatestStartIsExact(q, now, Exact);
  }

  /** However the flows are ordered, a start after `now` misses a whole-second deadline. */
  ghost predicate NoLaterStart(q: seq<Job>, now: real) {
    forall order, t :: multiset(order) == multiset(q) && t > now ==> !Meets(order, t, Whole)
  }

  /** Allowing to send is forced. */
  lemma AllowIsForced(q: seq<Job>, now: real)
    requires Plausible(q) && q != [] && SortedBy(q, Whole) && BackwardPass(q) <= now
    ensures NoLaterStart(q, now)
  {
    forall order, t | multiset(order) == multiset(q) && t > now ensures !Meets(order, t, Whole) {
      if Meets(order, t, Whole) {
        NoOrderStartsLater(q, order, t);
      }
    }
  }

  /** However the blocks are ordered, a link started after `now` is late for a whole-second deadline. */
  ghost predicate CannotWait(q: seq<Block>, speed: real, now: real) {
    forall order, t :: multiset(order) == multiset(q) && t > now ==> !Carries(order, t, speed, WholeLimit)
  }

  /** What a decision is worth. If it is urgent, no order of the blocks can start later. Unless some rest of the queue
      has latest start 0, it is urgent exactly if the link cannot start later and carry the queue in time, and if it
      is not, the link can start now. */
  ghost predicate Justified(q: seq<Block>, speed: real, now: real, urgent: bool) {
    && (urgent ==> CannotWait(q, speed, now))
    && (!HasZeroStart(q, speed) ==>
          && (urgent <==> forall t :: t > now ==> !Carries(q, t, speed, ExactLimit))
          && (!urgent ==> Carries(q, now, speed, ExactLimit)))
  }

  lemma UrgentIsForced(q: seq<Block>, speed: real, now: real)
    requires speed > 0.0 && NoLaterStart(Jobs(q, speed), now)
    ensures CannotWait(q, speed, now)
  {
    hide Jobs, Carries, Meets;
    forall order, t | multiset(order) == multiset(q) && t > now ensures !Carries(order, t, speed, WholeLimit) {
      JobsPermute(order, q, speed);
      CarriesIs(order, t, speed);
    }
  }

  /** The time the pass computes is the latest start, unless some rest has latest start 0. */
  lemma PassIsLatestStart(q: seq<Block>, speed: real)
    requires speed > 0.0 && q != [] && Plausible(Jobs(q, speed)) && !HasZeroStart(q, speed)
    ensures IsLatestStart(q, speed, BackwardPass(Jobs(q, speed)))
  {
    hide Jobs, IsLatestStart, HitsSentinel, HasZeroStart, Plausible;
    ZeroStartIs(q, speed);
    PassIsExactly(Jobs(q, speed));
    LatestStartIs(q, speed, BackwardPass(Jobs(q, speed)));
  }

  lemma DecisionIsJustified(rq: RetransQueue, speed: real, now: real)
    requires rq.Valid() && speed > 0.0 && now > 0.0 && rq.queue != []
    ensures var q := Blocks(rq.queue); Justified(q, speed, now, BackwardPass(Jobs(q, speed)) <= now)
  {
    hide rq.Valid, Jobs, Carries, HasZeroStart, CannotWait, NoLaterStart, Plausible, SortedBy, BackwardPass, Blocks;
    var q := Blocks(rq.queue);
    var pass := BackwardPass(Jobs(q, speed));
    QueueIsSorted(rq, speed);
    if pass <= now {
      AllowIsForced(Jobs(q, speed), now);
      UrgentIsForced(q, speed, now);
    }
    if !HasZeroStart(q, speed) {
      PassIsLatestStart(q, speed);
      assert pass > now ==> Carries(q, pass, speed, ExactLimit);
    }
  }

  method SetFlag(rq: RetransQueue, i: nat, ctx: Flow, flag: bool)
    requires rq.Valid() && i < |rq.queue| && ctx == rq.queue[i]
    modifies ctx`scheduleSend
    ensures rq.Valid() && Blocks(rq.queue) == old(Blocks(rq.queue))
    ensures ctx.scheduleSend == flag
    ensures forall k :: 0 <= k < |rq.queue| && k != i ==> rq.queue[k].scheduleSend == old(rq.queue[k].scheduleSend)
  {
    rq.Distinct(rq.queue);
    ctx.scheduleSend := flag;
  }

  /** The reverse loop, which also clears every flag. */
  method LatestCellularStart(rq: RetransQueue, cSpeed: real) returns (tEdf: real)
    requires rq.Valid() && cSpeed > 0.0
    modifies rq.queue`scheduleSend
    ensures rq.Valid() && Blocks(rq.queue) == old(Blocks(rq.queue))
    ensures forall i :: 0 <= i < |rq.queue| ==> !rq.queue[i].scheduleSend
    ensures tEdf == BackwardPass(Jobs(Blocks(rq.queue), cSpeed))
    ensures var q := Blocks(rq.queue); q != [] && !HasZeroStart(q, cSpeed) ==> IsLatestStart(q, cSpeed, tEdf)
  {
    hide rq.Valid, Jobs, Cost, Blocks, HasZeroStart, IsLatestStart;
    tEdf := 0.0;
    ghost var blocks := Blocks(rq.queue);
    ghost var jobs := Jobs(blocks, cSpeed);
    var i := |rq.queue|;
    while i > 0
      invariant 0 <= i <= |rq.queue| == |jobs|
      invariant rq.Valid() && Blocks(rq.queue) == blocks
      invariant forall k :: i <= k < |rq.queue| ==> !rq.queue[k].scheduleSend
      invariant tEdf == BackwardPass(jobs[i..])
    {
      i := i - 1;
      var ctx := rq.queue[i];
      var limit, cost := ctx.sec as real + ctx.usec as real / USEC + 1.0, Cost(ctx.blockRemain, cSpeed);
      assert jobs[i..][1..] == jobs[i + 1..] && jobs[i] == JobOf(BlockOf(ctx), cSpeed);
      if tEdf == 0.0 {
        tEdf := limit - cost;
      } else {
        tEdf := MinReal(tEdf, limit) - cost;
      }
      SetFlag(rq, i, ctx, false);
    }
    assert jobs[0..] == jobs;
    QueueIsSorted(rq, cSpeed);
    if blocks != [] && !HasZeroStart(blocks, cSpeed) {
      PassIsLatestStart(blocks, cSpeed);
    }
  }

  datatype Link = Keep | Mobile | WiFi

  /** One run of the scheduler over the queue: only the head may send; whether it may send over the
      cellular link, or which link to switch to, is decided by whether it can still wait. */
  method Schedule(rq: RetransQueue, now: real, wSpeed: real, cSpeed: real, mobileConnected: bool) returns (link: Link)
    requires rq.Valid() && now > 0.0 && cSpeed > 0.0
    modifies rq.queue`scheduleSend
    ensures rq.Valid() && Blocks(rq.queue) == old(Blocks(rq.queue))
    ensures forall i :: 0 < i < |rq.queue| ==> !rq.queue[i].scheduleSend
    ensures link.Keep? <==> mobileConnected || rq.queue == []
    ensures link.Mobile? ==> cSpeed > wSpeed
    ensures rq.queue != [] && mobileConnected ==> Justified(Blocks(rq.queue), cSpeed, now, rq.queue[0].scheduleSend)
    ensures rq.queue != [] && !mobileConnected ==> rq.queue[0].scheduleSend
    ensures rq.queue != [] && !mobileConnected && cSpeed > wSpeed ==>
      Justified(Blocks(rq.queue), cSpeed, now, link.Mobile?)
  {
    hide *;
    var tEdf := LatestCellularStart(rq, cSpeed);
    link := Keep;
    if |rq.queue| > 0 {
      DecisionIsJustified(rq, cSpeed, now);
      if mobileConnected {
        SetFlag(rq, 0, rq.queue[0], tEdf - now <= 0.0);
      } else {
        SetFlag(rq, 0, rq.queue[0], true);
        link := if cSpeed > wSpeed && tEdf - now <= 0.0 then Mobile else WiFi;
      }
    }
  }
}
