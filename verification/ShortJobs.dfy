/** What the fixed quantum of `round_robin` does: short processes are never interrupted, and round
    robin is first come first served; long ones give way after exactly fifty steps. */
module ShortJobs {
  import opened SchedModel
  import opened SrtOptimal
  import opened Policies
  import opened Sets
  import R = RoundRobin
  import P = PriorityRobin

  ghost predicate FcfsAt(jobs: seq<Job>, tr: seq<int>, t: nat)
    requires t < |tr|
  {
    FcfsPick(jobs, Rem(jobs, tr, t), t, tr[t])
  }

  /** The schedule that serves processes in (arrival, index) order, one after the other. */
  ghost predicate FirstComeSchedule(jobs: seq<Job>, tr: seq<int>) {
    forall t :: 0 <= t < |tr| ==> FcfsAt(jobs, tr, t)
  }

  ghost predicate Precedes(jobs: seq<Job>, queue: seq<int>, a: int, b: int)
    requires 0 <= a < |queue| && 0 <= b < |queue|
  {
    0 <= queue[a] < |jobs| && 0 <= queue[b] < |jobs| && Earlier(jobs, queue[a], queue[b])
  }

  ghost predicate InLine(jobs: seq<Job>, queue: seq<int>) {
    forall a, b :: 0 <= a < b < |queue| ==> Precedes(jobs, queue, a, b)
  }

  /** The process at `cur` comes before all of the queue. */
  ghost predicate Ahead(jobs: seq<Job>, cur: int, queue: seq<int>) {
    forall q :: q in queue ==> 0 <= cur < |jobs| && 0 <= q < |jobs| && Earlier(jobs, cur, q)
  }

  /** The queue is in line; an unfinished process on the processor is ahead of it and will be
      finished within fifty steps of its dispatch. */
  ghost predicate Uninterrupted(jobs: seq<Job>, rem: seq<int>, core: Core) {
    && InLine(jobs, core.rr)
    && (Left(rem, core.cur) > 0 ==> Ahead(jobs, core.cur, core.rr) && Left(rem, core.cur) + core.onCpu < 50)
  }

  lemma {:induction false} ArrivalsInLine(jobs: seq<Job>, t: nat, n: nat)
    requires n <= |jobs|
    ensures InLine(jobs, Arrivals(jobs, t, -1, n))
  {
    if n > 0 {
      ArrivalsInLine(jobs, t, n - 1);
      var a, b := Arrivals(jobs, t, -1, n - 1), Arrivals(jobs, t, -1, n);
      R.ArrivalsAre(jobs, t, -1, n - 1);
      R.ArrivalsAre(jobs, t, -1, n);
      forall i, j | 0 <= i < j < |b|
        ensures Precedes(jobs, b, i, j)
      {
        if j < |a| { assert Precedes(jobs, a, i, j); } else { assert a[i] in a && b[j] in b; }
      }
    }
  }

  /** Newcomers go to the end of the line. */
  lemma {:induction false} JoinLine(jobs: seq<Job>, queue: seq<int>, t: nat)
    requires InLine(jobs, queue) && forall i :: i in queue ==> 0 <= i < |jobs| && jobs[i].arrival < t
    ensures InLine(jobs, queue + Arrivals(jobs, t, -1, |jobs|))
  {
    var a := Arrivals(jobs, t, -1, |jobs|);
    R.ArrivalsAre(jobs, t, -1, |jobs|);
    ArrivalsInLine(jobs, t, |jobs|);
    var joined := queue + a;
    forall i, j | 0 <= i < j < |joined|
      ensures Precedes(jobs, joined, i, j)
    {
      if j < |queue| {
        assert Precedes(jobs, queue, i, j);
      } else if i >= |queue| {
        assert Precedes(jobs, a, i - |queue|, j - |queue|);
      } else {
        assert queue[i] in queue && a[j - |queue|] in a;
      }
    }
  }

  lemma {:induction false} HeadAhead(jobs: seq<Job>, queue: seq<int>)
    requires InLine(jobs, queue) && queue != []
    ensures InLine(jobs, queue[1..]) && Ahead(jobs, queue[0], queue[1..])
  {
    var rest := queue[1..];
    forall i, j | 0 <= i < j < |rest|
      ensures Precedes(jobs, rest, i, j)
    {
      assert Precedes(jobs, queue, i + 1, j + 1);
    }
    forall q | q in rest
      ensures 0 <= queue[0] < |jobs| && 0 <= q < |jobs| && Earlier(jobs, queue[0], q)
    {
      var k :| 0 <= k < |rest| && rest[k] == q;
      assert Precedes(jobs, queue, 0, k + 1);
    }
  }

  /** One call with short processes: the first in line runs. */
  lemma {:induction false} ShortStep(jobs: seq<Job>, rem: seq<int>, core: Core, core': Core, t: nat, c: int)
    requires |rem| == |jobs| && R.RrInv(QUANTUM, jobs, rem, core, t) && Uninterrupted(jobs, rem, core)
    requires forall i :: 0 <= i < |jobs| ==> 0 <= rem[i] <= 50
    requires forall i :: 0 <= i < |jobs| && jobs[i].arrival == t ==> rem[i] > 0
    requires RrCall(QUANTUM, jobs, rem, core, t) == (core', c)
    ensures FcfsPick(jobs, rem, t, c) && Uninterrupted(jobs, Run1(rem, c), core')
  {
    var queue := core.rr + Arrivals(jobs, t, -1, |jobs|);
    R.ArrivalsAre(jobs, t, -1, |jobs|);
    R.HoldsArrivals(jobs, rem, core.rr, core.cur, t);
    R.RrStep(QUANTUM, jobs, rem, core, core', t, c);
    JoinLine(jobs, core.rr, t);
    if Left(rem, core.cur) > 0 {
      assert c == core.cur && core'.rr == queue;
      assert Ahead(jobs, c, queue);
    } else if queue != [] {
      HeadAhead(jobs, queue);
      assert c == queue[0] && core'.rr == queue[1..];
      assert queue == [c] + queue[1..];
    }
  }

  lemma {:induction false} ShortUntil(jobs: seq<Job>, tr: seq<int>, cores: seq<Core>, t: nat)
    requires Positive(jobs) && Run(Rr, QUANTUM, jobs, tr, cores) && t <= |tr|
    requires forall i :: 0 <= i < |jobs| ==> jobs[i].runtime <= 50
    ensures Uninterrupted(jobs, Rem(jobs, tr, t), cores[t])
    ensures forall u :: 0 <= u < t ==> FcfsAt(jobs, tr, u)
  {
    if t > 0 {
      ShortUntil(jobs, tr, cores, t - 1);
      R.RrInvariant(QUANTUM, jobs, tr, cores, t - 1);
      R.RemBefore(jobs, tr, t - 1);
      AtMostRuntime(jobs, tr, t - 1);
      assert CallAt(Rr, QUANTUM, jobs, tr, cores, t - 1);
      ShortStep(jobs, Rem(jobs, tr, t - 1), cores[t - 1], cores[t], t - 1, tr[t - 1]);
    }
  }

  lemma {:induction false} AtMostRuntime(jobs: seq<Job>, tr: seq<int>, t: nat)
    requires t <= |tr|
    ensures forall i :: 0 <= i < |jobs| ==> Rem(jobs, tr, t)[i] <= jobs[i].runtime
  {
    if t > 0 { AtMostRuntime(jobs, tr, t - 1); }
  }

  /** When no process needs more than fifty steps, round robin is first come first served: every
      process runs as one block, in (arrival, index) order. */
  lemma {:induction false} ShortJobsInOrder(jobs: seq<Job>, tr: seq<int>, cores: seq<Core>)
    requires Positive(jobs) && Run(Rr, QUANTUM, jobs, tr, cores)
    requires forall i :: 0 <= i < |jobs| ==> jobs[i].runtime <= 50
    ensures FirstComeSchedule(jobs, tr)
    ensures forall t :: 0 <= t < |tr| - 1 && Left(Rem(jobs, tr, t + 1), tr[t]) > 0 ==> tr[t + 1] == tr[t]
  {
    ShortUntil(jobs, tr, cores, |tr|);
    forall t | 0 <= t < |tr| - 1 && Left(Rem(jobs, tr, t + 1), tr[t]) > 0
      ensures tr[t + 1] == tr[t]
    {
      R.RrInvariant(QUANTUM, jobs, tr, cores, t + 1);
      ShortUntil(jobs, tr, cores, t + 1);
      R.CurIsLast(QUANTUM, jobs, tr, cores, t);
      assert CallAt(Rr, QUANTUM, jobs, tr, cores, t + 1);
    }
  }

  ghost predicate OtherReady(jobs: seq<Job>, tr: seq<int>, u: nat, p: int)
    requires u < |tr|
  {
    exists q :: q != p && Ready(jobs, Rem(jobs, tr, u), u, q)
  }

  /** A process that needs more than fifty steps at its dispatch runs for exactly fifty, and goes on
      after that only if nobody else is ready. */
  lemma {:induction false} LongJobGivesWay(jobs: seq<Job>, tr: seq<int>, cores: seq<Core>, t: nat)
    requires Positive(jobs) && Run(Rr, QUANTUM, jobs, tr, cores) && R.DispatchedAt(tr, cores, t)
    requires Left(Rem(jobs, tr, t), tr[t]) > 50 && t + 50 < |tr|
    ensures forall u :: t <= u < t + 50 ==> tr[u] == tr[t]
    ensures tr[t + 50] == tr[t] <==> !OtherReady(jobs, tr, t + 50, tr[t])
  {
    var p, u := tr[t], t + 50;
    R.SliceLength(QUANTUM, jobs, tr, cores, t);
    R.SliceRuns(QUANTUM, jobs, tr, cores, t, 49);
    R.RanOnce(jobs, tr, t + 49);
    R.CurIsLast(QUANTUM, jobs, tr, cores, t + 49);
    GivesWay(jobs, tr, cores, u);
  }

  /** The call that ends a slice. */
  lemma {:induction false} GivesWay(jobs: seq<Job>, tr: seq<int>, cores: seq<Core>, u: nat)
    requires Positive(jobs) && Run(Rr, QUANTUM, jobs, tr, cores) && u < |tr|
    requires cores[u].onCpu == 49 && Left(Rem(jobs, tr, u), cores[u].cur) > 0
    ensures tr[u] == cores[u].cur <==> !OtherReady(jobs, tr, u, cores[u].cur)
  {
    var core, rem, p := cores[u], Rem(jobs, tr, u), cores[u].cur;
    var queue := core.rr + Arrivals(jobs, u, -1, |jobs|);
    R.RrInvariant(QUANTUM, jobs, tr, cores, u);
    WorkKept(jobs, tr, cores, u);
    R.HoldsArrivals(jobs, rem, core.rr, p, u);
    assert CallAt(Rr, QUANTUM, jobs, tr, cores, u);
    if queue != [] {
      assert queue[0] in queue && tr[u] == queue[0];
      assert Ready(jobs, rem, u, queue[0]);
    }
  }

  lemma {:induction false} WorkKept(jobs: seq<Job>, tr: seq<int>, cores: seq<Core>, u: nat)
    requires Positive(jobs) && Run(Rr, QUANTUM, jobs, tr, cores) && u < |tr|
    ensures forall i :: 0 <= i < |jobs| && jobs[i].arrival == u ==> Rem(jobs, tr, u)[i] > 0
  {
    R.RrInvariant(QUANTUM, jobs, tr, cores, u);
    R.RemBefore(jobs, tr, u);
  }

  /** One call while `p` waits behind `q`: `p` does not run, and `q` does or stays ahead. */
  lemma {:induction false} StaysBehind(quantum: nat, jobs: seq<Job>, tr: seq<int>, cores: seq<Core>, u: nat,
                                       p: int, q: int)
    requires quantum >= 1 && Positive(jobs) && Run(Rr, quantum, jobs, tr, cores) && u < |tr|
    requires P.Before(cores[u].rr, q, p)
    ensures tr[u] != p && (tr[u] == q || P.Before(cores[u + 1].rr, q, p))
  {
    var core, rem := cores[u], Rem(jobs, tr, u);
    var a := Arrivals(jobs, u, -1, |jobs|);
    R.RrInvariant(quantum, jobs, tr, cores, u);
    R.RemBefore(jobs, tr, u);
    R.HoldsArrivals(jobs, rem, core.rr, core.cur, u);
    P.BeforeAppend(core.rr, a, q, p);
    assert CallAt(Rr, quantum, jobs, tr, cores, u);
    var queue := if cores[u + 1].onCpu != 0 || core.cur == IDLE || Left(rem, core.cur) == 0 then core.rr + a
                 else core.rr + a + [core.cur];
    P.BeforeAppend(core.rr + a, [core.cur], q, p);
    assert p in core.rr && core.cur != p;
    if cores[u + 1].onCpu == 0 { HeadLeaves(queue, q, p); }
  }

  lemma {:induction false} HeadLeaves(queue: seq<int>, q: int, p: int)
    requires P.Before(queue, q, p) && Distinct(queue)
    ensures queue[0] != p && (queue[0] == q || P.Before(queue[1..], q, p))
  {
    var i, j :| 0 <= i < j < |queue| && queue[i] == q && queue[j] == p;
    if i > 0 { assert queue[1..][i - 1] == q && queue[1..][j - 1] == p; }
  }

  /** A process that is interrupted goes behind all that are ready, those that arrive at that moment
      included: every one of them runs before it runs again. */
  lemma {:induction false} OthersFirst(quantum: nat, jobs: seq<Job>, tr: seq<int>, cores: seq<Core>, u: nat, w: nat,
                                       p: int, q: int)
    returns (v: nat)
    requires quantum >= 1 && Positive(jobs) && Run(Rr, quantum, jobs, tr, cores) && 0 < u < w < |tr|
    requires tr[u - 1] == p && tr[u] != p && tr[w] == p
    requires Ready(jobs, Rem(jobs, tr, u), u, p) && Ready(jobs, Rem(jobs, tr, u), u, q) && q != p
    ensures u <= v < w && tr[v] == q
  {
    BehindOthers(quantum, jobs, tr, cores, u, p, q);
    v := u;
    while v < w && tr[v] != q
      invariant u <= v <= w
      invariant v < |tr| && (tr[v] == q || P.Before(cores[v + 1].rr, q, p))
      invariant v == w ==> tr[w] != p
    {
      v := v + 1;
      StaysBehind(quantum, jobs, tr, cores, v, p, q);
    }
  }

  lemma {:induction false} BehindOthers(quantum: nat, jobs: seq<Job>, tr: seq<int>, cores: seq<Core>, u: nat,
                                        p: int, q: int)
    requires quantum >= 1 && Positive(jobs) && Run(Rr, quantum, jobs, tr, cores) && 0 < u < |tr|
    requires tr[u - 1] == p && tr[u] != p
    requires Ready(jobs, Rem(jobs, tr, u), u, p) && Ready(jobs, Rem(jobs, tr, u), u, q) && q != p
    ensures tr[u] == q || P.Before(cores[u + 1].rr, q, p)
  {
    var core, rem := cores[u], Rem(jobs, tr, u);
    var line := core.rr + Arrivals(jobs, u, -1, |jobs|);
    R.CurIsLast(quantum, jobs, tr, cores, u - 1);
    R.RrInvariant(quantum, jobs, tr, cores, u);
    R.RemBefore(jobs, tr, u);
    R.HoldsArrivals(jobs, rem, core.rr, p, u);
    assert CallAt(Rr, quantum, jobs, tr, cores, u);
    assert q in line;
    var i :| 0 <= i < |line| && line[i] == q;
    var queue := line + [p];
    assert queue[i] == q && queue[|line|] == p;
    DistinctConcat(line, [p]);
    HeadLeaves(queue, q, p);
  }

  /** There is only one such schedule of a given length. */
  lemma {:induction false} OneFirstCome(jobs: seq<Job>, a: seq<int>, b: seq<int>, t: nat)
    requires FirstComeSchedule(jobs, a) && FirstComeSchedule(jobs, b) && t <= |a| == |b|
    ensures a[..t] == b[..t] && Rem(jobs, a, t) == Rem(jobs, b, t)
  {
    if t > 0 {
      OneFirstCome(jobs, a, b, t - 1);
      assert FcfsAt(jobs, a, t - 1) && FcfsAt(jobs, b, t - 1);
      OnePick(jobs, Rem(jobs, a, t - 1), t - 1, a[t - 1], b[t - 1]);
      assert a[..t] == a[..t - 1] + [a[t - 1]] && b[..t] == b[..t - 1] + [b[t - 1]];
    }
  }

  lemma {:induction false} OnePick(jobs: seq<Job>, rem: seq<int>, t: nat, c: int, d: int)
    requires |rem| == |jobs| && FcfsPick(jobs, rem, t, c) && FcfsPick(jobs, rem, t, d)
    ensures c == d
  {
    if c != IDLE { assert c in Pending(jobs, rem, t) <==> Ready(jobs, rem, t, c); }
    if d != IDLE { assert d in Pending(jobs, rem, t) <==> Ready(jobs, rem, t, d); }
  }
}
