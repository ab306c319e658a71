/** Shortest remaining time minimises total turnaround over all preemptive schedules. */
module SrtOptimal {
  import opened SchedModel
  import opened SumOver
  import opened Sets

  /** A ready process with the least remaining time, or idle when none is ready. */
  ghost predicate SrtPick(jobs: seq<Job>, rem: seq<int>, t: nat, c: int)
    requires |rem| == |jobs|
  {
    if c == IDLE then Pending(jobs, rem, t) == {}
    else Ready(jobs, rem, t, c) && forall i :: Ready(jobs, rem, t, i) ==> rem[c] <= rem[i]
  }

  ghost predicate SrtAt(jobs: seq<Job>, tr: seq<int>, t: nat)
    requires t < |tr|
  {
    SrtPick(jobs, Rem(jobs, tr, t), t, tr[t])
  }

  ghost predicate SrtRun(jobs: seq<Job>, tr: seq<int>) {
    forall t :: 0 <= t < |tr| ==> SrtAt(jobs, tr, t)
  }

  ghost function Arrived(jobs: seq<Job>, t: nat): set<int> {
    set i | 0 <= i < |jobs| && jobs[i].arrival <= t
  }

  /** For every number of arrived processes, `a` has that many with no more work left in total
      than any choice of `b`.  Finished processes stay in, as zeros. */
  ghost predicate Dominates(jobs: seq<Job>, t: nat, a: seq<int>, b: seq<int>)
    requires |a| == |jobs| && |b| == |jobs|
  {
    forall m :: Matched(jobs, t, a, b, m)
  }

  ghost predicate Matched(jobs: seq<Job>, t: nat, a: seq<int>, b: seq<int>, m: set<int>)
    requires |a| == |jobs| && |b| == |jobs|
  {
    m <= Arrived(jobs, t) ==>
      exists k :: k <= Arrived(jobs, t) && |k| == |m| && Sum(a, k, |a|) <= Sum(b, m, |b|)
  }

  ghost function Run1(rem: seq<int>, c: int): (r: seq<int>)
    ensures |r| == |rem|
  {
    if 0 <= c < |rem| then rem[c := rem[c] - 1] else rem
  }

  /** One step of SRT lowers the sum over a well chosen set of the same size, unless it is zero. */
  lemma {:induction false} Improve(jobs: seq<Job>, t: nat, a: seq<int>, k: set<int>, c: int) returns (k': set<int>)
    requires |a| == |jobs| && k <= Arrived(jobs, t) && SrtPick(jobs, a, t, c)
    requires forall i :: 0 <= i < |jobs| ==> a[i] >= 0
    ensures k' <= Arrived(jobs, t) && |k'| == |k|
    ensures Sum(a, k, |a|) == 0 ==> Sum(Run1(a, c), k', |a|) <= 0
    ensures Sum(a, k, |a|) > 0 ==> Sum(Run1(a, c), k', |a|) <= Sum(a, k, |a|) - 1
  {
    k' := k;
    SumZero(a, k, |a|);
    if Sum(a, k, |a|) == 0 {
      SumAtMost(Run1(a, c), a, k, |a|);
    } else {
      var x :| x in k && a[x] > 0;
      assert x in Pending(jobs, a, t);
      if c !in k {
        SumExchange(a, k, |a|, x, c);
        k' := k - {x} + {c};
      }
      SumUpdate(a, k', |a|, c, a[c] - 1);
    }
  }

  lemma {:induction false} StepMatched(jobs: seq<Job>, t: nat, a: seq<int>, b: seq<int>, c: int, d: int, m: set<int>)
    requires |a| == |jobs| && |b| == |jobs| && Matched(jobs, t, a, b, m) && m <= Arrived(jobs, t)
    requires forall i :: 0 <= i < |jobs| ==> a[i] >= 0 && b[i] >= 0
    requires SrtPick(jobs, a, t, c) && (d == IDLE || Ready(jobs, b, t, d))
    ensures Matched(jobs, t, Run1(a, c), Run1(b, d), m)
  {
    var k :| k <= Arrived(jobs, t) && |k| == |m| && Sum(a, k, |a|) <= Sum(b, m, |b|);
    var b' := Run1(b, d);
    if d != IDLE { SumUpdate(b, m, |b|, d, b[d] - 1); }
    assert Sum(b', m, |b|) >= Sum(b, m, |b|) - 1;
    assert Sum(b', m, |b|) >= 0 by { SumZero(b', m, |b|); }
    assert Sum(a, k, |a|) >= 0 by { SumZero(a, k, |a|); }
    var k' := Improve(jobs, t, a, k, c);
    assert Sum(Run1(a, c), k', |a|) <= Sum(b', m, |b|);
  }

  /** Dominance survives a step in which `a` runs its shortest process and `b` anything. */
  lemma {:induction false} StepKeepsDominance(jobs: seq<Job>, t: nat, a: seq<int>, b: seq<int>, c: int, d: int)
    requires |a| == |jobs| && |b| == |jobs| && Dominates(jobs, t, a, b)
    requires forall i :: 0 <= i < |jobs| ==> a[i] >= 0 && b[i] >= 0
    requires SrtPick(jobs, a, t, c) && (d == IDLE || Ready(jobs, b, t, d))
    ensures Dominates(jobs, t, Run1(a, c), Run1(b, d))
  {
    forall m: set<int>
      ensures Matched(jobs, t, Run1(a, c), Run1(b, d), m)
    {
      assert Matched(jobs, t, a, b, m);
      if m <= Arrived(jobs, t) { StepMatched(jobs, t, a, b, c, d, m); }
    }
  }

  lemma {:induction false} ArrivalMatched(jobs: seq<Job>, t: nat, a: seq<int>, b: seq<int>, seen: set<int>,
                                          late: set<int>)
    requires |a| == |jobs| && |b| == |jobs| && Matched(jobs, t, a, b, seen)
    requires forall i :: 0 <= i < |jobs| && jobs[i].arrival > t ==> a[i] == b[i]
    requires seen <= Arrived(jobs, t) && late <= Arrived(jobs, t + 1) - Arrived(jobs, t)
    ensures Matched(jobs, t + 1, a, b, seen + late)
  {
    var k :| k <= Arrived(jobs, t) && |k| == |seen| && Sum(a, k, |a|) <= Sum(b, seen, |b|);
    assert k !! late && seen !! late;
    SumDisjoint(a, k, late, |a|);
    SumDisjoint(b, seen, late, |b|);
    SumAgree(a, b, late, |a|);
    assert |k + late| == |seen + late|;
    assert k + late <= Arrived(jobs, t + 1);
  }

  /** Dominance survives arrivals, which bring the same work to both. */
  lemma {:induction false} ArrivalKeepsDominance(jobs: seq<Job>, t: nat, a: seq<int>, b: seq<int>)
    requires |a| == |jobs| && |b| == |jobs| && Dominates(jobs, t, a, b)
    requires forall i :: 0 <= i < |jobs| && jobs[i].arrival > t ==> a[i] == b[i]
    ensures Dominates(jobs, t + 1, a, b)
  {
    var u := t + 1;
    forall m: set<int>
      ensures Matched(jobs, u, a, b, m)
    {
      var seen, late := m * Arrived(jobs, t), m - Arrived(jobs, t);
      assert Matched(jobs, t, a, b, seen);
      if m <= Arrived(jobs, t + 1) { ArrivalMatched(jobs, t, a, b, seen, late); }
      assert seen + late == m;
    }
  }

  lemma {:induction false} SrtDominates(jobs: seq<Job>, a: seq<int>, b: seq<int>, t: nat)
    requires SrtRun(jobs, a) && Feasible(jobs, b) && t <= |a| && t <= |b|
    ensures Dominates(jobs, t, Rem(jobs, a, t), Rem(jobs, b, t))
  {
    if t == 0 {
      forall m: set<int>
        ensures Matched(jobs, 0, Rem(jobs, a, 0), Rem(jobs, b, 0), m)
      {
      }
    } else {
      SrtDominates(jobs, a, b, t - 1);
      SrtFeasible(jobs, a);
      RemNonnegative(jobs, a, t - 1);
      RemNonnegative(jobs, b, t - 1);
      RemNonnegative(jobs, a, t);
      RemNonnegative(jobs, b, t);
      assert SrtAt(jobs, a, t - 1) && FeasibleAt(jobs, b, t - 1);
      StepKeepsDominance(jobs, t - 1, Rem(jobs, a, t - 1), Rem(jobs, b, t - 1), a[t - 1], b[t - 1]);
      ArrivalKeepsDominance(jobs, t - 1, Rem(jobs, a, t), Rem(jobs, b, t));
    }
  }

  lemma {:induction false} SrtFeasible(jobs: seq<Job>, tr: seq<int>)
    requires SrtRun(jobs, tr)
    ensures Feasible(jobs, tr) && WorkConserving(jobs, tr)
  {
    forall t | 0 <= t < |tr|
      ensures FeasibleAt(jobs, tr, t) && BusyAt(jobs, tr, t)
    {
      assert SrtAt(jobs, tr, t);
    }
  }

  /** A dominating vector has at least as many finished processes. */
  lemma {:induction false} DominancePending(jobs: seq<Job>, t: nat, a: seq<int>, b: seq<int>)
    requires |a| == |jobs| && |b| == |jobs| && Dominates(jobs, t, a, b)
    requires forall i :: 0 <= i < |jobs| ==> a[i] >= 0 && b[i] >= 0
    ensures |Pending(jobs, a, t)| <= |Pending(jobs, b, t)|
  {
    var all, pb := Arrived(jobs, t), Pending(jobs, b, t);
    var m := all - pb;
    assert Sum(b, m, |b|) == 0 by { SumZero(b, m, |b|); }
    assert Matched(jobs, t, a, b, m);
    var k :| k <= all && |k| == |m| && Sum(a, k, |a|) <= 0;
    NoneLeft(jobs, t, a, k);
    SubsetCard(Pending(jobs, a, t), all - k);
    SplitCard(all, k);
    SplitCard(all, pb);
  }

  lemma {:induction false} NoneLeft(jobs: seq<Job>, t: nat, a: seq<int>, k: set<int>)
    requires |a| == |jobs| && k <= Arrived(jobs, t) && Sum(a, k, |a|) <= 0
    requires forall i :: 0 <= i < |jobs| ==> a[i] >= 0
    ensures Pending(jobs, a, t) <= Arrived(jobs, t) - k
  {
    SumZero(a, k, |a|);
  }

  lemma {:induction false} SrtFewerPending(jobs: seq<Job>, a: seq<int>, b: seq<int>, t: nat)
    requires SrtRun(jobs, a) && Feasible(jobs, b) && t <= |a| && t <= |b|
    ensures PendingAt(jobs, a, t) <= PendingAt(jobs, b, t)
  {
    SrtDominates(jobs, a, b, t);
    SrtFeasible(jobs, a);
    RemNonnegative(jobs, a, t);
    RemNonnegative(jobs, b, t);
    DominancePending(jobs, t, Rem(jobs, a, t), Rem(jobs, b, t));
  }

  lemma {:induction false} SrtFewestPending(jobs: seq<Job>, a: seq<int>, b: seq<int>, t: nat)
    requires SrtRun(jobs, a) && Feasible(jobs, b) && t <= |a| && t <= |b|
    ensures PendingSteps(jobs, a, t) <= PendingSteps(jobs, b, t)
  {
    if t > 0 {
      SrtFewestPending(jobs, a, b, t - 1);
      SrtFewerPending(jobs, a, b, t - 1);
    }
  }
}
