/** Any two policies that never idle while work is ready do the same amount of work by every
    moment, idle at the same moments and finish together; nothing finishes earlier. */
module WorkConservation {
  import opened SchedModel
  import opened SumOver
  import opened SrtOptimal

  ghost function Everyone(jobs: seq<Job>): set<int> {
    set i {:trigger jobs[i]} | 0 <= i < |jobs|
  }

  /** Work left over all processes, arrived or not. */
  ghost function Total(jobs: seq<Job>, tr: seq<int>, t: nat): int
    requires t <= |tr|
  {
    Sum(Rem(jobs, tr, t), Everyone(jobs), |jobs|)
  }

  lemma {:induction false} TotalStep(jobs: seq<Job>, tr: seq<int>, t: nat)
    requires Feasible(jobs, tr) && t < |tr|
    ensures Total(jobs, tr, t + 1) == Total(jobs, tr, t) - if tr[t] == IDLE then 0 else 1
  {
    assert FeasibleAt(jobs, tr, t);
    var rem := Rem(jobs, tr, t);
    if tr[t] != IDLE { SumUpdate(rem, Everyone(jobs), |jobs|, tr[t], rem[tr[t]] - 1); }
  }

  /** No schedule is ever ahead of a work-conserving one. */
  lemma {:induction false} LeastLeft(jobs: seq<Job>, a: seq<int>, b: seq<int>, t: nat)
    requires Feasible(jobs, a) && WorkConserving(jobs, a) && Feasible(jobs, b) && t <= |a| && t <= |b|
    ensures Total(jobs, a, t) <= Total(jobs, b, t)
  {
    if t > 0 {
      LeastLeft(jobs, a, b, t - 1);
      TotalStep(jobs, a, t - 1);
      TotalStep(jobs, b, t - 1);
      if a[t - 1] == IDLE { IdleLeast(jobs, a, b, t - 1); }
    }
  }

  lemma {:induction false} IdleLeast(jobs: seq<Job>, a: seq<int>, b: seq<int>, t: nat)
    requires Feasible(jobs, a) && WorkConserving(jobs, a) && Feasible(jobs, b) && t < |a| && t < |b|
    requires a[t] == IDLE
    ensures Total(jobs, a, t + 1) <= Total(jobs, b, t + 1)
  {
    var x, y := Rem(jobs, a, t + 1), Rem(jobs, b, t + 1);
    assert BusyAt(jobs, a, t);
    RemNonnegative(jobs, a, t);
    RemNonnegative(jobs, a, t + 1);
    RemNonnegative(jobs, b, t + 1);
    forall i | 0 <= i < |jobs|
      ensures x[i] <= y[i]
    {
      assert i !in Pending(jobs, Rem(jobs, a, t), t);
    }
    SumAtMost(x, y, Everyone(jobs), |jobs|);
  }

  /** Work conservation: the work left is the same at every moment, and so are the idle moments. */
  lemma {:induction false} SameWork(jobs: seq<Job>, a: seq<int>, b: seq<int>, t: nat)
    requires Feasible(jobs, a) && WorkConserving(jobs, a) && Feasible(jobs, b) && WorkConserving(jobs, b)
    requires t <= |a| && t <= |b|
    ensures Total(jobs, a, t) == Total(jobs, b, t)
    ensures t < |a| && t < |b| ==> (a[t] == IDLE <==> b[t] == IDLE)
  {
    LeastLeft(jobs, a, b, t);
    LeastLeft(jobs, b, a, t);
    if t < |a| && t < |b| {
      TotalStep(jobs, a, t);
      TotalStep(jobs, b, t);
      LeastLeft(jobs, a, b, t + 1);
      LeastLeft(jobs, b, a, t + 1);
    }
  }

  lemma {:induction false} DoneIsZero(jobs: seq<Job>, tr: seq<int>, t: nat)
    requires Feasible(jobs, tr) && t <= |tr|
    ensures Total(jobs, tr, t) >= 0
    ensures Done(jobs, tr, t) <==> Total(jobs, tr, t) == 0
  {
    RemNonnegative(jobs, tr, t);
    SumZero(Rem(jobs, tr, t), Everyone(jobs), |jobs|);
  }

  lemma {:induction false} DoneStays(jobs: seq<Job>, tr: seq<int>, t: nat, u: nat)
    requires Feasible(jobs, tr) && t <= u <= |tr| && Done(jobs, tr, t)
    ensures Done(jobs, tr, u)
  {
    if t < u {
      DoneStays(jobs, tr, t, u - 1);
      assert FeasibleAt(jobs, tr, u - 1);
    }
  }

  /** A run that stops with the step that finishes its last process. */
  ghost predicate Exact(jobs: seq<Job>, tr: seq<int>) {
    Complete(jobs, tr) && (|tr| > 0 ==> !Done(jobs, tr, |tr| - 1))
  }

  lemma {:induction false} FinishesFirst(jobs: seq<Job>, a: seq<int>, b: seq<int>)
    requires Exact(jobs, a) && WorkConserving(jobs, a) && Complete(jobs, b)
    ensures |a| <= |b|
  {
    if |b| < |a| {
      LeastLeft(jobs, a, b, |b|);
      DoneIsZero(jobs, a, |b|);
      DoneIsZero(jobs, b, |b|);
      DoneStays(jobs, a, |b|, |a| - 1);
    }
  }

  /** All work-conserving policies finish at the same time. */
  lemma {:induction false} SameFinish(jobs: seq<Job>, a: seq<int>, b: seq<int>)
    requires Exact(jobs, a) && WorkConserving(jobs, a) && Exact(jobs, b) && WorkConserving(jobs, b)
    ensures |a| == |b|
  {
    FinishesFirst(jobs, a, b);
    FinishesFirst(jobs, b, a);
  }

  lemma {:induction false} PendingStepsMonotone(jobs: seq<Job>, tr: seq<int>, t: nat, u: nat)
    requires t <= u <= |tr|
    ensures PendingSteps(jobs, tr, t) <= PendingSteps(jobs, tr, u)
  {
    if t < u { PendingStepsMonotone(jobs, tr, t, u - 1); }
  }

  /** Shortest remaining time is optimal: no complete preemptive schedule, idling or not, has a
      smaller total turnaround. */
  lemma {:induction false} SrtIsOptimal(jobs: seq<Job>, a: seq<int>, b: seq<int>)
    requires Positive(jobs) && SrtRun(jobs, a) && Exact(jobs, a) && Complete(jobs, b)
    ensures Turnaround(jobs, a) <= Turnaround(jobs, b)
  {
    SrtFeasible(jobs, a);
    FinishesFirst(jobs, a, b);
    SrtFewestPending(jobs, a, b, |a|);
    PendingStepsMonotone(jobs, b, |a|, |b|);
    TurnaroundIsPendingSteps(jobs, a);
    TurnaroundIsPendingSteps(jobs, b);
  }
}
