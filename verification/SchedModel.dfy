/** Unit-step scheduling on one processor: what a schedule is and what it costs, independently of
    any policy. */
module SchedModel {
  const IDLE: int := -1

  datatype Job = Job(arrival: nat, runtime: nat, priority: nat)

  /** Remaining times after the first `t` choices of `tr`. */
  ghost function Rem(jobs: seq<Job>, tr: seq<int>, t: nat): (r: seq<int>)
    requires t <= |tr|
    ensures |r| == |jobs|
  {
    if t == 0 then seq(|jobs|, i requires 0 <= i < |jobs| => jobs[i].runtime)
    else
      var r := Rem(jobs, tr, t - 1);
      var c := tr[t - 1];
      if 0 <= c < |r| then r[c := r[c] - 1] else r
  }

  ghost predicate Ready(jobs: seq<Job>, rem: seq<int>, t: nat, i: int)
    requires |rem| == |jobs|
  {
    0 <= i < |jobs| && jobs[i].arrival <= t && rem[i] > 0
  }

  /** The processes that have arrived and are unfinished. */
  ghost function Pending(jobs: seq<Job>, rem: seq<int>, t: nat): set<int>
    requires |rem| == |jobs|
  {
    set i | 0 <= i < |jobs| && Ready(jobs, rem, t, i)
  }

  ghost predicate FeasibleAt(jobs: seq<Job>, tr: seq<int>, t: nat)
    requires t < |tr|
  {
    tr[t] == IDLE || Ready(jobs, Rem(jobs, tr, t), t, tr[t])
  }

  /** A schedule may leave the processor idle at will, but runs only ready processes. */
  ghost predicate Feasible(jobs: seq<Job>, tr: seq<int>) {
    forall t :: 0 <= t < |tr| ==> FeasibleAt(jobs, tr, t)
  }

  ghost predicate BusyAt(jobs: seq<Job>, tr: seq<int>, t: nat)
    requires t < |tr|
  {
    tr[t] == IDLE ==> Pending(jobs, Rem(jobs, tr, t), t) == {}
  }

  /** Never idle while some process is ready. */
  ghost predicate WorkConserving(jobs: seq<Job>, tr: seq<int>) {
    forall t :: 0 <= t < |tr| ==> BusyAt(jobs, tr, t)
  }

  ghost predicate Done(jobs: seq<Job>, tr: seq<int>, t: nat)
    requires t <= |tr|
  {
    forall i :: 0 <= i < |jobs| ==> Rem(jobs, tr, t)[i] == 0
  }

  ghost predicate Complete(jobs: seq<Job>, tr: seq<int>) {
    Feasible(jobs, tr) && Done(jobs, tr, |tr|)
  }

  /** The moment process `i` used up its runtime, or -1. */
  ghost function EndTime(jobs: seq<Job>, tr: seq<int>, t: nat, i: nat): int
    requires t <= |tr| && i < |jobs|
  {
    if t == 0 then -1
    else if Rem(jobs, tr, t)[i] == 0 && Rem(jobs, tr, t - 1)[i] > 0 then t
    else EndTime(jobs, tr, t - 1, i)
  }

  /** End minus arrival, summed over the finished ones of the first `n` processes. */
  ghost function TurnaroundUpTo(jobs: seq<Job>, tr: seq<int>, t: nat, n: nat): int
    requires t <= |tr| && n <= |jobs|
  {
    if n == 0 then 0
    else TurnaroundUpTo(jobs, tr, t, n - 1) +
         if Rem(jobs, tr, t)[n - 1] == 0 then EndTime(jobs, tr, t, n - 1) - jobs[n - 1].arrival else 0
  }

  ghost function Turnaround(jobs: seq<Job>, tr: seq<int>): int {
    TurnaroundUpTo(jobs, tr, |tr|, |jobs|)
  }

  ghost function PendingAt(jobs: seq<Job>, tr: seq<int>, t: nat): nat
    requires t <= |tr|
  {
    |Pending(jobs, Rem(jobs, tr, t), t)|
  }

  /** The number of (step, arrived but unfinished process) pairs before time `t`. */
  ghost function PendingSteps(jobs: seq<Job>, tr: seq<int>, t: nat): nat
    requires t <= |tr|
  {
    if t == 0 then 0
    else PendingSteps(jobs, tr, t - 1) + PendingAt(jobs, tr, t - 1)
  }

  lemma {:induction false} RemNonnegative(jobs: seq<Job>, tr: seq<int>, t: nat)
    requires Feasible(jobs, tr) && t <= |tr|
    ensures forall i :: 0 <= i < |jobs| ==> 0 <= Rem(jobs, tr, t)[i] <= jobs[i].runtime
    ensures forall i :: 0 <= i < |jobs| && jobs[i].arrival >= t ==> Rem(jobs, tr, t)[i] == jobs[i].runtime
  {
    if t > 0 {
      RemNonnegative(jobs, tr, t - 1);
      assert FeasibleAt(jobs, tr, t - 1);
    }
  }

  lemma {:induction false} RemPrefix(jobs: seq<Job>, tr: seq<int>, tr': seq<int>, t: nat)
    requires t <= |tr| && t <= |tr'| && tr[..t] == tr'[..t]
    ensures Rem(jobs, tr, t) == Rem(jobs, tr', t)
  {
    if t > 0 {
      assert tr[..t][..t - 1] == tr'[..t][..t - 1];
      assert tr[..t][t - 1] == tr'[..t][t - 1];
      RemPrefix(jobs, tr, tr', t - 1);
    }
  }

  /** What one process has waited and run so far: until it ends, its age. */
  ghost function Age(jobs: seq<Job>, tr: seq<int>, t: nat, i: nat): int
    requires t <= |tr| && i < |jobs|
  {
    if Rem(jobs, tr, t)[i] == 0 then EndTime(jobs, tr, t, i) - jobs[i].arrival
    else if jobs[i].arrival <= t then t - jobs[i].arrival
    else 0
  }

  ghost function AgeUpTo(jobs: seq<Job>, tr: seq<int>, t: nat, n: nat): int
    requires t <= |tr| && n <= |jobs|
  {
    if n == 0 then 0 else AgeUpTo(jobs, tr, t, n - 1) + Age(jobs, tr, t, n - 1)
  }

  ghost function PendingBelow(jobs: seq<Job>, rem: seq<int>, t: nat, n: nat): set<int>
    requires |rem| == |jobs| && n <= |jobs|
  {
    set i | 0 <= i < n && Ready(jobs, rem, t, i)
  }

  ghost predicate Positive(jobs: seq<Job>) {
    forall i :: 0 <= i < |jobs| ==> jobs[i].runtime >= 1
  }

  lemma {:induction false} AgeStep(jobs: seq<Job>, tr: seq<int>, t: nat, i: nat)
    requires Positive(jobs) && Feasible(jobs, tr) && t < |tr| && i < |jobs|
    ensures Age(jobs, tr, t + 1, i) ==
            Age(jobs, tr, t, i) + if Ready(jobs, Rem(jobs, tr, t), t, i) then 1 else 0
  {
    RemNonnegative(jobs, tr, t);
    RemNonnegative(jobs, tr, t + 1);
    assert FeasibleAt(jobs, tr, t);
  }

  lemma {:induction false} AgeUpToStep(jobs: seq<Job>, tr: seq<int>, t: nat, n: nat)
    requires Positive(jobs) && Feasible(jobs, tr) && t < |tr| && n <= |jobs|
    ensures AgeUpTo(jobs, tr, t + 1, n) ==
            AgeUpTo(jobs, tr, t, n) + |PendingBelow(jobs, Rem(jobs, tr, t), t, n)|
  {
    var rem := Rem(jobs, tr, t);
    if n == 0 {
      assert PendingBelow(jobs, rem, t, 0) == {};
    } else {
      AgeUpToStep(jobs, tr, t, n - 1);
      assert AgeUpTo(jobs, tr, t + 1, n) - AgeUpTo(jobs, tr, t, n) ==
             |PendingBelow(jobs, rem, t, n - 1)| + if Ready(jobs, rem, t, n - 1) then 1 else 0 by {
        AgeStep(jobs, tr, t, n - 1);
      }
      PendingBelowStep(jobs, rem, t, n);
    }
  }

  lemma {:induction false} PendingBelowStep(jobs: seq<Job>, rem: seq<int>, t: nat, n: nat)
    requires |rem| == |jobs| && 0 < n <= |jobs|
    ensures |PendingBelow(jobs, rem, t, n)| ==
            |PendingBelow(jobs, rem, t, n - 1)| + if Ready(jobs, rem, t, n - 1) then 1 else 0
  {
    if Ready(jobs, rem, t, n - 1) {
      assert PendingBelow(jobs, rem, t, n) == PendingBelow(jobs, rem, t, n - 1) + {n - 1};
    } else {
      assert PendingBelow(jobs, rem, t, n) == PendingBelow(jobs, rem, t, n - 1);
    }
  }

  lemma {:induction false} AgeInitial(jobs: seq<Job>, tr: seq<int>, n: nat)
    requires Positive(jobs) && n <= |jobs|
    ensures AgeUpTo(jobs, tr, 0, n) == 0
  {
    if n > 0 { AgeInitial(jobs, tr, n - 1); }
  }

  lemma {:induction false} AgeIsPending(jobs: seq<Job>, tr: seq<int>, t: nat)
    requires Positive(jobs) && Feasible(jobs, tr) && t <= |tr|
    ensures AgeUpTo(jobs, tr, t, |jobs|) == PendingSteps(jobs, tr, t)
  {
    if t == 0 {
      AgeInitial(jobs, tr, |jobs|);
    } else {
      AgeIsPending(jobs, tr, t - 1);
      AgeUpToStep(jobs, tr, t - 1, |jobs|);
      assert PendingBelow(jobs, Rem(jobs, tr, t - 1), t - 1, |jobs|) == Pending(jobs, Rem(jobs, tr, t - 1), t - 1);
    }
  }

  lemma {:induction false} AgeIsTurnaround(jobs: seq<Job>, tr: seq<int>, n: nat)
    requires Done(jobs, tr, |tr|) && n <= |jobs|
    ensures AgeUpTo(jobs, tr, |tr|, n) == TurnaroundUpTo(jobs, tr, |tr|, n)
  {
    if n > 0 { AgeIsTurnaround(jobs, tr, n - 1); }
  }

  /** Counting by processes and counting by steps agree: total turnaround is the number of
      (step, arrived but unfinished process) pairs. */
  lemma {:induction false} TurnaroundIsPendingSteps(jobs: seq<Job>, tr: seq<int>)
    requires Positive(jobs) && Complete(jobs, tr)
    ensures Turnaround(jobs, tr) == PendingSteps(jobs, tr, |tr|)
  {
    AgeIsTurnaround(jobs, tr, |jobs|);
    AgeIsPending(jobs, tr, |tr|);
  }
}
