/** Round robin: every ready process is in the queue or on the processor, exactly once. */
module RoundRobin {
  import opened SchedModel
  import opened SrtOptimal
  import opened Policies
  import opened Sets

  /** Of the processes with arrival before `u`, the queue and the processor together hold each
      unfinished one once.  The queue holds no other; the processor may hold a finished one. */
  ghost predicate Holds(jobs: seq<Job>, rem: seq<int>, queue: seq<int>, cur: int, u: nat)
    requires |rem| == |jobs|
  {
    && Distinct(queue) && cur !in queue
    && (forall i :: i in queue ==> 0 <= i < |jobs| && jobs[i].arrival < u && rem[i] > 0)
    && (cur == IDLE || (0 <= cur < |jobs| && jobs[cur].arrival < u))
    && (forall i :: 0 <= i < |jobs| && jobs[i].arrival < u && rem[i] > 0 ==> i in queue || i == cur)
  }

  ghost predicate RrInv(quantum: nat, jobs: seq<Job>, rem: seq<int>, core: Core, t: nat)
    requires |rem| == |jobs|
  {
    && Holds(jobs, rem, core.rr, core.cur, t)
    && 0 <= core.onCpu < quantum && (core.cur == IDLE ==> core.onCpu == 0)
  }

  lemma {:induction false} ArrivalsAre(jobs: seq<Job>, t: nat, level: int, n: nat)
    requires n <= |jobs|
    ensures var a := Arrivals(jobs, t, level, n);
            && Distinct(a)
            && forall i :: i in a <==> 0 <= i < n && jobs[i].arrival == t && (level < 0 || jobs[i].priority == level)
  {
    if n > 0 { ArrivalsAre(jobs, t, level, n - 1); }
  }

  lemma {:induction false} HoldsArrivals(jobs: seq<Job>, rem: seq<int>, queue: seq<int>, cur: int, t: nat)
    requires |rem| == |jobs| && Holds(jobs, rem, queue, cur, t)
    requires forall i :: 0 <= i < |jobs| && jobs[i].arrival == t ==> rem[i] > 0
    ensures Holds(jobs, rem, queue + Arrivals(jobs, t, -1, |jobs|), cur, t + 1)
  {
    var a := Arrivals(jobs, t, -1, |jobs|);
    ArrivalsAre(jobs, t, -1, |jobs|);
    DistinctConcat(queue, a);
    assert forall i :: i in queue + a <==> i in queue || i in a;
  }

  lemma {:induction false} HoldsRequeue(jobs: seq<Job>, rem: seq<int>, queue: seq<int>, cur: int, u: nat)
    requires |rem| == |jobs| && Holds(jobs, rem, queue, cur, u) && cur != IDLE
    ensures Left(rem, cur) == 0 ==> Holds(jobs, rem, queue, IDLE, u)
    ensures Left(rem, cur) > 0 ==> Holds(jobs, rem, queue + [cur], IDLE, u)
  {
    assert forall i :: i in queue + [cur] <==> i in queue || i == cur;
  }

  lemma {:induction false} HoldsDispatch(jobs: seq<Job>, rem: seq<int>, queue: seq<int>, u: nat)
    requires |rem| == |jobs| && Holds(jobs, rem, queue, IDLE, u) && queue != []
    ensures Holds(jobs, rem, queue[1..], queue[0], u) && rem[queue[0]] > 0
  {
    assert queue == [queue[0]] + queue[1..];
    assert forall i :: i in queue <==> i == queue[0] || i in queue[1..];
  }

  /** Work conservation of one call, and the invariant for the next. */
  lemma {:induction false} RrStep(quantum: nat, jobs: seq<Job>, rem: seq<int>, core: Core, core': Core, t: nat, c: int)
    requires quantum >= 1 && |rem| == |jobs| && RrInv(quantum, jobs, rem, core, t)
    requires forall i :: 0 <= i < |jobs| ==> rem[i] >= 0
    requires forall i :: 0 <= i < |jobs| && jobs[i].arrival == t ==> rem[i] > 0
    requires RrCall(quantum, jobs, rem, core, t) == (core', c)
    ensures if c == IDLE then Pending(jobs, rem, t) == {} else Ready(jobs, rem, t, c)
    ensures core'.cur == c
    ensures RrInv(quantum, jobs, Run1(rem, c), core', t + 1)
  {
    var queue := core.rr + Arrivals(jobs, t, -1, |jobs|);
    HoldsArrivals(jobs, rem, core.rr, core.cur, t);
    if core.cur != IDLE {
      HoldsRequeue(jobs, rem, queue, core.cur, t + 1);
      if Left(rem, core.cur) > 0 && core.onCpu + 1 >= quantum { queue := queue + [core.cur]; }
    }
    if core.cur == IDLE || Left(rem, core.cur) == 0 || core.onCpu + 1 >= quantum {
      if queue != [] { HoldsDispatch(jobs, rem, queue, t + 1); }
    }
    assert Holds(jobs, rem, core'.rr, c, t + 1);
  }

  lemma {:induction false} RrInvariant(quantum: nat, jobs: seq<Job>, tr: seq<int>, cores: seq<Core>, t: nat)
    requires quantum >= 1 && Positive(jobs) && Run(Rr, quantum, jobs, tr, cores) && t <= |tr|
    ensures RrInv(quantum, jobs, Rem(jobs, tr, t), cores[t], t)
    ensures forall u :: 0 <= u < t ==> FeasibleAt(jobs, tr, u) && BusyAt(jobs, tr, u)
  {
    if t > 0 {
      RrInvariant(quantum, jobs, tr, cores, t - 1);
      RemBefore(jobs, tr, t - 1);
      assert CallAt(Rr, quantum, jobs, tr, cores, t - 1);
      RrStep(quantum, jobs, Rem(jobs, tr, t - 1), cores[t - 1], cores[t], t - 1, tr[t - 1]);
    }
  }

  lemma {:induction false} RemBefore(jobs: seq<Job>, tr: seq<int>, t: nat)
    requires Positive(jobs) && t <= |tr| && forall u :: 0 <= u < t ==> FeasibleAt(jobs, tr, u)
    ensures forall i :: 0 <= i < |jobs| ==> Rem(jobs, tr, t)[i] >= 0
    ensures forall i :: 0 <= i < |jobs| && jobs[i].arrival >= t ==> Rem(jobs, tr, t)[i] == jobs[i].runtime > 0
  {
    if t > 0 {
      RemBefore(jobs, tr, t - 1);
      assert FeasibleAt(jobs, tr, t - 1);
    }
  }

  /** Round robin runs only ready processes and idles only when there is none. */
  lemma {:induction false} RrWorkConserving(quantum: nat, jobs: seq<Job>, tr: seq<int>, cores: seq<Core>)
    requires quantum >= 1 && Positive(jobs) && Run(Rr, quantum, jobs, tr, cores)
    ensures Feasible(jobs, tr) && WorkConserving(jobs, tr)
  {
    RrInvariant(quantum, jobs, tr, cores, |tr|);
  }

  /** A dispatch: the call at `t` hands the processor over, with a fresh quantum. */
  ghost predicate DispatchedAt(tr: seq<int>, cores: seq<Core>, t: nat) {
    t < |tr| && t + 1 < |cores| && tr[t] != IDLE && cores[t + 1].onCpu == 0
  }

  /** A dispatched process keeps the processor through its quantum, or until it is finished. */
  lemma {:induction false} SliceRuns(quantum: nat, jobs: seq<Job>, tr: seq<int>, cores: seq<Core>, t: nat, k: nat)
    requires quantum >= 1 && Positive(jobs) && Run(Rr, quantum, jobs, tr, cores) && DispatchedAt(tr, cores, t)
    requires t + k < |tr| && k < quantum && k < Left(Rem(jobs, tr, t), tr[t])
    ensures tr[t + k] == tr[t] && cores[t + k + 1].onCpu == k
    ensures Left(Rem(jobs, tr, t + k), tr[t]) == Left(Rem(jobs, tr, t), tr[t]) - k
  {
    RrInvariant(quantum, jobs, tr, cores, t + k);
    assert CallAt(Rr, quantum, jobs, tr, cores, t + k);
    if k > 0 {
      SliceRuns(quantum, jobs, tr, cores, t, k - 1);
      RanOnce(jobs, tr, t + k - 1);
      CurIsLast(quantum, jobs, tr, cores, t + k - 1);
    }
  }

  lemma {:induction false} RanOnce(jobs: seq<Job>, tr: seq<int>, t: nat)
    requires t < |tr| && 0 <= tr[t] < |jobs|
    ensures Left(Rem(jobs, tr, t + 1), tr[t]) == Left(Rem(jobs, tr, t), tr[t]) - 1
  {
  }

  lemma {:induction false} CurIsLast(quantum: nat, jobs: seq<Job>, tr: seq<int>, cores: seq<Core>, t: nat)
    requires quantum >= 1 && Run(Rr, quantum, jobs, tr, cores) && t < |tr|
    ensures cores[t + 1].cur == tr[t]
  {
    assert CallAt(Rr, quantum, jobs, tr, cores, t);
  }

  /** Every dispatch lasts exactly min(quantum, remaining time) consecutive steps: that many are
      run, and the next call is another dispatch or idle. */
  lemma {:induction false} SliceLength(quantum: nat, jobs: seq<Job>, tr: seq<int>, cores: seq<Core>, t: nat)
    requires quantum >= 1 && Positive(jobs) && Run(Rr, quantum, jobs, tr, cores) && DispatchedAt(tr, cores, t)
    ensures var left := Left(Rem(jobs, tr, t), tr[t]);
            var slice := if left < quantum then left else quantum;
            && slice >= 1
            && (forall u :: t <= u < t + slice && u < |tr| ==> tr[u] == tr[t])
            && (t + slice < |tr| ==> tr[t + slice] == IDLE || DispatchedAt(tr, cores, t + slice))
  {
    var left := Left(Rem(jobs, tr, t), tr[t]);
    var slice := if left < quantum then left else quantum;
    RrWorkConserving(quantum, jobs, tr, cores);
    assert FeasibleAt(jobs, tr, t);
    forall u | t <= u < t + slice && u < |tr|
      ensures tr[u] == tr[t]
    {
      SliceRuns(quantum, jobs, tr, cores, t, u - t);
    }
    if t + slice < |tr| {
      SliceRuns(quantum, jobs, tr, cores, t, slice - 1);
      RanOnce(jobs, tr, t + slice - 1);
      CurIsLast(quantum, jobs, tr, cores, t + slice - 1);
      var core := cores[t + slice];
      assert core.cur == tr[t] && core.onCpu == slice - 1;
      assert Left(Rem(jobs, tr, t + slice), tr[t]) == left - slice;
      assert CallAt(Rr, quantum, jobs, tr, cores, t + slice);
    }
  }

  /** Bounded wait: with `k` processes ahead of it in the queue after the call at `t`, a process
      runs no later than after the rest of the current slice and `k` full slices, whatever
      arrives meanwhile. */
  lemma {:induction false} BoundedWait(quantum: nat, jobs: seq<Job>, tr: seq<int>, cores: seq<Core>, t: nat, k: nat)
    returns (u: nat)
    requires quantum >= 1 && Positive(jobs) && Run(Rr, quantum, jobs, tr, cores)
    requires t < |tr| && k < |cores[t + 1].rr|
    requires Done(jobs, tr, |tr|)
    ensures t < u < |tr| && u <= t + (quantum - cores[t + 1].onCpu) + k * quantum
    ensures tr[u] == cores[t + 1].rr[k] && DispatchedAt(tr, cores, u)
    decreases |tr| - t
  {
    var core, p := cores[t + 1], cores[t + 1].rr[k];
    RrInvariant(quantum, jobs, tr, cores, t + 1);
    assert p in core.rr;
    assert t + 1 < |tr|;
    assert CallAt(Rr, quantum, jobs, tr, cores, t + 1);
    var next := cores[t + 2];
    if next.onCpu != 0 {
      assert next.onCpu == core.onCpu + 1 && next.rr[k] == p;
      u := BoundedWait(quantum, jobs, tr, cores, t + 1, k);
    } else if k == 0 {
      u := t + 1;
    } else {
      assert next.rr[k - 1] == p;
      u := BoundedWait(quantum, jobs, tr, cores, t + 1, k - 1);
      assert (k - 1) * quantum + quantum == k * quantum;
    }
  }
}
