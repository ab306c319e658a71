/** First come, first served runs each process as one block, in (arrival, index) order. */
module FirstCome {
  import opened SchedModel
  import opened Policies

  lemma {:induction false} FcfsWorkConserving(quantum: nat, jobs: seq<Job>, tr: seq<int>, cores: seq<Core>)
    requires Run(Fcfs, quantum, jobs, tr, cores)
    ensures Feasible(jobs, tr) && WorkConserving(jobs, tr)
  {
    forall t | 0 <= t < |tr|
      ensures FeasibleAt(jobs, tr, t) && BusyAt(jobs, tr, t)
    {
      assert CallAt(Fcfs, quantum, jobs, tr, cores, t);
    }
  }

  /** Whoever comes earlier has finished before a later process runs at all. */
  lemma {:induction false} FcfsOrder(quantum: nat, jobs: seq<Job>, tr: seq<int>, cores: seq<Core>, t: nat, i: int)
    requires Positive(jobs) && Run(Fcfs, quantum, jobs, tr, cores) && t < |tr| && tr[t] != IDLE
    requires 0 <= i < |jobs| && 0 <= tr[t] < |jobs|
    requires jobs[i].arrival < jobs[tr[t]].arrival || (jobs[i].arrival == jobs[tr[t]].arrival && i < tr[t])
    ensures Rem(jobs, tr, t)[i] == 0
  {
    FcfsWorkConserving(quantum, jobs, tr, cores);
    RemNonnegative(jobs, tr, t);
    assert FeasibleAt(jobs, tr, t);
    assert CallAt(Fcfs, quantum, jobs, tr, cores, t);
    assert !Ready(jobs, Rem(jobs, tr, t), t, i);
  }

  /** The process at the head stays there: whoever arrives meanwhile arrives later. */
  lemma {:induction false} StillFirst(quantum: nat, jobs: seq<Job>, tr: seq<int>, cores: seq<Core>, t: nat)
    requires Run(Fcfs, quantum, jobs, tr, cores) && t + 1 < |tr|
    requires 0 <= tr[t] < |jobs| && Rem(jobs, tr, t + 1)[tr[t]] > 0
    ensures tr[t + 1] == tr[t]
  {
    var c, d := tr[t], tr[t + 1];
    var now, next := Rem(jobs, tr, t), Rem(jobs, tr, t + 1);
    assert CallAt(Fcfs, quantum, jobs, tr, cores, t);
    assert CallAt(Fcfs, quantum, jobs, tr, cores, t + 1);
    assert c in Pending(jobs, next, t + 1);
    if d != c {
      assert Earlier(jobs, d, c);
      assert Ready(jobs, now, t, d);
      assert false;
    }
  }

  /** A process that starts at `t` runs in every step until it is finished. */
  lemma {:induction false} FcfsBlock(quantum: nat, jobs: seq<Job>, tr: seq<int>, cores: seq<Core>, t: nat, k: nat)
    requires Positive(jobs) && Run(Fcfs, quantum, jobs, tr, cores) && t + k <= |tr| && t < |tr|
    requires 0 <= tr[t] < |jobs| && Rem(jobs, tr, t)[tr[t]] == jobs[tr[t]].runtime && k <= jobs[tr[t]].runtime
    ensures Rem(jobs, tr, t + k)[tr[t]] == jobs[tr[t]].runtime - k
    ensures t + k < |tr| && k < jobs[tr[t]].runtime ==> tr[t + k] == tr[t]
  {
    var c := tr[t];
    FcfsWorkConserving(quantum, jobs, tr, cores);
    assert FeasibleAt(jobs, tr, t);
    if k > 0 {
      FcfsBlock(quantum, jobs, tr, cores, t, k - 1);
      if t + k < |tr| && k < jobs[c].runtime { StillFirst(quantum, jobs, tr, cores, t + k - 1); }
    }
  }

  /** So its end time is its start time plus its runtime. */
  lemma {:induction false} FcfsEndTime(quantum: nat, jobs: seq<Job>, tr: seq<int>, cores: seq<Core>, t: nat)
    requires Positive(jobs) && Run(Fcfs, quantum, jobs, tr, cores) && t < |tr|
    requires 0 <= tr[t] < |jobs| && Rem(jobs, tr, t)[tr[t]] == jobs[tr[t]].runtime
    requires t + jobs[tr[t]].runtime <= |tr|
    ensures EndTime(jobs, tr, |tr|, tr[t]) == t + jobs[tr[t]].runtime
  {
    var c, e := tr[t], t + jobs[tr[t]].runtime;
    FcfsBlock(quantum, jobs, tr, cores, t, jobs[c].runtime);
    FcfsBlock(quantum, jobs, tr, cores, t, jobs[c].runtime - 1);
    FcfsWorkConserving(quantum, jobs, tr, cores);
    EndTimeStays(jobs, tr, e, |tr|, c);
  }

  lemma {:induction false} EndTimeStays(jobs: seq<Job>, tr: seq<int>, e: nat, t: nat, c: nat)
    requires Feasible(jobs, tr) && e <= t <= |tr| && c < |jobs| && Rem(jobs, tr, e)[c] == 0
    ensures Rem(jobs, tr, t)[c] == 0 && EndTime(jobs, tr, t, c) == EndTime(jobs, tr, e, c)
  {
    if e < t {
      EndTimeStays(jobs, tr, e, t - 1, c);
      assert FeasibleAt(jobs, tr, t - 1);
    }
  }
}
