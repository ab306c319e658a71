/** The process records of lab4/lab4/scheduling.c and what the simulation loop keeps true of them. */
module ProcessTable {
  import opened SchedModel
  import opened SrtOptimal
  import opened Policies
  import R = RoundRobin
  import P = PriorityRobin
  import F = FirstCome

  datatype Process = Process(arrivaltime: nat, starttime: int, runtime: nat, remainingtime: int,
                             endtime: int, priority: nat, running: bool, finished: bool)

  ghost function Jobs(ps: seq<Process>): (jobs: seq<Job>)
    ensures |jobs| == |ps|
    ensures forall i :: 0 <= i < |ps| ==> jobs[i] == Job(ps[i].arrivaltime, ps[i].runtime, ps[i].priority)
  {
    seq(|ps|, i requires 0 <= i < |ps| => Job(ps[i].arrivaltime, ps[i].runtime, ps[i].priority))
  }

  ghost function Rems(ps: seq<Process>): (rem: seq<int>)
    ensures |rem| == |ps|
    ensures forall i :: 0 <= i < |ps| ==> rem[i] == ps[i].remainingtime
  {
    seq(|ps|, i requires 0 <= i < |ps| => ps[i].remainingtime)
  }

  /** A process record before its simulation. */
  ghost predicate Untouched(p: Process) {
    p == Process(p.arrivaltime, -1, p.runtime, p.runtime, -1, p.priority, false, false)
  }

  /** The first step of process `i`, or -1. */
  ghost function StartTime(tr: seq<int>, t: nat, i: int): int
    requires t <= |tr|
  {
    if t == 0 then -1
    else if StartTime(tr, t - 1, i) == -1 && tr[t - 1] == i then t - 1
    else StartTime(tr, t - 1, i)
  }

  /** The last process that ran, or -1. */
  ghost function LastRun(tr: seq<int>, t: nat): int
    requires t <= |tr|
  {
    if t == 0 then IDLE else if tr[t - 1] != IDLE then tr[t - 1] else LastRun(tr, t - 1)
  }

  /** The records say what the schedule so far says. */
  ghost predicate Records(jobs: seq<Job>, tr: seq<int>, t: nat, ps: seq<Process>)
    requires t <= |tr|
  {
    && Jobs(ps) == jobs
    && Rems(ps) == Rem(jobs, tr, t)
    && forall i :: 0 <= i < |ps| ==> Recorded(jobs, tr, t, ps, i)
  }

  ghost predicate Recorded(jobs: seq<Job>, tr: seq<int>, t: nat, ps: seq<Process>, i: nat)
    requires t <= |tr| && i < |ps| == |jobs|
  {
    && (ps[i].finished <==> ps[i].remainingtime == 0)
    && ps[i].endtime == EndTime(jobs, tr, t, i)
    && ps[i].starttime == StartTime(tr, t, i)
    && (ps[i].running <==> i == LastRun(tr, t))
  }

  ghost function CountDone(rem: seq<int>, n: nat): nat
    requires n <= |rem|
  {
    if n == 0 then 0 else CountDone(rem, n - 1) + if rem[n - 1] == 0 then 1 else 0
  }

  lemma {:induction false} CountDoneAll(rem: seq<int>, n: nat)
    requires n <= |rem|
    ensures CountDone(rem, n) <= n
    ensures CountDone(rem, n) == n <==> forall i :: 0 <= i < n ==> rem[i] == 0
  {
    if n > 0 { CountDoneAll(rem, n - 1); }
  }

  lemma {:induction false} CountDoneUpdate(rem: seq<int>, n: nat, c: nat, v: int)
    requires n <= |rem| && c < |rem| && rem[c] != 0
    ensures CountDone(rem[c := v], n) == CountDone(rem, n) + if c < n && v == 0 then 1 else 0
  {
    if n > 0 { CountDoneUpdate(rem, n - 1, c, v); }
  }

  /** Longer schedules agree on what is past. */
  lemma {:induction false} PastStays(jobs: seq<Job>, tr: seq<int>, c: int, t: nat, i: nat)
    requires t <= |tr| && i < |jobs|
    ensures Rem(jobs, tr + [c], t) == Rem(jobs, tr, t)
    ensures EndTime(jobs, tr + [c], t, i) == EndTime(jobs, tr, t, i)
    ensures StartTime(tr + [c], t, i) == StartTime(tr, t, i)
    ensures LastRun(tr + [c], t) == LastRun(tr, t)
  {
    assert (tr + [c])[..t] == tr[..t];
    RemPrefix(jobs, tr, tr + [c], t);
    if t > 0 { PastStays(jobs, tr, c, t - 1, i); }
  }

  lemma {:induction false} PastRem(jobs: seq<Job>, tr: seq<int>, c: int, t: nat)
    requires t <= |tr|
    ensures Rem(jobs, tr + [c], t) == Rem(jobs, tr, t)
  {
    assert (tr + [c])[..t] == tr[..t];
    RemPrefix(jobs, tr, tr + [c], t);
  }

  lemma {:induction false} RunGrows(policy: Policy, quantum: nat, jobs: seq<Job>, tr: seq<int>, cores: seq<Core>,
                                    core: Core, c: int)
    requires Run(policy, quantum, jobs, tr, cores)
    requires Calls(policy, quantum, jobs, Rem(jobs, tr, |tr|), |tr|, cores[|tr|], core, c)
    ensures Run(policy, quantum, jobs, tr + [c], cores + [core])
  {
    forall t | 0 <= t < |tr| + 1
      ensures CallAt(policy, quantum, jobs, tr + [c], cores + [core], t)
    {
      PastRem(jobs, tr, c, t);
      if t < |tr| { assert CallAt(policy, quantum, jobs, tr, cores, t); }
    }
  }

  /** Turnaround changes by the age of the process that finishes, if one does. */
  lemma {:induction false} TurnaroundGrows(jobs: seq<Job>, tr: seq<int>, c: int, n: nat)
    requires Feasible(jobs, tr) && n <= |jobs|
    requires c == IDLE || Ready(jobs, Rem(jobs, tr, |tr|), |tr|, c)
    ensures TurnaroundUpTo(jobs, tr + [c], |tr| + 1, n) ==
            TurnaroundUpTo(jobs, tr, |tr|, n) +
            if 0 <= c < n && Rem(jobs, tr, |tr|)[c] == 1 then |tr| + 1 - jobs[c].arrival else 0
  {
    if n > 0 {
      TurnaroundGrows(jobs, tr, c, n - 1);
      PastStays(jobs, tr, c, |tr|, n - 1);
      RemNonnegative(jobs, tr, |tr|);
    }
  }

  /** The process runs first in step `start` and last in the step before `end`. */
  ghost predicate RunsBetween(tr: seq<int>, i: int, start: int, end: int) {
    && 0 <= start < end <= |tr| && tr[start] == i && tr[end - 1] == i
    && forall u :: 0 <= u < |tr| && tr[u] == i ==> start <= u < end
  }

  lemma {:induction false} StartIsFirst(tr: seq<int>, t: nat, i: int)
    requires t <= |tr|
    ensures var s := StartTime(tr, t, i);
            && (s == -1 || (0 <= s < t && tr[s] == i))
            && forall u :: 0 <= u < (if s == -1 then t else s) ==> tr[u] != i
  {
    if t > 0 { StartIsFirst(tr, t - 1, i); }
  }

  lemma {:induction false} EndIsLast(jobs: seq<Job>, tr: seq<int>, t: nat, i: nat)
    requires Positive(jobs) && Feasible(jobs, tr) && t <= |tr| && i < |jobs| && Rem(jobs, tr, t)[i] == 0
    ensures var e := EndTime(jobs, tr, t, i);
            0 < e <= t && tr[e - 1] == i && forall u :: e <= u < t ==> tr[u] != i
  {
    RemNonnegative(jobs, tr, t);
    if Rem(jobs, tr, t - 1)[i] == 0 {
      EndIsLast(jobs, tr, t - 1, i);
      assert FeasibleAt(jobs, tr, t - 1);
    }
  }

  /** What the two times in a record of a finished process say. */
  lemma {:induction false} RecordedTimes(jobs: seq<Job>, tr: seq<int>, ps: seq<Process>, i: nat)
    requires Positive(jobs) && Complete(jobs, tr) && Records(jobs, tr, |tr|, ps) && i < |ps|
    ensures RunsBetween(tr, i, ps[i].starttime, ps[i].endtime)
  {
    assert Recorded(jobs, tr, |tr|, ps, i);
    EndIsLast(jobs, tr, |tr|, i);
    StartIsFirst(tr, |tr|, i);
  }

  /** What the loop does to the record of the process it runs. */
  ghost function AfterStep(p: Process, t: nat): Process {
    var start := if p.starttime == -1 then t else p.starttime;
    if p.remainingtime == 1
    then p.(starttime := start, running := true, remainingtime := 0, endtime := t + 1, finished := true)
    else p.(starttime := start, running := true, remainingtime := p.remainingtime - 1)
  }

  ghost predicate Stepped(ps: seq<Process>, ps': seq<Process>, prev: int, c: nat, t: nat)
    requires c < |ps|
  {
    && |ps'| == |ps|
    && ps'[c] == AfterStep(ps[c], t)
    && forall i :: 0 <= i < |ps| && i != c ==> ps'[i] == if i == prev then ps[i].(running := false) else ps[i]
  }

  lemma {:induction false} RecordsStep(jobs: seq<Job>, tr: seq<int>, ps: seq<Process>, ps': seq<Process>, c: nat)
    requires Feasible(jobs, tr) && Records(jobs, tr, |tr|, ps) && c < |ps|
    requires Ready(jobs, Rem(jobs, tr, |tr|), |tr|, c)
    requires Stepped(ps, ps', LastRun(tr, |tr|), c, |tr|)
    ensures Records(jobs, tr + [c], |tr| + 1, ps')
  {
    var t := |tr|;
    PastRem(jobs, tr, c, t);
    assert Jobs(ps') == Jobs(ps);
    assert Rems(ps') == Rem(jobs, tr + [c], t + 1);
    RemNonnegative(jobs, tr, t);
    var longer, u := tr + [c], t + 1;
    forall i | 0 <= i < |ps'|
      ensures Recorded(jobs, longer, u, ps', i)
    {
      assert Recorded(jobs, tr, t, ps, i);
      PastStays(jobs, tr, c, t, i);
      if i == c { StartsByNow(tr, t, c); }
    }
  }

  lemma {:induction false} StartsByNow(tr: seq<int>, t: nat, i: int)
    requires t <= |tr|
    ensures -1 <= StartTime(tr, t, i) < t
  {
    if t > 0 { StartsByNow(tr, t - 1, i); }
  }

  lemma {:induction false} RecordsIdle(jobs: seq<Job>, tr: seq<int>, ps: seq<Process>)
    requires Records(jobs, tr, |tr|, ps)
    ensures Records(jobs, tr + [IDLE], |tr| + 1, ps)
  {
    var t := |tr|;
    PastRem(jobs, tr, IDLE, t);
    var longer, u := tr + [IDLE], t + 1;
    forall i | 0 <= i < |ps|
      ensures Recorded(jobs, longer, u, ps, i)
    {
      assert Recorded(jobs, tr, t, ps, i);
      PastStays(jobs, tr, IDLE, t, i);
    }
  }

  /** Every policy is work-conserving. */
  lemma {:induction false} AllWorkConserving(policy: Policy, quantum: nat, jobs: seq<Job>, tr: seq<int>,
                                             cores: seq<Core>)
    requires quantum >= 1 && ValidJobs(jobs) && Run(policy, quantum, jobs, tr, cores)
    ensures Feasible(jobs, tr) && WorkConserving(jobs, tr)
    ensures policy.Srt? ==> SrtRun(jobs, tr)
  {
    match policy
    case Fcfs => F.FcfsWorkConserving(quantum, jobs, tr, cores);
    case Srt =>
      forall t | 0 <= t < |tr|
        ensures SrtAt(jobs, tr, t)
      {
        assert CallAt(Srt, quantum, jobs, tr, cores, t);
      }
      SrtFeasible(jobs, tr);
    case Rr => R.RrWorkConserving(quantum, jobs, tr, cores);
    case Rrp => P.RrpWorkConserving(quantum, jobs, tr, cores);
  }
}
