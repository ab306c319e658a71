/** The simulation loop of lab4/lab4/scheduling.c, for any processes and each of its schedulers. */
module SchedSim {
  import opened SchedModel
  import opened SrtOptimal
  import opened Policies
  import opened ProcessTable
  import opened RingQueue
  import opened Schedulers
  import W = WorkConservation
  import R = RoundRobin
  import P = PriorityRobin
  import S = ShortJobs

  ghost function LastArrival(jobs: seq<Job>): (a: nat)
    ensures forall i :: 0 <= i < |jobs| ==> jobs[i].arrival <= a
  {
    if jobs == [] then 0
    else
      var rest := LastArrival(jobs[..|jobs| - 1]);
      if jobs[|jobs| - 1].arrival > rest then jobs[|jobs| - 1].arrival else rest
  }

  /** Everything the loop maintains between iterations. */
  ghost predicate LoopInv(policy: Policy, jobs: seq<Job>, tr: seq<int>, cores: seq<Core>, ps: seq<Process>,
                          now: nat, prevPid: int, numFinished: nat, total: int)
  {
    && ValidJobs(jobs) && |ps| == |jobs| && now == |tr|
    && Run(policy, QUANTUM, jobs, tr, cores)
    && Records(jobs, tr, |tr|, ps)
    && Feasible(jobs, tr)
    && prevPid == LastRun(tr, |tr|) && -1 <= prevPid < |ps|
    && numFinished == CountDone(Rems(ps), |ps|)
    && total == TurnaroundUpTo(jobs, tr, |tr|, |jobs|)
    && (|tr| > 0 ==> !Done(jobs, tr, |tr| - 1))
  }

  lemma {:induction false} LoopStart(policy: Policy, ps: seq<Process>)
    requires ValidJobs(Jobs(ps)) && forall i :: 0 <= i < |ps| ==> Untouched(ps[i])
    ensures LoopInv(policy, Jobs(ps), [], [Start()], ps, 0, -1, 0, 0)
    ensures W.Total(Jobs(ps), [], 0) >= 0
  {
    var jobs := Jobs(ps);
    assert Rems(ps) == Rem(jobs, [], 0);
    forall i | 0 <= i < |ps|
      ensures Recorded(jobs, [], 0, ps, i)
    {
      assert Untouched(ps[i]) && jobs[i].runtime >= 1;
    }
    NoneDone(jobs, ps, |ps|);
    W.DoneIsZero(jobs, [], 0);
  }

  lemma {:induction false} NoneDone(jobs: seq<Job>, ps: seq<Process>, n: nat)
    requires jobs == Jobs(ps) && Positive(jobs) && Rems(ps) == Rem(jobs, [], 0) && n <= |ps|
    ensures CountDone(Rems(ps), n) == 0 && TurnaroundUpTo(jobs, [], 0, n) == 0
  {
    if n > 0 { NoneDone(jobs, ps, n - 1); }
  }

  /** What the invariant tells the schedulers. */
  lemma {:induction false} LoopFacts(policy: Policy, jobs: seq<Job>, tr: seq<int>, cores: seq<Core>,
                                     ps: seq<Process>, now: nat, prevPid: int, numFinished: nat, total: int)
    requires LoopInv(policy, jobs, tr, cores, ps, now, prevPid, numFinished, total)
    ensures Consistent(ps)
    ensures forall i :: 0 <= i < |ps| && ps[i].arrivaltime == now ==> ps[i].remainingtime > 0
    ensures policy.Rr? ==> R.RrInv(QUANTUM, jobs, Rems(ps), cores[now], now)
    ensures policy.Rrp? ==> P.Levels(jobs, Rems(ps), cores[now].pq, now)
  {
    RemNonnegative(jobs, tr, |tr|);
    forall i | 0 <= i < |ps|
      ensures ps[i].remainingtime >= 0 && (ps[i].finished <==> ps[i].remainingtime == 0)
      ensures ps[i].arrivaltime == now ==> ps[i].remainingtime > 0
    {
      assert Recorded(jobs, tr, |tr|, ps, i);
      assert Rems(ps)[i] == Rem(jobs, tr, |tr|)[i];
      assert jobs[i].runtime >= 1;
    }
    if policy.Rr? { R.RrInvariant(QUANTUM, jobs, tr, cores, |tr|); }
    if policy.Rrp? { P.RrpInvariant(QUANTUM, jobs, tr, cores, |tr|); }
  }

  /** A call of the scheduler keeps the loop going: it idles only before the last arrival, and
      names a ready process otherwise. */
  lemma {:induction false} LoopCall(policy: Policy, jobs: seq<Job>, tr: seq<int>, cores: seq<Core>, ps: seq<Process>,
                                    now: nat, prevPid: int, numFinished: nat, total: int, core: Core, c: int)
    requires LoopInv(policy, jobs, tr, cores, ps, now, prevPid, numFinished, total) && numFinished < |ps|
    requires Calls(policy, QUANTUM, jobs, Rems(ps), now, cores[now], core, c)
    ensures c == IDLE || Ready(jobs, Rem(jobs, tr, now), now, c)
    ensures c == IDLE ==> now < LastArrival(jobs)
    ensures Run(policy, QUANTUM, jobs, tr + [c], cores + [core]) && Feasible(jobs, tr + [c])
    ensures !Done(jobs, tr + [c], now)
  {
    RunGrows(policy, QUANTUM, jobs, tr, cores, core, c);
    AllWorkConserving(policy, QUANTUM, jobs, tr + [c], cores + [core]);
    PastRem(jobs, tr, c, now);
    assert FeasibleAt(jobs, tr + [c], now) && BusyAt(jobs, tr + [c], now);
    CountDoneAll(Rems(ps), |ps|);
    RemNonnegative(jobs, tr, now);
    var i :| 0 <= i < |ps| && Rems(ps)[i] != 0;
    assert Rem(jobs, tr, now)[i] > 0;
    if c == IDLE { assert i !in Pending(jobs, Rem(jobs, tr, now), now); }
  }

  lemma {:induction false} CallRange(policy: Policy, jobs: seq<Job>, tr: seq<int>, cores: seq<Core>,
                                     ps: seq<Process>, now: nat, prevPid: int, numFinished: nat, total: int,
                                     core: Core, c: int)
    requires LoopInv(policy, jobs, tr, cores, ps, now, prevPid, numFinished, total) && numFinished < |ps|
    requires Calls(policy, QUANTUM, jobs, Rems(ps), now, cores[now], core, c)
    ensures c == IDLE || 0 <= c < |ps|
  {
    LoopCall(policy, jobs, tr, cores, ps, now, prevPid, numFinished, total, core, c);
  }

  lemma {:induction false} LoopBounds(policy: Policy, jobs: seq<Job>, tr: seq<int>, cores: seq<Core>,
                                      ps: seq<Process>, now: nat, prevPid: int, numFinished: nat, total: int)
    requires LoopInv(policy, jobs, tr, cores, ps, now, prevPid, numFinished, total)
    ensures numFinished <= |ps| && W.Total(jobs, tr, now) >= 0
  {
    CountDoneAll(Rems(ps), |ps|);
    W.DoneIsZero(jobs, tr, now);
  }

  /** Less work is left, or none was lost and time has moved on, no further than the last arrival. */
  ghost predicate Closer(jobs: seq<Job>, tr: seq<int>, now: nat, tr': seq<int>, now': nat)
    requires now <= |tr| && now' <= |tr'|
  {
    && W.Total(jobs, tr', now') >= 0
    && (|| W.Total(jobs, tr', now') < W.Total(jobs, tr, now)
        || (W.Total(jobs, tr', now') == W.Total(jobs, tr, now) && now < now' <= LastArrival(jobs)))
  }

  lemma {:induction false} LoopIdle(policy: Policy, jobs: seq<Job>, tr: seq<int>, cores: seq<Core>, ps: seq<Process>,
                                    now: nat, prevPid: int, numFinished: nat, total: int, core: Core)
    requires LoopInv(policy, jobs, tr, cores, ps, now, prevPid, numFinished, total) && numFinished < |ps|
    requires Calls(policy, QUANTUM, jobs, Rems(ps), now, cores[now], core, IDLE)
    ensures LoopInv(policy, jobs, tr + [IDLE], cores + [core], ps, now + 1, prevPid, numFinished, total)
    ensures Closer(jobs, tr, now, tr + [IDLE], now + 1)
  {
    LoopCall(policy, jobs, tr, cores, ps, now, prevPid, numFinished, total, core, IDLE);
    RecordsIdle(jobs, tr, ps);
    TurnaroundGrows(jobs, tr, IDLE, |jobs|);
    PastRem(jobs, tr, IDLE, now);
    if |jobs| > 0 { PastStays(jobs, tr, IDLE, now, 0); }
    LoopBounds(policy, jobs, tr + [IDLE], cores + [core], ps, now + 1, prevPid, numFinished, total);
  }

  lemma {:induction false} LessLeft(jobs: seq<Job>, tr: seq<int>, c: nat, now: nat)
    requires now == |tr| && Feasible(jobs, tr + [c])
    ensures Closer(jobs, tr, now, tr + [c], now + 1)
  {
    PastRem(jobs, tr, c, now);
    W.TotalStep(jobs, tr + [c], now);
    assert (tr + [c])[now] == c;
    W.DoneIsZero(jobs, tr + [c], now + 1);
  }

  /** What a step does to the two sums of the loop. */
  lemma {:induction false} CountsStep(jobs: seq<Job>, tr: seq<int>, ps: seq<Process>, ps': seq<Process>, c: nat)
    requires Feasible(jobs, tr) && Records(jobs, tr, |tr|, ps) && c < |ps|
    requires Ready(jobs, Rem(jobs, tr, |tr|), |tr|, c)
    requires Stepped(ps, ps', LastRun(tr, |tr|), c, |tr|)
    ensures var last := ps'[c].remainingtime == 0;
            && CountDone(Rems(ps'), |ps'|) == CountDone(Rems(ps), |ps|) + (if last then 1 else 0)
            && TurnaroundUpTo(jobs, tr + [c], |tr| + 1, |jobs|) ==
               TurnaroundUpTo(jobs, tr, |tr|, |jobs|) + if last then |tr| + 1 - ps[c].arrivaltime else 0
  {
    TurnaroundGrows(jobs, tr, c, |jobs|);
    assert Rems(ps)[c] == Rem(jobs, tr, |tr|)[c];
    assert Rems(ps') == Rems(ps)[c := ps[c].remainingtime - 1];
    CountDoneUpdate(Rems(ps), |ps|, c, ps[c].remainingtime - 1);
  }

  lemma {:induction false} LoopRun(policy: Policy, jobs: seq<Job>, tr: seq<int>, cores: seq<Core>, ps: seq<Process>,
                                   ps': seq<Process>, now: nat, prevPid: int, numFinished: nat, total: int,
                                   core: Core, c: nat)
    requires LoopInv(policy, jobs, tr, cores, ps, now, prevPid, numFinished, total) && numFinished < |ps|
    requires Calls(policy, QUANTUM, jobs, Rems(ps), now, cores[now], core, c) && c < |ps|
    requires Stepped(ps, ps', prevPid, c, now)
    ensures var last := ps'[c].remainingtime == 0;
            LoopInv(policy, jobs, tr + [c], cores + [core], ps', now + 1, c,
                    if last then numFinished + 1 else numFinished,
                    if last then total + (now + 1 - ps[c].arrivaltime) else total)
    ensures ps[c].remainingtime > 0
    ensures Closer(jobs, tr, now, tr + [c], now + 1)
  {
    LoopCall(policy, jobs, tr, cores, ps, now, prevPid, numFinished, total, core, c);
    RecordsStep(jobs, tr, ps, ps', c);
    CountsStep(jobs, tr, ps, ps', c);
    LessLeft(jobs, tr, c, now);
  }

  lemma {:induction false} LoopEnd(policy: Policy, jobs: seq<Job>, tr: seq<int>, cores: seq<Core>, ps: seq<Process>,
                                   now: nat, prevPid: int, numFinished: nat, total: int)
    requires LoopInv(policy, jobs, tr, cores, ps, now, prevPid, numFinished, total) && numFinished == |ps|
    ensures W.Exact(jobs, tr) && WorkConserving(jobs, tr) && total == Turnaround(jobs, tr)
    ensures policy.Srt? ==> forall b :: Complete(jobs, b) ==> total <= Turnaround(jobs, b)
  {
    CountDoneAll(Rems(ps), |ps|);
    AllWorkConserving(policy, QUANTUM, jobs, tr, cores);
    if policy.Srt? {
      forall b | Complete(jobs, b)
        ensures total <= Turnaround(jobs, b)
      {
        W.SrtIsOptimal(jobs, tr, b);
      }
    }
  }

  /** The queues of the two round robins, which outlive a simulation. */
  class Queues {
    const rr: RoundRobinScheduler
    const pq: PriorityScheduler
    ghost const repr: set<object>

    ghost predicate Shape()
    {
      && pq.Shape() && pq.repr <= repr
      && rr in repr && rr.rrQueue in repr && rr.rrQueue.items in repr
      && rr !in pq.repr && rr.rrQueue !in pq.repr && rr.rrQueue.items !in pq.repr
      && rr.rrQueue.items.Length == MAX_QUEUE_SIZE
    }

    ghost predicate Valid()
      reads repr
    {
      Shape() && rr.Valid() && pq.Valid()
    }

    /** What a policy remembers; the scans remember nothing. */
    ghost function View(policy: Policy): Core
      requires Valid()
      reads repr
    {
      if policy.Rr? then rr.View() else if policy.Rrp? then pq.View() else Start()
    }

    constructor ()
      ensures Valid() && fresh(repr)
      ensures rr.currentPid == -1 && rr.timeOnCpu == 0
    {
      var r := new RoundRobinScheduler();
      var p := new PriorityScheduler();
      rr, pq := r, p;
      repr := {r, r.rrQueue, r.rrQueue.items} + p.repr;
    }

    method InitQueues()
      requires Shape()
      modifies repr
      ensures Valid()
      ensures rr.currentPid == old(rr.currentPid) && rr.timeOnCpu == old(rr.timeOnCpu)
      ensures rr.rrQueue.Contents() == [] && pq.View() == Start()
    {
      rr.rrQueue.InitQueue();
      pq.InitQueues();
    }

    /** Calls the scheduler that `policy` names. */
    method Schedule(policy: Policy, procs: array<Process>, t: nat) returns (pid: int)
      requires Valid() && procs !in repr && procs.Length <= MAX_QUEUE_SIZE
      requires Consistent(procs[..]) && ValidJobs(Jobs(procs[..]))
      requires forall i :: 0 <= i < procs.Length && procs[i].arrivaltime == t ==> procs[i].remainingtime > 0
      requires policy.Rr? ==> R.RrInv(QUANTUM, Jobs(procs[..]), Rems(procs[..]), View(policy), t)
      requires policy.Rrp? ==> P.Levels(Jobs(procs[..]), Rems(procs[..]), View(policy).pq, t)
      modifies repr
      ensures Valid()
      ensures Calls(policy, QUANTUM, Jobs(procs[..]), Rems(procs[..]), t, old(View(policy)), View(policy), pid)
      ensures !policy.Rr? ==> rr.currentPid == old(rr.currentPid) && rr.timeOnCpu == old(rr.timeOnCpu)
    {
      match policy
      case Fcfs => pid := FirstComeFirstServed(procs, t);
      case Srt => pid := ShortestRemainingTime(procs, t);
      case Rr => pid := rr.RoundRobin(procs, t);
      case Rrp => pid := pq.RoundRobinPriority(procs, t);
    }
  }

  /** The bookkeeping of one step: the process that ran before is marked off, the chosen one runs. */
  method RunProcess(procs: array<Process>, prevPid: int, nextPid: nat, currentTime: nat) returns (finished: bool)
    requires -1 <= prevPid < procs.Length && nextPid < procs.Length && procs[nextPid].remainingtime > 0
    modifies procs
    ensures Stepped(old(procs[..]), procs[..], prevPid, nextPid, currentTime)
    ensures finished <==> procs[nextPid].remainingtime == 0
  {
    if procs[nextPid].starttime == -1 {
      procs[nextPid] := procs[nextPid].(starttime := currentTime);
    }
    if prevPid >= 0 {
      procs[prevPid] := procs[prevPid].(running := false);
    }
    procs[nextPid] := procs[nextPid].(running := true);
    procs[nextPid] := procs[nextPid].(remainingtime := procs[nextPid].remainingtime - 1);
    finished := procs[nextPid].remainingtime == 0;
    if finished {
      procs[nextPid] := procs[nextPid].(endtime := currentTime + 1, finished := true);
    }
  }

  /** The call of the scheduler in one iteration. */
  method CallScheduler(policy: Policy, queues: Queues, procCopy: array<Process>, now: nat, ghost prevPid: int,
                       ghost numFinished: nat, ghost total: int, ghost jobs: seq<Job>, ghost tr: seq<int>,
                       ghost cores: seq<Core>)
    returns (nextPid: int)
    requires queues.Valid() && procCopy !in queues.repr && procCopy.Length <= MAX_QUEUE_SIZE
    requires LoopInv(policy, jobs, tr, cores, procCopy[..], now, prevPid, numFinished, total)
    requires queues.View(policy) == cores[now]
    modifies queues.repr
    ensures queues.Valid() && procCopy[..] == old(procCopy[..])
    ensures Calls(policy, QUANTUM, jobs, Rems(procCopy[..]), now, cores[now], queues.View(policy), nextPid)
    ensures !policy.Rr? ==>
              queues.rr.currentPid == old(queues.rr.currentPid) && queues.rr.timeOnCpu == old(queues.rr.timeOnCpu)
  {
    LoopFacts(policy, jobs, tr, cores, procCopy[..], now, prevPid, numFinished, total);
    nextPid := queues.Schedule(policy, procCopy, now);
  }

  /** The step of the chosen process in one iteration. */
  method RunChosen(policy: Policy, procCopy: array<Process>, nextPid: nat, now: nat, prevPid: int, numFinished: nat,
                   total: int, ghost jobs: seq<Job>, ghost tr: seq<int>, ghost cores: seq<Core>, ghost core: Core)
    returns (numFinished': nat, total': int)
    requires numFinished < procCopy.Length && nextPid < procCopy.Length
    requires LoopInv(policy, jobs, tr, cores, procCopy[..], now, prevPid, numFinished, total)
    requires Calls(policy, QUANTUM, jobs, Rems(procCopy[..]), now, cores[now], core, nextPid)
    modifies procCopy
    ensures LoopInv(policy, jobs, tr + [nextPid], cores + [core], procCopy[..], now + 1, nextPid, numFinished', total')
    ensures Closer(jobs, tr, now, tr + [nextPid], now + 1)
  {
    ghost var ps := procCopy[..];
    LoopCall(policy, jobs, tr, cores, ps, now, prevPid, numFinished, total, core, nextPid);
    var finished := RunProcess(procCopy, prevPid, nextPid, now);
    LoopRun(policy, jobs, tr, cores, ps, procCopy[..], now, prevPid, numFinished, total, core, nextPid);
    numFinished', total' := numFinished, total;
    if finished {
      numFinished' := numFinished + 1;
      total' := total + (procCopy[nextPid].endtime - procCopy[nextPid].arrivaltime);
    }
  }

  /** The rest of an iteration: time passes, or the chosen process runs. */
  method Proceed(policy: Policy, procCopy: array<Process>, nextPid: int, now: nat, prevPid: int, numFinished: nat,
                 total: int, ghost jobs: seq<Job>, ghost tr: seq<int>, ghost cores: seq<Core>, ghost core: Core)
    returns (prevPid': int, numFinished': nat, total': int)
    requires numFinished < procCopy.Length
    requires LoopInv(policy, jobs, tr, cores, procCopy[..], now, prevPid, numFinished, total)
    requires Calls(policy, QUANTUM, jobs, Rems(procCopy[..]), now, cores[now], core, nextPid)
    modifies procCopy
    ensures LoopInv(policy, jobs, tr + [nextPid], cores + [core], procCopy[..], now + 1, prevPid', numFinished', total')
    ensures Closer(jobs, tr, now, tr + [nextPid], now + 1)
  {
    CallRange(policy, jobs, tr, cores, procCopy[..], now, prevPid, numFinished, total, core, nextPid);
    if nextPid < 0 {
      LoopIdle(policy, jobs, tr, cores, procCopy[..], now, prevPid, numFinished, total, core);
      return prevPid, numFinished, total;
    }
    numFinished', total' :=
      RunChosen(policy, procCopy, nextPid, now, prevPid, numFinished, total, jobs, tr, cores, core);
    prevPid' := nextPid;
  }

  /** One iteration of the loop: work gets less, or time moves on towards the last arrival. */
  method Iterate(policy: Policy, queues: Queues, procCopy: array<Process>, now: nat, prevPid: int, numFinished: nat,
                 total: int, ghost jobs: seq<Job>, ghost tr: seq<int>, ghost cores: seq<Core>)
    returns (prevPid': int, numFinished': nat, total': int, now': nat, ghost tr': seq<int>, ghost cores': seq<Core>)
    requires queues.Valid() && procCopy !in queues.repr
    requires numFinished < procCopy.Length <= MAX_QUEUE_SIZE
    requires LoopInv(policy, jobs, tr, cores, procCopy[..], now, prevPid, numFinished, total)
    requires queues.View(policy) == cores[now]
    modifies queues.repr, procCopy
    ensures LoopInv(policy, jobs, tr', cores', procCopy[..], now', prevPid', numFinished', total')
    ensures queues.Valid() && queues.View(policy) == cores'[now']
    ensures !policy.Rr? ==>
              queues.rr.currentPid == old(queues.rr.currentPid) && queues.rr.timeOnCpu == old(queues.rr.timeOnCpu)
    ensures Closer(jobs, tr, now, tr', now')
  {
    var nextPid := CallScheduler(policy, queues, procCopy, now, prevPid, numFinished, total, jobs, tr, cores);
    prevPid', numFinished', total' :=
      Proceed(policy, procCopy, nextPid, now, prevPid, numFinished, total, jobs, tr, cores, queues.View(policy));
    now', tr', cores' := now + 1, tr + [nextPid], cores + [queues.View(policy)];
  }

  /** The loop, which ends because every iteration does some work or brings the last arrival nearer. */
  method RunLoop(policy: Policy, queues: Queues, procCopy: array<Process>, ghost jobs: seq<Job>)
    returns (prevPid: int, numFinished: nat, total: int, now: nat, ghost tr: seq<int>, ghost cores: seq<Core>)
    requires queues.Valid() && procCopy !in queues.repr && procCopy.Length <= MAX_QUEUE_SIZE
    requires LoopInv(policy, jobs, [], [Start()], procCopy[..], 0, -1, 0, 0)
    requires queues.View(policy) == Start()
    modifies queues.repr, procCopy
    ensures queues.Valid()
    ensures !policy.Rr? ==>
              queues.rr.currentPid == old(queues.rr.currentPid) && queues.rr.timeOnCpu == old(queues.rr.timeOnCpu)
    ensures LoopInv(policy, jobs, tr, cores, procCopy[..], now, prevPid, numFinished, total)
    ensures numFinished == procCopy.Length && queues.View(policy) == cores[now]
  {
    prevPid, numFinished, total, now := -1, 0, 0, 0;
    tr, cores := [], [Start()];
    LoopBounds(policy, jobs, tr, cores, procCopy[..], now, prevPid, numFinished, total);
    while numFinished < procCopy.Length
      invariant LoopInv(policy, jobs, tr, cores, procCopy[..], now, prevPid, numFinished, total)
      invariant numFinished <= procCopy.Length && W.Total(jobs, tr, now) >= 0
      invariant queues.Valid() && queues.View(policy) == cores[now]
      invariant !policy.Rr? ==>
                  queues.rr.currentPid == old(queues.rr.currentPid) && queues.rr.timeOnCpu == old(queues.rr.timeOnCpu)
      decreases W.Total(jobs, tr, now), LastArrival(jobs) - now
    {
      prevPid, numFinished, total, now, tr, cores :=
        Iterate(policy, queues, procCopy, now, prevPid, numFinished, total, jobs, tr, cores);
      LoopBounds(policy, jobs, tr, cores, procCopy[..], now, prevPid, numFinished, total);
    }
  }

  /** One simulation.  It ends, with every process finished at the recorded time; the total is the
      turnaround of the schedule it ran, and under shortest remaining time no schedule has less. */
  method Simulate(policy: Policy, proc: seq<Process>, queues: Queues)
    returns (final: seq<Process>, totalTurnaround: int, currentTime: nat, ghost tr: seq<int>, ghost cores: seq<Core>)
    requires |proc| <= MAX_QUEUE_SIZE && ValidJobs(Jobs(proc))
    requires forall i :: 0 <= i < |proc| ==> Untouched(proc[i])
    requires queues.Shape() && (policy.Rr? ==> queues.rr.currentPid == -1 && queues.rr.timeOnCpu == 0)
    modifies queues.repr
    ensures queues.Valid()
    ensures !policy.Rr? ==>
              queues.rr.currentPid == old(queues.rr.currentPid) && queues.rr.timeOnCpu == old(queues.rr.timeOnCpu)
    ensures Run(policy, QUANTUM, Jobs(proc), tr, cores) && queues.View(policy) == cores[|tr|]
    ensures W.Exact(Jobs(proc), tr) && WorkConserving(Jobs(proc), tr)
    ensures currentTime == |tr| && Records(Jobs(proc), tr, |tr|, final)
    ensures |final| == |proc|
    ensures forall i :: 0 <= i < |final| ==> RunsBetween(tr, i, final[i].starttime, final[i].endtime)
    ensures totalTurnaround == Turnaround(Jobs(proc), tr)
    ensures policy.Srt? ==> forall b :: Complete(Jobs(proc), b) ==> totalTurnaround <= Turnaround(Jobs(proc), b)
  {
    queues.InitQueues();
    var procCopy := new Process[|proc|](i requires 0 <= i < |proc| => proc[i]);
    assert procCopy[..] == proc;
    LoopStart(policy, proc);
    var prevPid, numFinished;
    prevPid, numFinished, totalTurnaround, currentTime, tr, cores := RunLoop(policy, queues, procCopy, Jobs(proc));
    final := procCopy[..];
    LoopEnd(policy, Jobs(proc), tr, cores, final, currentTime, prevPid, numFinished, totalTurnaround);
    forall i | 0 <= i < |final|
      ensures RunsBetween(tr, i, final[i].starttime, final[i].endtime)
    {
      RecordedTimes(Jobs(proc), tr, final, i);
    }
  }

  /** What one simulation reports: its end and its total. */
  ghost predicate Outcome(policy: Policy, jobs: seq<Job>, tr: seq<int>, total: int, end: nat) {
    && W.Exact(jobs, tr) && WorkConserving(jobs, tr) && end == |tr| && total == Turnaround(jobs, tr)
    && (policy.Srt? ==> forall b :: Complete(jobs, b) ==> total <= Turnaround(jobs, b))
    && (policy.Fcfs? || (policy.Rr? && forall i :: 0 <= i < |jobs| ==> jobs[i].runtime <= 50) ==>
          S.FirstComeSchedule(jobs, tr))
  }

  /** Round robin and first come first served do the same when no process needs more than fifty steps. */
  lemma {:induction false} SameWhenShort(jobs: seq<Job>, a: seq<int>, b: seq<int>, fcfs: int, rr: int, end: nat,
                                         end': nat)
    requires Outcome(Fcfs, jobs, a, fcfs, end) && Outcome(Rr, jobs, b, rr, end') && end == end'
    requires forall i :: 0 <= i < |jobs| ==> jobs[i].runtime <= 50
    ensures fcfs == rr
  {
    S.OneFirstCome(jobs, a, b, |a|);
    assert a[..|a|] == a && b[..|b|] == b;
  }

  /** Two simulations of the same processes. */
  lemma {:induction false} SrtAgainst(policy: Policy, jobs: seq<Job>, a: seq<int>, b: seq<int>, srt: int, other: int,
                                      end: nat, end': nat)
    requires Outcome(Srt, jobs, a, srt, end) && Outcome(policy, jobs, b, other, end')
    ensures srt <= other && end == end'
  {
    W.SameFinish(jobs, a, b);
    assert Complete(jobs, b);
  }

  lemma {:induction false} FirstComeRuns(policy: Policy, jobs: seq<Job>, tr: seq<int>, cores: seq<Core>)
    requires ValidJobs(jobs) && Run(policy, QUANTUM, jobs, tr, cores)
    ensures policy.Fcfs? || (policy.Rr? && forall i :: 0 <= i < |jobs| ==> jobs[i].runtime <= 50) ==>
              S.FirstComeSchedule(jobs, tr)
  {
    if policy.Fcfs? {
      forall t | 0 <= t < |tr|
        ensures S.FcfsAt(jobs, tr, t)
      {
        assert CallAt(policy, QUANTUM, jobs, tr, cores, t);
      }
    } else if policy.Rr? && forall i :: 0 <= i < |jobs| ==> jobs[i].runtime <= 50 {
      S.ShortJobsInOrder(jobs, tr, cores);
    }
  }

  method Measure(policy: Policy, proc: seq<Process>, queues: Queues)
    returns (total: int, end: nat, ghost tr: seq<int>)
    requires |proc| <= MAX_QUEUE_SIZE && ValidJobs(Jobs(proc))
    requires forall i :: 0 <= i < |proc| ==> Untouched(proc[i])
    requires queues.Shape() && (policy.Rr? ==> queues.rr.currentPid == -1 && queues.rr.timeOnCpu == 0)
    modifies queues.repr
    ensures queues.Shape() && Outcome(policy, Jobs(proc), tr, total, end)
    ensures !policy.Rr? ==>
              queues.rr.currentPid == old(queues.rr.currentPid) && queues.rr.timeOnCpu == old(queues.rr.timeOnCpu)
  {
    var final;
    ghost var cores;
    final, total, end, tr, cores := Simulate(policy, proc, queues);
    FirstComeRuns(policy, Jobs(proc), tr, cores);
  }

  /** The four simulations in a row: all end at the same time, and shortest remaining time has the
      least total turnaround; round robin has that of first come first served when no runtime is
      over fifty. */
  method CompareSchedulers(proc: seq<Process>) returns (fcfs: int, srt: int, rr: int, rrp: int, ends: seq<nat>)
    requires |proc| <= MAX_QUEUE_SIZE && ValidJobs(Jobs(proc))
    requires forall i :: 0 <= i < |proc| ==> Untouched(proc[i])
    ensures srt <= fcfs && srt <= rr && srt <= rrp
    ensures (forall i :: 0 <= i < |proc| ==> proc[i].runtime <= 50) ==> rr == fcfs
    ensures |ends| == 4 && ends[0] == ends[1] == ends[2] == ends[3]
  {
    var queues := new Queues();
    ghost var tr0, tr1, tr2, tr3;
    var end0, end1, end2, end3;
    fcfs, end0, tr0 := Measure(Fcfs, proc, queues);
    srt, end1, tr1 := Measure(Srt, proc, queues);
    rr, end2, tr2 := Measure(Rr, proc, queues);
    rrp, end3, tr3 := Measure(Rrp, proc, queues);
    SrtAgainst(Fcfs, Jobs(proc), tr1, tr0, srt, fcfs, end1, end0);
    SrtAgainst(Rr, Jobs(proc), tr1, tr2, srt, rr, end1, end2);
    SrtAgainst(Rrp, Jobs(proc), tr1, tr3, srt, rrp, end1, end3);
    if forall i :: 0 <= i < |proc| ==> proc[i].runtime <= 50 {
      SameWhenShort(Jobs(proc), tr0, tr2, fcfs, rr, end0, end2);
    }
    ends := [end0, end1, end2, end3];
  }
}
