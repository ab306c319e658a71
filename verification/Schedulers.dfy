/** The scheduler functions of lab4/lab4/scheduling.c: two scans of the process table, and two
    round robins over queues that persist between calls. */
module Schedulers {
  import opened Sets
  import opened SchedModel
  import opened SrtOptimal
  import opened Policies
  import opened ProcessTable
  import opened RingQueue
  import R = RoundRobin
  import P = PriorityRobin

  /** Finished and remaining time agree, as the simulation loop keeps them. */
  ghost predicate Consistent(ps: seq<Process>) {
    forall i :: 0 <= i < |ps| ==> ps[i].remainingtime >= 0 && (ps[i].finished <==> ps[i].remainingtime == 0)
  }

  method FirstComeFirstServed(procs: array<Process>, t: nat) returns (minIndex: int)
    requires Consistent(procs[..])
    ensures FcfsPick(Jobs(procs[..]), Rems(procs[..]), t, minIndex)
    ensures minIndex == -1 || 0 <= minIndex < procs.Length
    ensures forall i :: 0 <= i < procs.Length && procs[i].arrivaltime <= t && procs[i].remainingtime > 0 ==>
              && 0 <= minIndex && procs[minIndex].arrivaltime <= procs[i].arrivaltime
              && (i < minIndex ==> procs[minIndex].arrivaltime < procs[i].arrivaltime)
  {
    minIndex := -1;
    ghost var jobs, rem := Jobs(procs[..]), Rems(procs[..]);
    for i := 0 to procs.Length
      invariant minIndex == -1 ==> forall k :: 0 <= k < i ==> !Ready(jobs, rem, t, k)
      invariant minIndex != -1 ==> 0 <= minIndex < i && Ready(jobs, rem, t, minIndex)
      invariant minIndex != -1 ==>
                  forall k :: 0 <= k < i && Ready(jobs, rem, t, k) && k != minIndex ==> Earlier(jobs, minIndex, k)
    {
      if procs[i].arrivaltime <= t && !procs[i].finished {
        if minIndex == -1 || procs[i].arrivaltime < procs[minIndex].arrivaltime {
          minIndex := i;
        }
      }
    }
    forall i | 0 <= i < procs.Length && procs[i].arrivaltime <= t && procs[i].remainingtime > 0
      ensures Ready(jobs, rem, t, i) && minIndex != -1
    {
      assert Ready(jobs, rem, t, i);
    }
  }

  method ShortestRemainingTime(procs: array<Process>, t: nat) returns (minIndex: int)
    requires Consistent(procs[..])
    ensures SrtFirst(Jobs(procs[..]), Rems(procs[..]), t, minIndex)
    ensures minIndex == -1 || 0 <= minIndex < procs.Length
    ensures forall i :: 0 <= i < procs.Length && procs[i].arrivaltime <= t && procs[i].remainingtime > 0 ==>
              && 0 <= minIndex && procs[minIndex].remainingtime <= procs[i].remainingtime
              && (i < minIndex ==> procs[minIndex].remainingtime < procs[i].remainingtime)
  {
    minIndex := -1;
    ghost var jobs, rem := Jobs(procs[..]), Rems(procs[..]);
    for i := 0 to procs.Length
      invariant minIndex == -1 ==> forall k :: 0 <= k < i ==> !Ready(jobs, rem, t, k)
      invariant minIndex != -1 ==> 0 <= minIndex < i && Ready(jobs, rem, t, minIndex)
      invariant minIndex != -1 ==> forall k :: 0 <= k < i && Ready(jobs, rem, t, k) ==>
                  rem[minIndex] <= rem[k] && (k < minIndex ==> rem[minIndex] < rem[k])
    {
      if procs[i].arrivaltime <= t && !procs[i].finished {
        if minIndex == -1 || procs[i].remainingtime < procs[minIndex].remainingtime {
          minIndex := i;
        }
      }
    }
    forall i | 0 <= i < procs.Length && procs[i].arrivaltime <= t && procs[i].remainingtime > 0
      ensures Ready(jobs, rem, t, i) && minIndex != -1
    {
      assert Ready(jobs, rem, t, i);
    }
  }

  lemma {:induction false} ArrivalsPrefix(jobs: seq<Job>, t: nat, level: int, m: nat, n: nat)
    requires m <= n <= |jobs|
    ensures Arrivals(jobs, t, level, m) <= Arrivals(jobs, t, level, n)
  {
    if m < n { ArrivalsPrefix(jobs, t, level, m, n - 1); }
  }

  /** Queued processes are distinct, so no queue can overflow. */
  lemma {:induction false} RrRoom(jobs: seq<Job>, rem: seq<int>, queue: seq<int>, cur: int, t: nat, n: nat)
    requires |rem| == |jobs| && R.Holds(jobs, rem, queue, cur, t) && n <= |jobs|
    requires forall i :: 0 <= i < |jobs| && jobs[i].arrival == t ==> rem[i] > 0
    ensures |queue + Arrivals(jobs, t, -1, n)| <= |jobs|
    ensures cur != IDLE && n == |jobs| ==> |queue + Arrivals(jobs, t, -1, n)| < |jobs|
  {
    var all := queue + Arrivals(jobs, t, -1, |jobs|);
    R.HoldsArrivals(jobs, rem, queue, cur, t);
    ArrivalsPrefix(jobs, t, -1, n, |jobs|);
    DistinctBound(all, |jobs|);
    if cur != IDLE {
      DistinctConcat(all, [cur]);
      DistinctBound(all + [cur], |jobs|);
    }
  }

  /** There is room for all that arrive at `t`, at every moment of their queueing. */
  ghost predicate Fits(jobs: seq<Job>, queue: seq<int>, t: nat, level: int) {
    |jobs| <= MAX_QUEUE_SIZE &&
    forall n :: 0 <= n <= |jobs| ==> |queue + Arrivals(jobs, t, level, n)| <= |jobs|
  }

  lemma {:induction false} LevelRoom(jobs: seq<Job>, rem: seq<int>, queue: seq<int>, level: nat, t: nat, n: nat)
    requires |rem| == |jobs| && P.Level(jobs, rem, queue, level, t) && n <= |jobs|
    ensures |queue + Arrivals(jobs, t, level, n)| <= |jobs|
  {
    P.LevelArrivals(jobs, rem, queue, level, t);
    ArrivalsPrefix(jobs, t, level, n, |jobs|);
    DistinctBound(queue + Arrivals(jobs, t, level, |jobs|), |jobs|);
  }

  lemma {:induction false} LevelsFit(jobs: seq<Job>, rem: seq<int>, pq: seq<seq<int>>, t: nat)
    requires |rem| == |jobs| <= MAX_QUEUE_SIZE && P.Levels(jobs, rem, pq, t)
    ensures forall r :: 0 <= r < NUM_PRIORITIES ==> Fits(jobs, pq[r], t, r)
  {
    forall r, n | 0 <= r < NUM_PRIORITIES && 0 <= n <= |jobs|
      ensures |pq[r] + Arrivals(jobs, t, r, n)| <= |jobs|
    {
      LevelRoom(jobs, rem, pq[r], r, t, n);
    }
  }

  lemma {:induction false} NoArrivals(jobs: seq<Job>, pq: seq<seq<int>>, t: nat)
    ensures WithArrivals(jobs, pq, t, 0) == pq
  {
    forall r | 0 <= r < |pq|
      ensures WithArrivals(jobs, pq, t, 0)[r] == pq[r]
    {
    }
  }

  /** Queueing process `i` if it arrives now: there is room, and the queue is that of `i + 1`. */
  lemma {:induction false} JoinsQueue(jobs: seq<Job>, queue: seq<int>, t: nat, i: nat)
    requires i < |jobs| && Fits(jobs, queue, t, -1)
    ensures var (before, after) := (queue + Arrivals(jobs, t, -1, i), queue + Arrivals(jobs, t, -1, i + 1));
            && after == (if jobs[i].arrival == t then before + [i] else before)
            && (jobs[i].arrival == t ==> |before| < MAX_QUEUE_SIZE)
  {
    assert |queue + Arrivals(jobs, t, -1, i + 1)| <= |jobs|;
  }

  /** The same for the queue of its priority; the others stay as they are. */
  lemma {:induction false} OneArrival(jobs: seq<Job>, pq: seq<seq<int>>, t: nat, i: nat)
    requires i < |jobs| && ValidJobs(jobs) && |pq| == NUM_PRIORITIES
    requires forall r :: 0 <= r < NUM_PRIORITIES ==> Fits(jobs, pq[r], t, r)
    ensures jobs[i].priority < NUM_PRIORITIES
    ensures var before, after := WithArrivals(jobs, pq, t, i), WithArrivals(jobs, pq, t, i + 1);
            var r := jobs[i].priority;
            && after == (if jobs[i].arrival == t then before[r := before[r] + [i]] else before)
            && (jobs[i].arrival == t ==> |before[r]| < MAX_QUEUE_SIZE)
  {
    var before, after, r := WithArrivals(jobs, pq, t, i), WithArrivals(jobs, pq, t, i + 1), jobs[i].priority;
    assert |pq[r] + Arrivals(jobs, t, r, i + 1)| <= |jobs|;
    forall s | 0 <= s < |pq|
      ensures after[s] == if jobs[i].arrival == t && s == r then before[s] + [i] else before[s]
    {
      assert after[s] == pq[s] + Arrivals(jobs, t, s, i + 1);
    }
  }

  const NO_LEVELS: seq<seq<int>> := [[], [], []]

  /** `round_robin` with its queue and its static variables. */
  class RoundRobinScheduler {
    const rrQueue: Queue
    var currentPid: int
    var timeOnCpu: int

    ghost predicate Valid()
      reads this, rrQueue
    {
      rrQueue.Valid()
    }

    /** Its memory as the rules see it. */
    ghost function View(): Core
      requires Valid()
      reads this, rrQueue, rrQueue.items
    {
      Core(rrQueue.Contents(), currentPid, timeOnCpu, NO_LEVELS)
    }

    constructor ()
      ensures Valid() && View() == Start()
      ensures fresh(rrQueue) && fresh(rrQueue.items)
    {
      rrQueue := new Queue();
      currentPid, timeOnCpu := -1, 0;
    }

    /** Puts the processes that arrive now at the end of the queue. */
    method EnqueueArrivals(procs: array<Process>, t: nat)
      requires Valid() && procs.Length <= MAX_QUEUE_SIZE
      requires Fits(Jobs(procs[..]), rrQueue.Contents(), t, -1)
      modifies rrQueue, rrQueue.items
      ensures Valid()
      ensures rrQueue.Contents() == old(rrQueue.Contents()) + Arrivals(Jobs(procs[..]), t, -1, procs.Length)
    {
      ghost var jobs, queue := Jobs(procs[..]), rrQueue.Contents();
      for i := 0 to procs.Length
        invariant Valid() && rrQueue.Contents() == queue + Arrivals(jobs, t, -1, i)
      {
        JoinsQueue(jobs, queue, t, i);
        if procs[i].arrivaltime == t {
          var error := rrQueue.Enqueue(i);
        }
      }
    }

    /** The rest of a call: the process on the processor stays, or the head of the queue gets it. */
    method TakeTurn(procs: array<Process>) returns (pid: int)
      requires Valid() && -1 <= currentPid < procs.Length && Consistent(procs[..])
      requires currentPid != -1 ==> |rrQueue.Contents()| < MAX_QUEUE_SIZE
      requires -1 !in rrQueue.Contents() && (currentPid == -1 ==> timeOnCpu == 0)
      modifies this, rrQueue, rrQueue.items
      ensures Valid()
      ensures RrTurn(QUANTUM, Rems(procs[..]), old(View())) == (View(), pid)
    {
      if currentPid != -1 {
        assert Left(Rems(procs[..]), currentPid) == procs[currentPid].remainingtime;
        timeOnCpu := timeOnCpu + 1;
        if procs[currentPid].finished || timeOnCpu >= QUANTUM {
          if !procs[currentPid].finished {
            var error := rrQueue.Enqueue(currentPid);
          }
          currentPid := -1;
          timeOnCpu := 0;
        }
      }
      if currentPid == -1 {
        if !rrQueue.IsEmpty() {
          currentPid := rrQueue.Dequeue();
          timeOnCpu := 0;
        } else {
          return -1;
        }
      }
      pid := currentPid;
    }

    method RoundRobin(procs: array<Process>, t: nat) returns (pid: int)
      requires Valid() && procs.Length <= MAX_QUEUE_SIZE && Consistent(procs[..])
      requires R.RrInv(QUANTUM, Jobs(procs[..]), Rems(procs[..]), View(), t)
      requires forall i :: 0 <= i < procs.Length && procs[i].arrivaltime == t ==> procs[i].remainingtime > 0
      modifies this, rrQueue, rrQueue.items
      ensures Valid()
      ensures RrCall(50, Jobs(procs[..]), Rems(procs[..]), old(View()), t) == (View(), pid)
    {
      ghost var jobs, rem := Jobs(procs[..]), Rems(procs[..]);
      RrRoom(jobs, rem, rrQueue.Contents(), currentPid, t, procs.Length);
      R.HoldsArrivals(jobs, rem, rrQueue.Contents(), currentPid, t);
      forall n | 0 <= n <= |jobs|
        ensures |rrQueue.Contents() + Arrivals(jobs, t, -1, n)| <= |jobs|
      {
        RrRoom(jobs, rem, rrQueue.Contents(), currentPid, t, n);
      }
      EnqueueArrivals(procs, t);
      pid := TakeTurn(procs);
    }
  }

  /** `round_robin_priority` with its queues, one a priority. */
  class PriorityScheduler {
    const queues: seq<Queue>
    ghost const repr: set<object>

    ghost predicate Shape() {
      && |queues| == NUM_PRIORITIES
      && (forall r :: 0 <= r < NUM_PRIORITIES ==>
            queues[r] in repr && queues[r].items in repr && queues[r].items.Length == MAX_QUEUE_SIZE)
      && (forall r, s :: 0 <= r < s < NUM_PRIORITIES ==> queues[r] != queues[s] && queues[r].items != queues[s].items)
    }

    ghost predicate Valid()
      reads repr
    {
      Shape() && forall r :: 0 <= r < NUM_PRIORITIES ==> queues[r].Valid()
    }

    ghost function Level(r: nat): seq<int>
      requires Valid() && r < NUM_PRIORITIES
      reads repr
    {
      queues[r].Contents()
    }

    ghost function Levels(): (pq: seq<seq<int>>)
      requires Valid()
      reads repr
      ensures |pq| == NUM_PRIORITIES && forall r :: 0 <= r < NUM_PRIORITIES ==> pq[r] == Level(r)
    {
      [Level(0), Level(1), Level(2)]
    }

    ghost function View(): Core
      requires Valid()
      reads repr
    {
      Core([], IDLE, 0, Levels())
    }

    constructor ()
      ensures Valid() && fresh(repr) && View() == Start()
    {
      var q0 := new Queue();
      var q1 := new Queue();
      var q2 := new Queue();
      queues := [q0, q1, q2];
      repr := {q0, q0.items, q1, q1.items, q2, q2.items};
    }

    method InitQueues()
      requires Shape()
      modifies repr
      ensures Valid() && View() == Start()
    {
      var j := 0;
      while j < NUM_PRIORITIES
        invariant 0 <= j <= NUM_PRIORITIES
        invariant forall r :: 0 <= r < j ==> queues[r].Valid() && queues[r].Contents() == []
      {
        queues[j].InitQueue();
        j := j + 1;
      }
      assert Levels() == NO_LEVELS;
    }

    /** Adds one process to the queue of its priority. */
    method EnqueueAt(r: nat, value: int)
      requires Valid() && r < NUM_PRIORITIES && |Level(r)| < MAX_QUEUE_SIZE
      modifies repr
      ensures Valid()
      ensures Levels() == old(Levels())[r := old(Level(r)) + [value]]
    {
      var error := queues[r].Enqueue(value);
      assert forall s :: 0 <= s < NUM_PRIORITIES && s != r ==> Level(s) == old(Level(s));
    }

    method EnqueueArrivals(procs: array<Process>, t: nat)
      requires Valid() && procs !in repr && procs.Length <= MAX_QUEUE_SIZE && ValidJobs(Jobs(procs[..]))
      requires forall r :: 0 <= r < NUM_PRIORITIES ==> Fits(Jobs(procs[..]), Levels()[r], t, r)
      modifies repr
      ensures Valid()
      ensures Levels() == WithArrivals(Jobs(procs[..]), old(Levels()), t, procs.Length)
    {
      ghost var jobs, pq := Jobs(procs[..]), Levels();
      NoArrivals(jobs, pq, t);
      for i := 0 to procs.Length
        invariant Valid() && Levels() == WithArrivals(jobs, pq, t, i)
      {
        var priority := procs[i].priority;
        OneArrival(jobs, pq, t, i);
        assert jobs[i].priority == priority;
        if procs[i].arrivaltime == t {
          EnqueueAt(priority, i);
        }
      }
    }

    method ScanLevel(procs: array<Process>, i: nat) returns (pid: int)
      requires Valid() && procs !in repr && i < NUM_PRIORITIES && Consistent(procs[..])
      requires forall p :: p in Level(i) ==> 0 <= p < procs.Length
      modifies repr
      ensures Valid()
      ensures Levels() == old(Levels())[i := Rotated(old(Level(i)), Rems(procs[..]))]
      ensures pid == HeadOr(DropFinished(old(Level(i)), Rems(procs[..])))
      ensures pid == -1 <==> DropFinished(old(Level(i)), Rems(procs[..])) == []
    {
      assert queues[i].Contents() == Level(i);
      pid := RotateQueue(queues[i], procs);
      assert forall s :: 0 <= s < NUM_PRIORITIES && s != i ==> Level(s) == old(Level(s));
    }

    /** From the highest priority down, the first level with an unfinished process gets the turn. */
    method ScanLevels(procs: array<Process>) returns (pid: int)
      requires Valid() && procs !in repr && Consistent(procs[..])
      requires forall r, p :: 0 <= r < NUM_PRIORITIES && p in Level(r) ==> 0 <= p < procs.Length
      modifies repr
      ensures Valid()
      ensures PrioScan(old(Levels()), Rems(procs[..]), NUM_PRIORITIES) == (Levels(), pid)
    {
      ghost var rem, now := Rems(procs[..]), Levels();
      var i := NUM_PRIORITIES;
      while i > 0
        invariant 0 <= i <= NUM_PRIORITIES && Valid()
        invariant forall r :: 0 <= r < i ==> Levels()[r] == now[r]
        invariant PrioScan(Levels(), rem, i) == PrioScan(now, rem, NUM_PRIORITIES)
      {
        i := i - 1;
        assert Level(i) == now[i];
        pid := ScanLevel(procs, i);
        if pid != -1 { return; }
      }
      pid := -1;
    }

    method RoundRobinPriority(procs: array<Process>, t: nat) returns (pid: int)
      requires Valid() && procs !in repr && procs.Length <= MAX_QUEUE_SIZE && Consistent(procs[..])
      requires ValidJobs(Jobs(procs[..])) && P.Levels(Jobs(procs[..]), Rems(procs[..]), Levels(), t)
      modifies repr
      ensures Valid()
      ensures RrpCall(Jobs(procs[..]), Rems(procs[..]), old(View()), t) == (View(), pid)
    {
      LevelsInRange(Jobs(procs[..]), Rems(procs[..]), Levels(), t);
      LevelsFit(Jobs(procs[..]), Rems(procs[..]), Levels(), t);
      EnqueueArrivals(procs, t);
      pid := ScanLevels(procs);
    }
  }

  ghost function HeadOr(queue: seq<int>): int {
    if queue == [] then -1 else queue[0]
  }

  ghost function Rotated(queue: seq<int>, rem: seq<int>): seq<int> {
    var d := DropFinished(queue, rem);
    if d == [] then [] else d[1..] + [d[0]]
  }

  /** One level: finished processes are discarded until an unfinished one is found, which goes to
      the back. */
  method RotateQueue(q: Queue, procs: array<Process>) returns (pid: int)
    requires q.Valid() && Consistent(procs[..])
    requires forall p :: p in q.Contents() ==> 0 <= p < procs.Length
    modifies q, q.items
    ensures q.Valid()
    ensures q.Contents() == Rotated(old(q.Contents()), Rems(procs[..]))
    ensures pid == HeadOr(DropFinished(old(q.Contents()), Rems(procs[..])))
    ensures pid == -1 <==> DropFinished(old(q.Contents()), Rems(procs[..])) == []
  {
    ghost var rem := Rems(procs[..]);
    while !q.IsEmpty()
      invariant q.Valid()
      invariant DropFinished(q.Contents(), rem) == DropFinished(old(q.Contents()), rem)
      invariant forall p :: p in q.Contents() ==> 0 <= p < procs.Length
      decreases |q.Contents()|
    {
      ghost var queue := q.Contents();
      pid := q.Dequeue();
      assert pid in queue && q.Contents() == queue[1..];
      assert forall p :: p in queue[1..] ==> p in queue;
      assert Left(rem, pid) == procs[pid].remainingtime;
      if !procs[pid].finished {
        var error := q.Enqueue(pid);
        return;
      }
    }
    pid := -1;
  }

  lemma {:induction false} LevelsInRange(jobs: seq<Job>, rem: seq<int>, pq: seq<seq<int>>, t: nat)
    requires |rem| == |jobs| && P.Levels(jobs, rem, pq, t)
    ensures var now := WithArrivals(jobs, pq, t, |jobs|);
            forall r, p :: 0 <= r < NUM_PRIORITIES && p in now[r] ==> 0 <= p < |jobs|
  {
    P.LevelsNow(jobs, rem, pq, t);
    var now := WithArrivals(jobs, pq, t, |jobs|);
    forall r, p | 0 <= r < NUM_PRIORITIES && p in now[r]
      ensures 0 <= p < |jobs|
    {
      assert P.Level(jobs, rem, now[r], r, t + 1);
    }
  }
}
