/** The four schedulers of lab4/lab4/scheduling.c as rules: from the queues, the remaining times
    and the clock to the process that runs next. */
module Policies {
  import opened SchedModel
  import opened SrtOptimal

  const NUM_PRIORITIES: nat := 3
  const QUANTUM: nat := 50

  datatype Policy = Fcfs | Srt | Rr | Rrp

  /** What the schedulers remember between calls: the round-robin queue, the process on the
      processor and how long it has been there, and one queue per priority. */
  datatype Core = Core(rr: seq<int>, cur: int, onCpu: int, pq: seq<seq<int>>)

  ghost function Start(): Core {
    Core([], IDLE, 0, [[], [], []])
  }

  /** The lower of two ready processes in (arrival, index) order. */
  ghost predicate Earlier(jobs: seq<Job>, i: int, j: int)
    requires 0 <= i < |jobs| && 0 <= j < |jobs|
  {
    jobs[i].arrival < jobs[j].arrival || (jobs[i].arrival == jobs[j].arrival && i < j)
  }

  ghost predicate FcfsPick(jobs: seq<Job>, rem: seq<int>, t: nat, c: int)
    requires |rem| == |jobs|
  {
    if c == IDLE then Pending(jobs, rem, t) == {}
    else Ready(jobs, rem, t, c) && forall i :: Ready(jobs, rem, t, i) && i != c ==> Earlier(jobs, c, i)
  }

  /** A ready process with the least remaining time, and of several the lowest index. */
  ghost predicate SrtFirst(jobs: seq<Job>, rem: seq<int>, t: nat, c: int)
    requires |rem| == |jobs|
  {
    SrtPick(jobs, rem, t, c) && forall i :: 0 <= i < c && Ready(jobs, rem, t, i) ==> rem[c] < rem[i]
  }

  ghost function Left(rem: seq<int>, i: int): int {
    if 0 <= i < |rem| then rem[i] else 0
  }

  /** The processes among the first `n` that arrive at `t` (and, if `level >= 0`, have that
      priority), by index. */
  ghost function Arrivals(jobs: seq<Job>, t: nat, level: int, n: nat): seq<int>
    requires n <= |jobs|
  {
    if n == 0 then []
    else
      Arrivals(jobs, t, level, n - 1) +
      if jobs[n - 1].arrival == t && (level < 0 || jobs[n - 1].priority == level) then [n - 1] else []
  }

  /** Give the processor to the head of the queue. */
  ghost function Dispatch(core: Core): (Core, int) {
    if core.rr == [] then (core.(cur := IDLE, onCpu := 0), IDLE)
    else (core.(rr := core.rr[1..], cur := core.rr[0], onCpu := 0), core.rr[0])
  }

  /** The turn of one call, arrivals being queued already: go on, or give way to the queue. */
  ghost function RrTurn(quantum: nat, rem: seq<int>, core: Core): (Core, int) {
    if core.cur == IDLE then Dispatch(core)
    else if Left(rem, core.cur) == 0 then Dispatch(core)
    else if core.onCpu + 1 >= quantum then Dispatch(core.(rr := core.rr + [core.cur]))
    else (core.(onCpu := core.onCpu + 1), core.cur)
  }

  ghost function RrCall(quantum: nat, jobs: seq<Job>, rem: seq<int>, core: Core, t: nat): (Core, int) {
    RrTurn(quantum, rem, core.(rr := core.rr + Arrivals(jobs, t, -1, |jobs|)))
  }

  ghost function DropFinished(queue: seq<int>, rem: seq<int>): seq<int> {
    if queue == [] || Left(rem, queue[0]) > 0 then queue else DropFinished(queue[1..], rem)
  }

  /** From priority `level - 1` downwards: the first unfinished process moves to the back of its
      queue and runs. */
  ghost function PrioScan(pq: seq<seq<int>>, rem: seq<int>, level: nat): (seq<seq<int>>, int)
    requires level <= |pq|
    decreases level
  {
    if level == 0 then (pq, IDLE)
    else
      var queue := DropFinished(pq[level - 1], rem);
      if queue == [] then PrioScan(pq[level - 1 := []], rem, level - 1)
      else (pq[level - 1 := queue[1..] + [queue[0]]], queue[0])
  }

  ghost function WithArrivals(jobs: seq<Job>, pq: seq<seq<int>>, t: nat, n: nat): (r: seq<seq<int>>)
    requires n <= |jobs|
    ensures |r| == |pq|
    ensures forall r' :: 0 <= r' < |pq| ==> r[r'] == pq[r'] + Arrivals(jobs, t, r', n)
  {
    seq(|pq|, r' requires 0 <= r' < |pq| => pq[r'] + Arrivals(jobs, t, r', n))
  }

  ghost function RrpCall(jobs: seq<Job>, rem: seq<int>, core: Core, t: nat): (Core, int) {
    var (pq, c) := PrioScan(WithArrivals(jobs, core.pq, t, |jobs|), rem, |core.pq|);
    (core.(pq := pq), c)
  }

  /** One call of a scheduler at time `t`. */
  ghost predicate Calls(policy: Policy, quantum: nat, jobs: seq<Job>, rem: seq<int>, t: nat,
                        core: Core, core': Core, c: int)
    requires |rem| == |jobs|
  {
    match policy
    case Fcfs => core' == core && FcfsPick(jobs, rem, t, c)
    case Srt => core' == core && SrtFirst(jobs, rem, t, c)
    case Rr => RrCall(quantum, jobs, rem, core, t) == (core', c)
    case Rrp => RrpCall(jobs, rem, core, t) == (core', c)
  }

  ghost predicate CallAt(policy: Policy, quantum: nat, jobs: seq<Job>, tr: seq<int>, cores: seq<Core>, t: nat)
    requires t < |tr| && t + 1 < |cores|
  {
    Calls(policy, quantum, jobs, Rem(jobs, tr, t), t, cores[t], cores[t + 1], tr[t])
  }

  /** A run of the simulation loop from empty queues: the choices, and the scheduler's memory
      before each call and after the last. */
  ghost predicate Run(policy: Policy, quantum: nat, jobs: seq<Job>, tr: seq<int>, cores: seq<Core>) {
    && |cores| == |tr| + 1 && cores[0] == Start()
    && forall t :: 0 <= t < |tr| ==> CallAt(policy, quantum, jobs, tr, cores, t)
  }

  ghost predicate ValidJobs(jobs: seq<Job>) {
    Positive(jobs) && forall i :: 0 <= i < |jobs| ==> jobs[i].priority < NUM_PRIORITIES
  }
}
