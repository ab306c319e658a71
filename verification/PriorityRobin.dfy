/** Round robin by priority: one queue a level, a turn is one step. */
module PriorityRobin {
  import opened SchedModel
  import opened SrtOptimal
  import opened Policies
  import opened Sets
  import R = RoundRobin

  /** The queue of level `r` holds each unfinished process of that priority with arrival before
      `u`, once; finished ones may linger. */
  ghost predicate Level(jobs: seq<Job>, rem: seq<int>, queue: seq<int>, r: nat, u: nat)
    requires |rem| == |jobs|
  {
    && Distinct(queue)
    && (forall i :: i in queue ==> 0 <= i < |jobs| && jobs[i].priority == r && jobs[i].arrival < u)
    && (forall i :: 0 <= i < |jobs| && jobs[i].priority == r && jobs[i].arrival < u && rem[i] > 0 ==> i in queue)
  }

  ghost predicate Levels(jobs: seq<Job>, rem: seq<int>, pq: seq<seq<int>>, u: nat)
    requires |rem| == |jobs|
  {
    && |pq| == NUM_PRIORITIES
    && forall r :: 0 <= r < |pq| ==> Level(jobs, rem, pq[r], r, u)
  }

  lemma {:induction false} LevelArrivals(jobs: seq<Job>, rem: seq<int>, queue: seq<int>, r: nat, t: nat)
    requires |rem| == |jobs| && Level(jobs, rem, queue, r, t)
    ensures Level(jobs, rem, queue + Arrivals(jobs, t, r, |jobs|), r, t + 1)
  {
    var a := Arrivals(jobs, t, r, |jobs|);
    R.ArrivalsAre(jobs, t, r, |jobs|);
    DistinctConcat(queue, a);
    assert forall i :: i in queue + a <==> i in queue || i in a;
  }

  /** Only finished processes are dropped, and only from the front. */
  lemma {:induction false} DropKeeps(queue: seq<int>, rem: seq<int>) returns (k: nat)
    ensures k <= |queue| && DropFinished(queue, rem) == queue[k..]
    ensures forall i :: 0 <= i < k ==> Left(rem, queue[i]) <= 0
    ensures k < |queue| ==> Left(rem, queue[k]) > 0
  {
    if queue == [] || Left(rem, queue[0]) > 0 {
      k := 0;
    } else {
      var k' := DropKeeps(queue[1..], rem);
      k := k' + 1;
    }
  }

  lemma {:induction false} LevelDrop(jobs: seq<Job>, rem: seq<int>, queue: seq<int>, r: nat, u: nat)
    requires |rem| == |jobs| && Level(jobs, rem, queue, r, u)
    ensures Level(jobs, rem, DropFinished(queue, rem), r, u)
  {
    var k := DropKeeps(queue, rem);
    assert queue == queue[..k] + queue[k..];
    forall i | 0 <= i < |jobs| && jobs[i].priority == r && jobs[i].arrival < u && rem[i] > 0
      ensures i in queue[k..]
    {
      assert i in queue[..k] || i in queue[k..];
    }
  }

  lemma {:induction false} LevelRotate(jobs: seq<Job>, rem: seq<int>, queue: seq<int>, r: nat, u: nat)
    requires |rem| == |jobs| && Level(jobs, rem, queue, r, u) && queue != []
    ensures Level(jobs, rem, queue[1..] + [queue[0]], r, u)
  {
    assert queue == [queue[0]] + queue[1..];
    assert forall i :: i in queue <==> i in queue[1..] + [queue[0]];
  }

  /** The scan of the levels below `level` stops at `s`, the highest with an unfinished process, or
      at none; the levels it passed over are left empty. */
  ghost predicate Stops(pq: seq<seq<int>>, rem: seq<int>, level: nat, pq': seq<seq<int>>, c: int, s: int)
    requires level <= |pq|
  {
    && |pq'| == |pq| && -1 <= s < level && (s == -1 <==> c == IDLE)
    && (s >= 0 ==> var d := DropFinished(pq[s], rem);
                   d != [] && c == d[0] && pq'[s] == d[1..] + [c])
    && (forall r :: s < r < level ==> DropFinished(pq[r], rem) == [] && pq'[r] == [])
    && (forall r :: 0 <= r < |pq| && (r < s || level <= r) ==> pq'[r] == pq[r])
  }

  lemma {:induction false} ScanStops(pq: seq<seq<int>>, rem: seq<int>, level: nat) returns (s: int)
    requires level <= |pq| && forall r :: 0 <= r < |pq| ==> IDLE !in pq[r]
    ensures Stops(pq, rem, level, PrioScan(pq, rem, level).0, PrioScan(pq, rem, level).1, s)
    decreases level
  {
    if level == 0 {
      s := -1;
    } else {
      var k := DropKeeps(pq[level - 1], rem);
      if DropFinished(pq[level - 1], rem) == [] {
        var emptied := pq[level - 1 := []];
        s := ScanStops(emptied, rem, level - 1);
        var (pq', c) := PrioScan(emptied, rem, level - 1);
        assert forall r :: 0 <= r < level - 1 ==> emptied[r] == pq[r];
        assert pq'[level - 1] == emptied[level - 1];
      } else {
        s := level - 1;
        assert pq[level - 1][k] in pq[level - 1];
      }
    }
  }

  /** The queues as one call finds them: with the arrivals, and once finished processes are gone. */
  lemma {:induction false} LevelsNow(jobs: seq<Job>, rem: seq<int>, pq: seq<seq<int>>, t: nat)
    requires |rem| == |jobs| && Levels(jobs, rem, pq, t)
    ensures var now := WithArrivals(jobs, pq, t, |jobs|);
            forall r :: 0 <= r < NUM_PRIORITIES ==>
              && Level(jobs, rem, now[r], r, t + 1) && IDLE !in now[r]
              && Level(jobs, rem, DropFinished(now[r], rem), r, t + 1)
  {
    var now := WithArrivals(jobs, pq, t, |jobs|);
    forall r | 0 <= r < NUM_PRIORITIES
      ensures Level(jobs, rem, now[r], r, t + 1) && IDLE !in now[r]
      ensures Level(jobs, rem, DropFinished(now[r], rem), r, t + 1)
    {
      LevelArrivals(jobs, rem, pq[r], r, t);
      LevelDrop(jobs, rem, now[r], r, t + 1);
    }
  }

  lemma {:induction false} StopsIsRight(jobs: seq<Job>, rem: seq<int>, pq: seq<seq<int>>, u: nat, pq': seq<seq<int>>,
                                        c: int, s: int)
    requires |rem| == |jobs| && |pq| == NUM_PRIORITIES && Stops(pq, rem, NUM_PRIORITIES, pq', c, s)
    requires forall r :: 0 <= r < NUM_PRIORITIES ==>
               Level(jobs, rem, pq[r], r, u) && Level(jobs, rem, DropFinished(pq[r], rem), r, u)
    ensures Levels(jobs, rem, pq', u)
    ensures s >= 0 ==> 0 <= c < |jobs| && jobs[c].priority == s && jobs[c].arrival < u && rem[c] > 0
  {
    if s >= 0 {
      LevelRotate(jobs, rem, DropFinished(pq[s], rem), s, u);
      var k := DropKeeps(pq[s], rem);
      assert c in DropFinished(pq[s], rem);
    }
    forall r | 0 <= r < NUM_PRIORITIES
      ensures Level(jobs, rem, pq'[r], r, u)
    {
    }
  }

  /** One call: work-conserving, highest priority first, and the queues stay right. */
  lemma {:induction false} RrpStep(jobs: seq<Job>, rem: seq<int>, core: Core, core': Core, t: nat, c: int)
    requires |rem| == |jobs| && ValidJobs(jobs) && Levels(jobs, rem, core.pq, t)
    requires RrpCall(jobs, rem, core, t) == (core', c)
    ensures if c == IDLE then Pending(jobs, rem, t) == {} else Ready(jobs, rem, t, c)
    ensures c != IDLE ==> forall i :: Ready(jobs, rem, t, i) ==> jobs[i].priority <= jobs[c].priority
    ensures Levels(jobs, Run1(rem, c), core'.pq, t + 1)
  {
    var pq := WithArrivals(jobs, core.pq, t, |jobs|);
    LevelsNow(jobs, rem, core.pq, t);
    var s := ScanStops(pq, rem, NUM_PRIORITIES);
    StopsIsRight(jobs, rem, pq, t + 1, core'.pq, c, s);
    forall i | Ready(jobs, rem, t, i)
      ensures jobs[i].priority <= s
    {
      assert i in DropFinished(pq[jobs[i].priority], rem);
    }
    LevelsRun(jobs, rem, core'.pq, t + 1, c);
  }

  /** Running a process takes no one else's place. */
  lemma {:induction false} LevelsRun(jobs: seq<Job>, rem: seq<int>, pq: seq<seq<int>>, u: nat, c: int)
    requires |rem| == |jobs| && Levels(jobs, rem, pq, u)
    ensures Levels(jobs, Run1(rem, c), pq, u)
  {
    forall r | 0 <= r < NUM_PRIORITIES
      ensures Level(jobs, Run1(rem, c), pq[r], r, u)
    {
      assert Level(jobs, rem, pq[r], r, u);
    }
  }

  lemma {:induction false} RrpStepAt(quantum: nat, jobs: seq<Job>, tr: seq<int>, cores: seq<Core>, t: nat)
    requires ValidJobs(jobs) && Run(Rrp, quantum, jobs, tr, cores) && t < |tr|
    requires Levels(jobs, Rem(jobs, tr, t), cores[t].pq, t)
    ensures FeasibleAt(jobs, tr, t) && BusyAt(jobs, tr, t)
    ensures Levels(jobs, Rem(jobs, tr, t + 1), cores[t + 1].pq, t + 1)
  {
    assert CallAt(Rrp, quantum, jobs, tr, cores, t);
    RrpStep(jobs, Rem(jobs, tr, t), cores[t], cores[t + 1], t, tr[t]);
  }

  lemma {:induction false} RrpInvariant(quantum: nat, jobs: seq<Job>, tr: seq<int>, cores: seq<Core>, t: nat)
    requires ValidJobs(jobs) && Run(Rrp, quantum, jobs, tr, cores) && t <= |tr|
    ensures Levels(jobs, Rem(jobs, tr, t), cores[t].pq, t)
    ensures forall u :: 0 <= u < t ==> FeasibleAt(jobs, tr, u) && BusyAt(jobs, tr, u)
  {
    if t > 0 {
      RrpInvariant(quantum, jobs, tr, cores, t - 1);
      RrpStepAt(quantum, jobs, tr, cores, t - 1);
    }
  }

  lemma {:induction false} RrpWorkConserving(quantum: nat, jobs: seq<Job>, tr: seq<int>, cores: seq<Core>)
    requires ValidJobs(jobs) && Run(Rrp, quantum, jobs, tr, cores)
    ensures Feasible(jobs, tr) && WorkConserving(jobs, tr)
  {
    RrpInvariant(quantum, jobs, tr, cores, |tr|);
  }

  /** No process runs while one of higher priority is ready. */
  lemma {:induction false} HighestPriorityRuns(quantum: nat, jobs: seq<Job>, tr: seq<int>, cores: seq<Core>, t: nat,
                                               i: int)
    requires ValidJobs(jobs) && Run(Rrp, quantum, jobs, tr, cores) && t < |tr|
    requires Ready(jobs, Rem(jobs, tr, t), t, i)
    ensures 0 <= tr[t] < |jobs| && jobs[i].priority <= jobs[tr[t]].priority
  {
    RrpInvariant(quantum, jobs, tr, cores, t);
    assert CallAt(Rrp, quantum, jobs, tr, cores, t);
    RrpStep(jobs, Rem(jobs, tr, t), cores[t], cores[t + 1], t, tr[t]);
    assert i in Pending(jobs, Rem(jobs, tr, t), t);
  }

  /** How often `q` runs in the steps from `lo` up to `hi`. */
  ghost function Runs(tr: seq<int>, q: int, lo: nat, hi: nat): nat
    requires hi <= |tr|
  {
    if hi <= lo then 0 else Runs(tr, q, lo, hi - 1) + if tr[hi - 1] == q then 1 else 0
  }

  ghost predicate Before(queue: seq<int>, a: int, b: int) {
    exists i, j :: 0 <= i < j < |queue| && queue[i] == a && queue[j] == b
  }

  /** The turns of `q` since `p` last ran: none yet, and `q` stands before `p`; or one, and `q` is
      behind `p` or gone. */
  ghost predicate Turn(queue: seq<int>, rem: seq<int>, p: int, q: int, runs: nat) {
    && p in queue
    && (|| (runs == 0 && Before(queue, q, p) && Left(rem, q) > 0)
        || (runs == 1 && (q !in queue || Before(queue, p, q))))
  }

  lemma {:induction false} BeforeSuffix(queue: seq<int>, k: nat, a: int, b: int)
    requires k <= |queue| && Distinct(queue) && Before(queue, a, b) && a !in queue[..k]
    ensures Before(queue[k..], a, b)
  {
    var i, j :| 0 <= i < j < |queue| && queue[i] == a && queue[j] == b;
    forall x | 0 <= x < k
      ensures queue[x] != a
    {
      assert queue[..k][x] in queue[..k];
    }
    assert queue[k..][i - k] == a && queue[k..][j - k] == b;
  }

  lemma {:induction false} BeforeRotate(queue: seq<int>, a: int, b: int)
    requires queue != [] && Distinct(queue) && Before(queue, a, b)
    ensures queue[0] != a ==> Before(queue[1..] + [queue[0]], a, b)
    ensures queue[0] == a ==> Before(queue[1..] + [queue[0]], b, a)
  {
    var i, j :| 0 <= i < j < |queue| && queue[i] == a && queue[j] == b;
    var r := queue[1..] + [queue[0]];
    assert r[j - 1] == b && r[|r| - 1] == queue[0];
    if i > 0 { assert r[i - 1] == a; }
  }

  lemma {:induction false} BeforeAppend(queue: seq<int>, more: seq<int>, a: int, b: int)
    requires Before(queue, a, b)
    ensures Before(queue + more, a, b)
  {
    var i, j :| 0 <= i < j < |queue| && queue[i] == a && queue[j] == b;
    assert (queue + more)[i] == a && (queue + more)[j] == b;
  }

  lemma {:induction false} TurnAppend(queue: seq<int>, more: seq<int>, rem: seq<int>, p: int, q: int, runs: nat)
    requires Turn(queue, rem, p, q, runs) && Distinct(queue + more)
    ensures Turn(queue + more, rem, p, q, runs)
  {
    if Before(queue, q, p) { BeforeAppend(queue, more, q, p); }
    if Before(queue, p, q) { BeforeAppend(queue, more, p, q); }
    if q in more && q !in queue {
      var i :| 0 <= i < |queue| && queue[i] == p;
      var j :| 0 <= j < |more| && more[j] == q;
      assert (queue + more)[i] == p && (queue + more)[|queue| + j] == q;
    }
  }

  lemma {:induction false} TurnDrop(queue: seq<int>, rem: seq<int>, p: int, q: int, runs: nat)
    requires Turn(queue, rem, p, q, runs) && Distinct(queue) && Left(rem, p) > 0
    ensures Turn(DropFinished(queue, rem), rem, p, q, runs)
  {
    var k := DropKeeps(queue, rem);
    assert queue == queue[..k] + queue[k..];
    assert p !in queue[..k];
    if runs == 0 && Before(queue, q, p) && Left(rem, q) > 0 {
      BeforeSuffix(queue, k, q, p);
    } else if q in queue {
      BeforeSuffix(queue, k, p, q);
    }
  }

  /** A turn at this level: `q` runs exactly when it had not run yet and stands first; `p` runs
      only when `q` has had its turn. */
  lemma {:induction false} TurnRotate(queue: seq<int>, rem: seq<int>, p: int, q: int, runs: nat)
    requires Turn(queue, rem, p, q, runs) && Distinct(queue) && p != q
    ensures queue[0] == p ==> runs == 1
    ensures queue[0] != p ==>
              Turn(queue[1..] + [queue[0]], Run1(rem, queue[0]), p, q, if queue[0] == q then runs + 1 else runs)
  {
    var r := queue[1..] + [queue[0]];
    assert queue == [queue[0]] + queue[1..];
    assert forall i :: i in queue <==> i in r;
    if Before(queue, q, p) { BeforeRotate(queue, q, p); }
    if Before(queue, p, q) { BeforeRotate(queue, p, q); }
  }

  /** What a call does to the queue that `p` and `q` share. */
  lemma {:induction false} TurnStep(jobs: seq<Job>, rem: seq<int>, core: Core, core': Core, t: nat, c: int, p: int,
                                    q: int, runs: nat)
    requires |rem| == |jobs| && Levels(jobs, rem, core.pq, t) && RrpCall(jobs, rem, core, t) == (core', c)
    requires 0 <= p < |jobs| && p != q && jobs[p].priority < NUM_PRIORITIES && rem[p] > 0
    requires 0 <= q < |jobs| && jobs[q].priority == jobs[p].priority
    requires Turn(core.pq[jobs[p].priority], rem, p, q, runs)
    ensures c == p ==> runs == 1
    ensures |core'.pq| == NUM_PRIORITIES
    ensures c != p ==>
              Turn(core'.pq[jobs[p].priority], Run1(rem, c), p, q, if c == q then runs + 1 else runs)
  {
    var r, pq := jobs[p].priority, WithArrivals(jobs, core.pq, t, |jobs|);
    LevelsNow(jobs, rem, core.pq, t);
    TurnAppend(core.pq[r], Arrivals(jobs, t, r, |jobs|), rem, p, q, runs);
    TurnDrop(pq[r], rem, p, q, runs);
    var s := ScanStops(pq, rem, NUM_PRIORITIES);
    StopsIsRight(jobs, rem, pq, t + 1, core'.pq, c, s);
    assert s >= r;
    if s == r {
      TurnRotate(DropFinished(pq[r], rem), rem, p, q, runs);
    } else {
      TurnElsewhere(pq[r], rem, c, p, q, runs);
    }
  }

  /** A step of a third process changes nothing between `p` and `q`. */
  lemma {:induction false} TurnElsewhere(queue: seq<int>, rem: seq<int>, c: int, p: int, q: int, runs: nat)
    requires Turn(queue, rem, p, q, runs) && c != q
    ensures Turn(queue, Run1(rem, c), p, q, runs)
  {
  }

  lemma {:induction false} TurnCall(quantum: nat, jobs: seq<Job>, tr: seq<int>, cores: seq<Core>, u: nat, p: int,
                                    q: int, runs: nat)
    requires ValidJobs(jobs) && Run(Rrp, quantum, jobs, tr, cores) && u < |tr|
    requires 0 <= p < |jobs| && 0 <= q < |jobs| && p != q && jobs[p].priority == jobs[q].priority
    requires |cores[u].pq| == NUM_PRIORITIES && Turn(cores[u].pq[jobs[p].priority], Rem(jobs, tr, u), p, q, runs)
    requires Rem(jobs, tr, u)[p] > 0
    ensures tr[u] == p ==> runs == 1
    ensures |cores[u + 1].pq| == NUM_PRIORITIES
    ensures tr[u] != p ==>
              Turn(cores[u + 1].pq[jobs[p].priority], Rem(jobs, tr, u + 1), p, q, if tr[u] == q then runs + 1 else runs)
  {
    RrpInvariant(quantum, jobs, tr, cores, u);
    assert CallAt(Rrp, quantum, jobs, tr, cores, u);
    TurnStep(jobs, Rem(jobs, tr, u), cores[u], cores[u + 1], u, tr[u], p, q, runs);
    assert Rem(jobs, tr, u + 1) == Run1(Rem(jobs, tr, u), tr[u]);
  }

  lemma {:induction false} TurnsSince(quantum: nat, jobs: seq<Job>, tr: seq<int>, cores: seq<Core>, t: nat, u: nat,
                                      p: int, q: int)
    requires ValidJobs(jobs) && Run(Rrp, quantum, jobs, tr, cores) && t < u < |tr|
    requires tr[t] == p && forall v :: t < v < u ==> tr[v] != p
    requires 0 <= p < |jobs| && 0 <= q < |jobs| && p != q && jobs[p].priority == jobs[q].priority
    requires Ready(jobs, Rem(jobs, tr, t), t, q) && Rem(jobs, tr, u)[p] > 0
    ensures |cores[u].pq| == NUM_PRIORITIES
    ensures Turn(cores[u].pq[jobs[p].priority], Rem(jobs, tr, u), p, q, Runs(tr, q, t + 1, u))
  {
    RrpInvariant(quantum, jobs, tr, cores, u);
    RrpWorkConserving(quantum, jobs, tr, cores);
    if u == t + 1 {
      FirstTurn(quantum, jobs, tr, cores, t, p, q);
    } else {
      assert FeasibleAt(jobs, tr, u - 1);
      TurnsSince(quantum, jobs, tr, cores, t, u - 1, p, q);
      TurnCall(quantum, jobs, tr, cores, u - 1, p, q, Runs(tr, q, t + 1, u - 1));
    }
  }

  /** Right after its step `p` is last, behind every ready process of its level. */
  lemma {:induction false} FirstTurn(quantum: nat, jobs: seq<Job>, tr: seq<int>, cores: seq<Core>, t: nat, p: int,
                                     q: int)
    requires ValidJobs(jobs) && Run(Rrp, quantum, jobs, tr, cores) && t < |tr| && tr[t] == p
    requires 0 <= p < |jobs| && 0 <= q < |jobs| && p != q && jobs[p].priority == jobs[q].priority
    requires Ready(jobs, Rem(jobs, tr, t), t, q)
    ensures |cores[t + 1].pq| == NUM_PRIORITIES
    ensures Turn(cores[t + 1].pq[jobs[p].priority], Rem(jobs, tr, t + 1), p, q, 0)
  {
    var r, rem, core := jobs[p].priority, Rem(jobs, tr, t), cores[t];
    RrpInvariant(quantum, jobs, tr, cores, t);
    assert CallAt(Rrp, quantum, jobs, tr, cores, t);
    var pq := WithArrivals(jobs, core.pq, t, |jobs|);
    LevelsNow(jobs, rem, core.pq, t);
    var s := ScanStops(pq, rem, NUM_PRIORITIES);
    var queue := cores[t + 1].pq[r];
    StopsIsRight(jobs, rem, pq, t + 1, cores[t + 1].pq, p, s);
    var d := DropFinished(pq[r], rem);
    assert q in d;
    var i :| 0 <= i < |d| && d[i] == q;
    assert queue[i - 1] == q && queue[|queue| - 1] == p;
  }

  /** Fair turns: between two consecutive steps of `p`, every other process of its priority that
      was ready at the first of them runs exactly once, however often higher levels interrupt. */
  lemma {:induction false} FairTurns(quantum: nat, jobs: seq<Job>, tr: seq<int>, cores: seq<Core>, t: nat, u: nat,
                                     p: int, q: int)
    requires ValidJobs(jobs) && Run(Rrp, quantum, jobs, tr, cores) && t < u < |tr|
    requires tr[t] == p && tr[u] == p && forall v :: t < v < u ==> tr[v] != p
    requires 0 <= p < |jobs| && p != q && Ready(jobs, Rem(jobs, tr, t), t, q)
    requires jobs[p].priority == jobs[q].priority
    ensures Runs(tr, q, t + 1, u) == 1
  {
    RrpWorkConserving(quantum, jobs, tr, cores);
    assert FeasibleAt(jobs, tr, u);
    TurnsSince(quantum, jobs, tr, cores, t, u, p, q);
    TurnCall(quantum, jobs, tr, cores, u, p, q, Runs(tr, q, t + 1, u));
  }
}
