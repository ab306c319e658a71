/** The work queue, its workers and the shutdown sequence of Project2/Proj02-starter/kvserver.c: one
    accepting thread, any number of workers, and a flag that a signal handler may set at any time. */
module WorkQueue {
  import opened Counting

  /** Where a worker is.  `Deciding` holds the mutex: it has seen an empty queue and no shutdown,
      and will sleep next. */
  datatype Worker = Ready | Deciding | Asleep | Notified | Busy(fd: int) | Exited

  /** Where the accepting thread is: before its test of the flag, in `accept`, with a connection
      to enqueue, waiting for room, past its loop, or past the broadcast. */
  datatype Producer =
    | Testing | Accepting | Holding(fd: int)
    | AsleepFull(fd: int) | NotifiedFull(fd: int)
    | Finishing | Joining

  /** `enqueued`, `dequeued` and `served` record the descriptors that ever went in, came out and
      were closed by a worker; `early` is how many had gone in when the flag was set. */
  datatype State = State(capacity: nat, queue: seq<int>, shutdown: bool, producer: Producer, workers: seq<Worker>,
                         enqueued: seq<int>, dequeued: seq<int>, served: seq<int>, early: nat)

  /** `main` makes the queue twice as long as there are workers. */
  ghost function Initial(numWorkers: nat): State {
    State(2 * numWorkers, [], false, Testing, seq(numWorkers, _ => Ready), [], [], [], 0)
  }

  ghost predicate Is(s: State, i: nat, w: Worker) {
    i < |s.workers| && s.workers[i] == w
  }

  /** The mutex is free exactly when no worker is between its decision and its sleep. */
  ghost predicate LockFree(s: State) {
    Deciding !in s.workers
  }

  ghost function SetWorker(s: State, i: nat, w: Worker): State
    requires i < |s.workers|
  {
    s.(workers := s.workers[i := w])
  }

  /** The signal handler. */
  ghost predicate SetShutdown(s: State, s': State) {
    s' == if s.shutdown then s else s.(shutdown := true, early := |s.enqueued|)
  }

  ghost predicate TestFlag(s: State, s': State) {
    s.producer == Testing && s' == s.(producer := if s.shutdown then Finishing else Accepting)
  }

  ghost predicate Accept(s: State, s': State) {
    s.producer == Accepting &&
    (s' == s.(producer := Testing) || exists fd: nat :: s' == s.(producer := Holding(fd)))
  }

  /** `pthread_cond_signal` on `not_empty`. */
  ghost predicate SignalNotEmpty(w: seq<Worker>, w': seq<Worker>) {
    if Asleep in w
    then exists j :: 0 <= j < |w| && w[j] == Asleep && w' == w[j := Notified]
    else w' == w
  }

  ghost predicate Enqueue(s: State, s': State) {
    LockFree(s) && (s.producer.Holding? || s.producer.NotifiedFull?) &&
    var fd := s.producer.fd;
    if |s.queue| == s.capacity then s' == s.(producer := AsleepFull(fd))
    else s' == s.(queue := s.queue + [fd], enqueued := s.enqueued + [fd], producer := Testing, workers := s'.workers)
         && SignalNotEmpty(s.workers, s'.workers)
  }

  ghost function WakeAll(w: seq<Worker>): (w': seq<Worker>)
    ensures |w'| == |w|
    ensures forall i :: 0 <= i < |w| ==> w'[i] == if w[i] == Asleep then Notified else w[i]
  {
    seq(|w|, i requires 0 <= i < |w| => if w[i] == Asleep then Notified else w[i])
  }

  ghost predicate Broadcast(s: State, s': State) {
    LockFree(s) && s.producer == Finishing && s' == s.(producer := Joining, workers := WakeAll(s.workers))
  }

  /** `pthread_cond_signal` on `not_full`. */
  ghost function SignalNotFull(p: Producer): Producer {
    if p.AsleepFull? then NotifiedFull(p.fd) else p
  }

  /** `queue_dequeue` from its start, or again after a wait. */
  ghost predicate Dequeue(s: State, s': State, i: nat) {
    LockFree(s) && (Is(s, i, Ready) || Is(s, i, Notified)) &&
    s' == if s.queue == [] then SetWorker(s, i, if s.shutdown then Exited else Deciding)
          else SetWorker(s, i, Busy(s.queue[0]))
               .(queue := s.queue[1..], dequeued := s.dequeued + [s.queue[0]], producer := SignalNotFull(s.producer))
  }

  ghost predicate Sleep(s: State, s': State, i: nat) {
    Is(s, i, Deciding) && s' == SetWorker(s, i, Asleep)
  }

  ghost predicate Serve(s: State, s': State, i: nat) {
    i < |s.workers| && s.workers[i].Busy? &&
    s' == SetWorker(s, i, Ready).(served := s.served + [s.workers[i].fd])
  }

  ghost predicate Spurious(s: State, s': State, i: nat) {
    || (Is(s, i, Asleep) && s' == SetWorker(s, i, Notified))
    || (s.producer.AsleepFull? && s' == s.(producer := NotifiedFull(s.producer.fd)))
  }

  ghost predicate WorkerStep(s: State, s': State, i: nat) {
    Dequeue(s, s', i) || Sleep(s, s', i) || Serve(s, s', i)
  }

  ghost predicate MainStep(s: State, s': State) {
    TestFlag(s, s') || Accept(s, s') || Enqueue(s, s') || Broadcast(s, s')
  }

  ghost predicate Next(s: State, s': State) {
    || SetShutdown(s, s') || MainStep(s, s')
    || exists i: nat :: WorkerStep(s, s', i) || Spurious(s, s', i)
  }

  ghost predicate NextAt(states: seq<State>, k: nat)
    requires k + 1 < |states|
  {
    Next(states[k], states[k + 1])
  }

  ghost predicate Run(states: seq<State>, numWorkers: nat) {
    && |states| > 0 && states[0] == Initial(numWorkers)
    && forall k :: 0 <= k < |states| - 1 ==> NextAt(states, k)
  }

  /** The producer's share of what may still go in once the flag is set. */
  ghost function Pending(p: Producer): nat {
    if p.Accepting? || p.Holding? || p.AsleepFull? || p.NotifiedFull? then 1 else 0
  }

  /** No signal is lost: a sleeping worker means that every queued descriptor has a notified
      worker coming for it; a sleeping producer means that the queue is full. */
  ghost predicate NoLostWakeup(s: State) {
    && (Asleep in s.workers ==> |s.queue| <= Count(s.workers, Notified))
    && (s.producer.AsleepFull? ==> |s.queue| == s.capacity)
  }

  ghost predicate Conserved(s: State) {
    s.enqueued == s.dequeued + s.queue && |s.queue| <= s.capacity
  }

  /** As often as `fd` came out it has been served, or a worker is at it. */
  ghost predicate HandedOver(s: State, fd: int) {
    multiset(s.dequeued)[fd] == multiset(s.served)[fd] + Count(s.workers, Busy(fd))
  }

  /** What is true of the shutdown. */
  ghost predicate Closing(s: State) {
    && (s.producer.Finishing? || s.producer.Joining? || Exited in s.workers ==> s.shutdown)
    && (s.shutdown ==> s.early <= |s.enqueued| && |s.enqueued| + Pending(s.producer) <= s.early + 1)
    && (Exited in s.workers ==> s.early <= |s.dequeued|)
    && (s.producer.Joining? ==> Asleep !in s.workers && Deciding !in s.workers)
  }

  ghost predicate Inv(s: State, numWorkers: nat) {
    && s.capacity == 2 * numWorkers && |s.workers| == numWorkers
    && (Deciding in s.workers ==> s.queue == [])
    && Conserved(s) && NoLostWakeup(s) && Closing(s)
    && forall fd :: HandedOver(s, fd)
  }

  lemma {:induction false} InitialInv(numWorkers: nat)
    ensures Inv(Initial(numWorkers), numWorkers)
  {
    forall fd
      ensures HandedOver(Initial(numWorkers), fd)
    {
      CountZero(Initial(numWorkers).workers, Busy(fd));
    }
  }

  lemma {:induction false} SignalCounts(w: seq<Worker>, w': seq<Worker>)
    requires SignalNotEmpty(w, w')
    ensures |w'| == |w|
    ensures Asleep in w ==> Count(w', Notified) == Count(w, Notified) + 1
    ensures Asleep !in w ==> w' == w
    ensures forall x :: x != Notified && x in w' ==> x in w
    ensures forall fd :: Count(w', Busy(fd)) == Count(w, Busy(fd))
  {
    if Asleep in w {
      var j :| 0 <= j < |w| && w[j] == Asleep && w' == w[j := Notified];
      CountUpdate(w, j, Notified, Notified);
      forall fd
        ensures Count(w', Busy(fd)) == Count(w, Busy(fd))
      {
        CountUpdate(w, j, Notified, Busy(fd));
      }
    }
  }

  lemma {:induction false} WakeAllKeepsBusy(w: seq<Worker>, fd: int)
    ensures Count(WakeAll(w), Busy(fd)) == Count(w, Busy(fd))
  {
    if w != [] {
      WakeAllKeepsBusy(w[..|w| - 1], fd);
      assert WakeAll(w)[..|w| - 1] == WakeAll(w[..|w| - 1]);
    }
  }

  lemma {:induction false} EnqueueInv(s: State, s': State, numWorkers: nat)
    requires Inv(s, numWorkers) && Enqueue(s, s')
    ensures Inv(s', numWorkers)
  {
    if |s.queue| != s.capacity {
      SignalCounts(s.workers, s'.workers);
    }
    forall fd
      ensures HandedOver(s', fd)
    {
      assert HandedOver(s, fd);
    }
  }

  lemma {:induction false} BroadcastInv(s: State, s': State, numWorkers: nat)
    requires Inv(s, numWorkers) && Broadcast(s, s')
    ensures Inv(s', numWorkers)
  {
    assert forall x :: x in s'.workers ==> x == Notified || x in s.workers;
    forall fd
      ensures HandedOver(s', fd)
    {
      assert HandedOver(s, fd);
      WakeAllKeepsBusy(s.workers, fd);
    }
  }

  /** What one worker takes or gives up, the records show. */
  lemma {:induction false} WorkerHandsOver(s: State, s': State, i: nat, numWorkers: nat)
    requires Inv(s, numWorkers)
    requires Dequeue(s, s', i) || Sleep(s, s', i) || Serve(s, s', i) || Spurious(s, s', i)
    ensures forall fd :: HandedOver(s', fd)
  {
    forall fd
      ensures HandedOver(s', fd)
    {
      assert HandedOver(s, fd);
      if s'.workers != s.workers { CountUpdate(s.workers, i, s'.workers[i], Busy(fd)); }
    }
  }

  lemma {:induction false} DequeueInv(s: State, s': State, i: nat, numWorkers: nat)
    requires Inv(s, numWorkers) && Dequeue(s, s', i)
    ensures Inv(s', numWorkers)
  {
    var w, w' := s.workers, s'.workers;
    CountUpdate(w, i, w'[i], Notified);
    assert forall x :: x in w' && x != w'[i] ==> x in w;
    if s.queue != [] {
      assert s.dequeued + s.queue == s'.dequeued + s'.queue;
    }
    WorkerHandsOver(s, s', i, numWorkers);
  }

  lemma {:induction false} OtherWorkerInv(s: State, s': State, i: nat, numWorkers: nat)
    requires Inv(s, numWorkers) && (Sleep(s, s', i) || Serve(s, s', i) || Spurious(s, s', i))
    ensures Inv(s', numWorkers)
  {
    if s'.workers != s.workers {
      var w, w' := s.workers, s'.workers;
      CountUpdate(w, i, w'[i], Notified);
      assert forall x :: x in w' && x != w'[i] ==> x in w;
      assert w[i] in w;
    }
    WorkerHandsOver(s, s', i, numWorkers);
  }

  lemma {:induction false} NextInv(s: State, s': State, numWorkers: nat)
    requires Inv(s, numWorkers) && Next(s, s')
    ensures Inv(s', numWorkers)
  {
    if SetShutdown(s, s') || TestFlag(s, s') || Accept(s, s') {
      forall fd
        ensures HandedOver(s', fd)
      {
        assert HandedOver(s, fd);
      }
    } else if Enqueue(s, s') {
      EnqueueInv(s, s', numWorkers);
    } else if Broadcast(s, s') {
      BroadcastInv(s, s', numWorkers);
    } else {
      var i: nat :| WorkerStep(s, s', i) || Spurious(s, s', i);
      if Dequeue(s, s', i) { DequeueInv(s, s', i, numWorkers); } else { OtherWorkerInv(s, s', i, numWorkers); }
    }
  }

  lemma {:induction false} RunInv(states: seq<State>, numWorkers: nat, k: nat)
    requires Run(states, numWorkers) && k < |states|
    ensures Inv(states[k], numWorkers)
  {
    InitialInv(numWorkers);
    for j := 0 to k
      invariant Inv(states[j], numWorkers)
    {
      assert NextAt(states, j);
      NextInv(states[j], states[j + 1], numWorkers);
    }
  }

  /** FIFO, nothing lost, nothing twice: in every reachable state what came out is a prefix of what
      went in, and the rest is in the queue; and each descriptor that came out went to one worker,
      who has served it or is busy with it. */
  lemma {:induction false} FifoDelivery(states: seq<State>, numWorkers: nat, k: nat)
    requires Run(states, numWorkers) && k < |states|
    ensures states[k].dequeued <= states[k].enqueued
    ensures states[k].enqueued == states[k].dequeued + states[k].queue
    ensures forall fd :: multiset(states[k].dequeued)[fd] ==
                         multiset(states[k].served)[fd] + Count(states[k].workers, Busy(fd))
  {
    RunInv(states, numWorkers, k);
    forall fd
      ensures multiset(states[k].dequeued)[fd] ==
              multiset(states[k].served)[fd] + Count(states[k].workers, Busy(fd))
    {
      assert HandedOver(states[k], fd);
    }
  }

  /** No lost wakeup in any reachable state; hence while the producer sleeps some worker is awake
      and will make room. */
  lemma {:induction false} ProducerIsServed(states: seq<State>, numWorkers: nat, k: nat)
    requires Run(states, numWorkers) && k < |states| && numWorkers >= 1
    requires states[k].producer.AsleepFull?
    ensures |states[k].queue| == states[k].capacity == 2 * numWorkers
    ensures Exited !in states[k].workers
    ensures exists w :: w in states[k].workers && (w == Ready || w == Notified || w.Busy?)
  {
    var s := states[k];
    RunInv(states, numWorkers, k);
    assert |s.queue| >= 2;
    CountZero(s.workers, Notified);
    assert s.workers[0] in s.workers;
  }

  lemma {:induction false} WorkIsServed(states: seq<State>, numWorkers: nat, k: nat)
    requires Run(states, numWorkers) && k < |states|
    ensures Asleep in states[k].workers ==> |states[k].queue| <= Count(states[k].workers, Notified)
  {
    RunInv(states, numWorkers, k);
  }

  /** Shutdown: when the first worker exits, every descriptor enqueued before the flag was set has
      been handed to a worker, and at most one later one is or will be left in the queue. */
  lemma {:induction false} NothingEarlyIsDropped(states: seq<State>, numWorkers: nat, k: nat)
    requires Run(states, numWorkers) && k < |states| && Exited in states[k].workers
    ensures var s := states[k];
            && s.shutdown && s.early <= |s.dequeued| && s.early <= |s.enqueued|
            && s.enqueued[..s.early] == s.dequeued[..s.early]
            && |s.enqueued| <= s.early + 1 && |s.queue| <= 1
  {
    RunInv(states, numWorkers, k);
  }

  /** `early` is what had been enqueued when the flag was set, and never changes afterwards. */
  lemma {:induction false} EarlyIsFixed(states: seq<State>, numWorkers: nat, k: nat, m: nat)
    requires Run(states, numWorkers) && k <= m < |states| && states[k].shutdown
    ensures states[m].shutdown && states[m].early == states[k].early
    ensures |states[k].enqueued| <= |states[m].enqueued|
  {
    for j := k to m
      invariant states[j].shutdown && states[j].early == states[k].early
      invariant |states[k].enqueued| <= |states[j].enqueued|
    {
      assert NextAt(states, j);
    }
  }

  /** After the broadcast no worker is asleep or about to be, ever. */
  lemma {:induction false} NobodySleepsAfterBroadcast(states: seq<State>, numWorkers: nat, k: nat, m: nat)
    requires Run(states, numWorkers) && k <= m < |states| && states[k].producer == Joining
    ensures states[m].producer == Joining
    ensures Asleep !in states[m].workers && Deciding !in states[m].workers
  {
    for j := k to m
      invariant states[j].producer == Joining
    {
      assert NextAt(states, j);
    }
    RunInv(states, numWorkers, m);
  }

  datatype Phase = Waiting | Serving | Over

  ghost function Phases(w: seq<Worker>): (ps: seq<Phase>)
    ensures |ps| == |w|
    ensures forall i :: 0 <= i < |w| ==> ps[i] == PhaseOf(w[i])
  {
    seq(|w|, i requires 0 <= i < |w| => PhaseOf(w[i]))
  }

  ghost function PhaseOf(w: Worker): Phase {
    match w
    case Exited => Over
    case Busy(_) => Serving
    case _ => Waiting
  }

  /** Steps the workers still have to take once the broadcast is out. */
  ghost function Rank(s: State): nat {
    3 * |s.queue| + 3 * Count(Phases(s.workers), Serving) + 2 * Count(Phases(s.workers), Waiting)
  }

  lemma {:induction false} WorkerStepLowersRank(s: State, s': State, i: nat)
    requires Deciding !in s.workers && s.producer == Joining && s.shutdown && WorkerStep(s, s', i)
    ensures Rank(s') < Rank(s)
  {
    assert s.workers[i] in s.workers;
    assert Phases(s'.workers) == Phases(s.workers)[i := PhaseOf(s'.workers[i])];
    CountUpdate(Phases(s.workers), i, PhaseOf(s'.workers[i]), Serving);
    CountUpdate(Phases(s.workers), i, PhaseOf(s'.workers[i]), Waiting);
  }

  ghost predicate AllExited(s: State) {
    forall w :: w in s.workers ==> w == Exited
  }

  /** The joins return: after the broadcast every step of a worker lowers the rank, and as long as
      a worker has not exited, one of them can take a step. */
  lemma {:induction false} WorkersFinish(s: State, numWorkers: nat)
    requires Inv(s, numWorkers) && s.producer == Joining
    ensures forall s', i: nat :: WorkerStep(s, s', i) ==> Rank(s') < Rank(s)
    ensures AllExited(s) || exists s', i: nat :: WorkerStep(s, s', i)
  {
    forall s', i: nat | WorkerStep(s, s', i)
      ensures Rank(s') < Rank(s)
    {
      WorkerStepLowersRank(s, s', i);
    }
    if w :| w in s.workers && w != Exited {
      var i :| 0 <= i < |s.workers| && s.workers[i] == w;
      var taken := if s.queue == [] then SetWorker(s, i, Exited)
                   else SetWorker(s, i, Busy(s.queue[0]))
                        .(queue := s.queue[1..], dequeued := s.dequeued + [s.queue[0]],
                          producer := SignalNotFull(s.producer));
      var s' := if w.Busy? then SetWorker(s, i, Ready).(served := s.served + [w.fd]) else taken;
      assert WorkerStep(s, s', i);
    }
  }

  /** A step puts a descriptor into the queue. */
  ghost predicate EnqueuesAt(states: seq<State>, k: nat)
    requires k + 1 < |states|
  {
    Enqueue(states[k], states[k + 1]) && |states[k + 1].enqueued| == |states[k].enqueued| + 1
  }

  /** No step takes anything back, and only a worker that finds the queue empty makes them all gone. */
  lemma {:induction false} StepRecords(s: State, s': State, numWorkers: nat)
    requires Inv(s, numWorkers) && Next(s, s')
    ensures s.enqueued <= s'.enqueued && s.dequeued <= s'.dequeued
    ensures AllExited(s) ==> AllExited(s') && s'.dequeued == s.dequeued
    ensures !AllExited(s) && AllExited(s') ==> s'.dequeued == s.enqueued
    ensures Enqueue(s, s') && AllExited(s') ==> AllExited(s)
  {
    if AllExited(s) {
      StaysExited(s, s');
    } else if AllExited(s') {
      LastExit(s, s', numWorkers);
    }
  }

  lemma {:induction false} LastExit(s: State, s': State, numWorkers: nat)
    requires Inv(s, numWorkers) && Next(s, s') && !AllExited(s) && AllExited(s')
    ensures s'.dequeued == s.enqueued && s'.enqueued == s.enqueued && !Enqueue(s, s')
  {
    var w :| w in s.workers && w != Exited;
    var j :| 0 <= j < |s.workers| && s.workers[j] == w;
    assert |s'.workers| == |s.workers| ==> s'.workers[j] in s'.workers;
  }

  lemma {:induction false} StaysExited(s: State, s': State)
    requires AllExited(s) && Next(s, s')
    ensures AllExited(s') && s'.dequeued == s.dequeued
  {
    assert forall i :: 0 <= i < |s.workers| ==> s.workers[i] in s.workers;
  }

  /** What had gone in while some worker was left is out before the last one exits. */
  lemma {:induction false} TakenBeforeLastExit(states: seq<State>, numWorkers: nat, k: nat, m: nat)
    requires Run(states, numWorkers) && k <= m < |states|
    requires !AllExited(states[k]) && AllExited(states[m])
    ensures states[k].enqueued <= states[m].dequeued
  {
    for j := k to m
      invariant states[k].enqueued <= states[j].enqueued
      invariant AllExited(states[j]) ==> states[k].enqueued <= states[j].dequeued
    {
      assert NextAt(states, j);
      RunInv(states, numWorkers, j);
      StepRecords(states[j], states[j + 1], numWorkers);
    }
  }

  /** And once they are gone nothing comes out any more. */
  lemma {:induction false} NothingTakenAfterwards(states: seq<State>, numWorkers: nat, k: nat, m: nat)
    requires Run(states, numWorkers) && k <= m < |states| && AllExited(states[k])
    ensures states[m].dequeued == states[k].dequeued && states[k].enqueued <= states[m].enqueued
  {
    for j := k to m
      invariant AllExited(states[j]) && states[j].dequeued == states[k].dequeued
      invariant states[k].enqueued <= states[j].enqueued
    {
      assert NextAt(states, j);
      RunInv(states, numWorkers, j);
      StepRecords(states[j], states[j + 1], numWorkers);
    }
  }

  /** Which descriptors are left behind: when all workers have exited, one that went into the queue
      at step `k` is still there if and only if all of them had exited before that step.  All the
      others have been served. */
  lemma {:induction false} LeftBehindIff(states: seq<State>, numWorkers: nat, k: nat, m: nat)
    requires Run(states, numWorkers) && k < m < |states| && EnqueuesAt(states, k) && AllExited(states[m])
    ensures var place := |states[k].enqueued|;
            && place < |states[m].enqueued|
            && (place >= |states[m].dequeued| <==> AllExited(states[k]))
    ensures multiset(states[m].served) == multiset(states[m].dequeued)
  {
    assert NextAt(states, k);
    RunInv(states, numWorkers, k);
    StepRecords(states[k], states[k + 1], numWorkers);
    if AllExited(states[k]) {
      NothingTakenAfterwards(states, numWorkers, k + 1, m);
    } else {
      TakenBeforeLastExit(states, numWorkers, k + 1, m);
    }
    RunInv(states, numWorkers, m);
    forall fd
      ensures multiset(states[m].served)[fd] == multiset(states[m].dequeued)[fd]
    {
      assert HandedOver(states[m], fd);
      CountZero(states[m].workers, Busy(fd));
    }
  }

  /** One descriptor can be left behind: the flag is set between `accept` and the enqueue, the
      only worker finds the queue empty and exits, and then the descriptor goes in. */
  lemma {:induction false} OneCanBeLeft(fd: nat) returns (states: seq<State>)
    ensures Run(states, 1)
    ensures var last := states[|states| - 1];
            last.producer == Joining && last.workers == [Exited] && last.queue == [fd]
  {
    var s0 := Initial(1);
    var s1 := s0.(producer := Accepting);
    var s2 := s1.(producer := Holding(fd));
    var s3 := s2.(shutdown := true, early := 0);
    var s4 := s3.(workers := [Exited]);
    var s5 := s4.(queue := [fd], enqueued := [fd], producer := Testing);
    var s6 := s5.(producer := Finishing);
    var s7 := s6.(producer := Joining);
    states := [s0, s1, s2, s3, s4, s5, s6, s7];
    assert s0.workers == [Ready];
    assert TestFlag(s0, s1) && Accept(s1, s2) && SetShutdown(s2, s3);
    assert Dequeue(s3, s4, 0);
    assert WorkerStep(s3, s4, 0);
    assert Enqueue(s4, s5) && TestFlag(s5, s6);
    assert WakeAll(s6.workers) == s6.workers;
    assert Broadcast(s6, s7);
    forall k | 0 <= k < 7
      ensures NextAt(states, k)
    {
    }
  }
}
