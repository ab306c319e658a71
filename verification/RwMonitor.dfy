/** The writer-priority readers-writers monitor of Lab6/ex3_starving_writer.c, for any number of
    threads.  A step is what one thread does between taking the mutex and giving it up. */
module RwMonitor {
  import opened Counting

  datatype Status =
    | Outside
    | ReaderAsleep | ReaderNotified | Reading
    | WriterAsleep | WriterNotified | Writing

  /** The four counters, and where each thread is. */
  datatype State = State(ar: int, wr: int, aw: int, ww: int, threads: seq<Status>)

  ghost function Initial(n: nat): State {
    State(0, 0, 0, 0, seq(n, _ => Outside))
  }

  ghost predicate At(s: State, i: nat, status: Status) {
    i < |s.threads| && s.threads[i] == status
  }

  /** `pthread_cond_signal` on `ok_to_write`: one sleeping writer is notified, if there is one. */
  ghost predicate SignalWriter(t: seq<Status>, t': seq<Status>) {
    if WriterAsleep in t
    then exists j :: 0 <= j < |t| && t[j] == WriterAsleep && t' == t[j := WriterNotified]
    else t' == t
  }

  /** `pthread_cond_broadcast` on `ok_to_read`: every sleeping reader is notified. */
  ghost function BroadcastReaders(t: seq<Status>): (t': seq<Status>)
    ensures |t'| == |t|
    ensures forall i :: 0 <= i < |t| ==> t'[i] == if t[i] == ReaderAsleep then ReaderNotified else t[i]
  {
    seq(|t|, i requires 0 <= i < |t| => if t[i] == ReaderAsleep then ReaderNotified else t[i])
  }

  /** `read_lock` from its start, or again after a wait: go in, or (back) to sleep. */
  ghost predicate ReadLock(s: State, s': State, i: nat) {
    (At(s, i, Outside) || At(s, i, ReaderNotified)) &&
    var wr := if s.threads[i] == ReaderNotified then s.wr - 1 else s.wr;
    s' == if s.aw + s.ww > 0
          then s.(wr := wr + 1, threads := s.threads[i := ReaderAsleep])
          else s.(wr := wr, ar := s.ar + 1, threads := s.threads[i := Reading])
  }

  ghost predicate ReadUnlock(s: State, s': State, i: nat) {
    At(s, i, Reading) &&
    var left := s.threads[i := Outside];
    s' == s.(ar := s.ar - 1, threads := s'.threads) &&
    if s.ar - 1 == 0 && s.ww > 0 then SignalWriter(left, s'.threads) else s'.threads == left
  }

  ghost predicate WriteLock(s: State, s': State, i: nat) {
    (At(s, i, Outside) || At(s, i, WriterNotified)) &&
    var ww := if s.threads[i] == WriterNotified then s.ww - 1 else s.ww;
    s' == if s.aw + s.ar > 0
          then s.(ww := ww + 1, threads := s.threads[i := WriterAsleep])
          else s.(ww := ww, aw := s.aw + 1, threads := s.threads[i := Writing])
  }

  ghost predicate WriteUnlock(s: State, s': State, i: nat) {
    At(s, i, Writing) &&
    var left := s.threads[i := Outside];
    s' == s.(aw := s.aw - 1, threads := s'.threads) &&
    if s.ww > 0 then SignalWriter(left, s'.threads)
    else if s.wr > 0 then s'.threads == BroadcastReaders(left)
    else s'.threads == left
  }

  /** A sleeper may wake without a signal. */
  ghost predicate Spurious(s: State, s': State, i: nat) {
    || (At(s, i, ReaderAsleep) && s' == s.(threads := s.threads[i := ReaderNotified]))
    || (At(s, i, WriterAsleep) && s' == s.(threads := s.threads[i := WriterNotified]))
  }

  ghost predicate StepOf(s: State, s': State, i: nat) {
    || ReadLock(s, s', i) || ReadUnlock(s, s', i)
    || WriteLock(s, s', i) || WriteUnlock(s, s', i)
    || Spurious(s, s', i)
  }

  ghost predicate Next(s: State, s': State) {
    exists i: nat :: StepOf(s, s', i)
  }

  ghost predicate Run(states: seq<State>, n: nat) {
    && |states| > 0 && states[0] == Initial(n)
    && forall k :: 0 <= k < |states| - 1 ==> NextAt(states, k)
  }

  ghost predicate NextAt(states: seq<State>, k: nat)
    requires k + 1 < |states|
  {
    Next(states[k], states[k + 1])
  }

  lemma {:induction false} CountBroadcast(t: seq<Status>, y: Status)
    ensures Count(BroadcastReaders(t), y) ==
            if y == ReaderAsleep then 0
            else if y == ReaderNotified then Count(t, ReaderAsleep) + Count(t, ReaderNotified)
            else Count(t, y)
  {
    if t != [] {
      CountBroadcast(t[..|t| - 1], y);
      assert BroadcastReaders(t)[..|t| - 1] == BroadcastReaders(t[..|t| - 1]);
    }
  }

  /** The counters are right: `ar` and `aw` count the threads inside, `wr` and `ww` the waiting
      ones, asleep or on their way. */
  ghost predicate Counted(s: State) {
    && s.ar == Count(s.threads, Reading)
    && s.aw == Count(s.threads, Writing)
    && s.wr == Count(s.threads, ReaderAsleep) + Count(s.threads, ReaderNotified)
    && s.ww == Count(s.threads, WriterAsleep) + Count(s.threads, WriterNotified)
  }

  /** At most one writer, and no reader beside it. */
  ghost predicate Exclusive(s: State) {
    s.aw <= 1 && (s.aw == 0 || s.ar == 0)
  }

  /** Whoever sleeps has somebody who will wake it. */
  ghost predicate NoLostWakeup(s: State) {
    && (Count(s.threads, ReaderAsleep) > 0 ==> s.aw + s.ww > 0)
    && (Count(s.threads, WriterAsleep) > 0 ==> s.ar > 0 || s.aw > 0 || Count(s.threads, WriterNotified) > 0)
  }

  ghost predicate Inv(s: State) {
    Counted(s) && Exclusive(s) && NoLostWakeup(s)
  }

  lemma {:induction false} InitialInv(n: nat)
    ensures Inv(Initial(n))
  {
    var t := Initial(n).threads;
    CountZero(t, Reading);
    CountZero(t, Writing);
    CountZero(t, ReaderAsleep);
    CountZero(t, ReaderNotified);
    CountZero(t, WriterAsleep);
    CountZero(t, WriterNotified);
  }

  /** How all counts change when thread `i` moves on. */
  lemma {:induction false} Moves(t: seq<Status>, i: nat, x: Status)
    requires i < |t|
    ensures forall y :: Count(t[i := x], y) ==
                        Count(t, y) - (if t[i] == y then 1 else 0) + if x == y then 1 else 0
  {
    forall y
      ensures Count(t[i := x], y) == Count(t, y) - (if t[i] == y then 1 else 0) + if x == y then 1 else 0
    {
      CountUpdate(t, i, x, y);
    }
  }

  lemma {:induction false} SignalMoves(t: seq<Status>, t': seq<Status>)
    requires SignalWriter(t, t')
    ensures |t'| == |t|
    ensures if WriterAsleep in t
            then && Count(t', WriterAsleep) == Count(t, WriterAsleep) - 1
                 && Count(t', WriterNotified) == Count(t, WriterNotified) + 1
            else t' == t
    ensures forall y :: y != WriterAsleep && y != WriterNotified ==> Count(t', y) == Count(t, y)
  {
    if WriterAsleep in t {
      var j :| 0 <= j < |t| && t[j] == WriterAsleep && t' == t[j := WriterNotified];
      Moves(t, j, WriterNotified);
    }
  }

  lemma {:induction false} ReadLockInv(s: State, s': State, i: nat)
    requires Inv(s) && ReadLock(s, s', i)
    ensures Inv(s')
  {
    Moves(s.threads, i, s'.threads[i]);
  }

  lemma {:induction false} ReadUnlockInv(s: State, s': State, i: nat)
    requires Inv(s) && ReadUnlock(s, s', i)
    ensures Inv(s')
  {
    var left := s.threads[i := Outside];
    Moves(s.threads, i, Outside);
    if s.ar - 1 == 0 && s.ww > 0 {
      CountZero(left, WriterAsleep);
      SignalMoves(left, s'.threads);
    }
  }

  lemma {:induction false} WriteLockInv(s: State, s': State, i: nat)
    requires Inv(s) && WriteLock(s, s', i)
    ensures Inv(s')
  {
    Moves(s.threads, i, s'.threads[i]);
  }

  lemma {:induction false} WriteUnlockInv(s: State, s': State, i: nat)
    requires Inv(s) && WriteUnlock(s, s', i)
    ensures Inv(s')
  {
    var left := s.threads[i := Outside];
    Moves(s.threads, i, Outside);
    if s.ww > 0 {
      CountZero(left, WriterAsleep);
      SignalMoves(left, s'.threads);
    } else if s.wr > 0 {
      forall y
        ensures Count(s'.threads, y) ==
                if y == ReaderAsleep then 0
                else if y == ReaderNotified then Count(left, ReaderAsleep) + Count(left, ReaderNotified)
                else Count(left, y)
      {
        CountBroadcast(left, y);
      }
    }
  }

  lemma {:induction false} SpuriousInv(s: State, s': State, i: nat)
    requires Inv(s) && Spurious(s, s', i)
    ensures Inv(s')
  {
    Moves(s.threads, i, s'.threads[i]);
  }

  lemma {:induction false} NextInv(s: State, s': State)
    requires Inv(s) && Next(s, s')
    ensures Inv(s') && |s'.threads| == |s.threads|
  {
    var i: nat :| StepOf(s, s', i);
    if ReadLock(s, s', i) { ReadLockInv(s, s', i); }
    else if ReadUnlock(s, s', i) {
      ReadUnlockInv(s, s', i);
      if s.ar - 1 == 0 && s.ww > 0 { SignalMoves(s.threads[i := Outside], s'.threads); }
    }
    else if WriteLock(s, s', i) { WriteLockInv(s, s', i); }
    else if WriteUnlock(s, s', i) {
      WriteUnlockInv(s, s', i);
      if s.ww > 0 { SignalMoves(s.threads[i := Outside], s'.threads); }
    }
    else { SpuriousInv(s, s', i); }
  }

  lemma {:induction false} RunInv(states: seq<State>, n: nat, k: nat)
    requires Run(states, n) && k < |states|
    ensures Inv(states[k]) && |states[k].threads| == n
  {
    if k == 0 {
      InitialInv(n);
    } else {
      RunInv(states, n, k - 1);
      assert NextAt(states, k - 1);
      NextInv(states[k - 1], states[k]);
    }
  }

  /** Nobody is beside writer `i`. */
  ghost predicate Alone(s: State, i: nat) {
    forall j: nat :: j != i ==> !At(s, j, Writing) && !At(s, j, Reading)
  }

  lemma {:induction false} WriterAlone(s: State, i: nat)
    requires Inv(s) && At(s, i, Writing)
    ensures Alone(s, i)
  {
    assert s.threads[i] in s.threads;
    CountZero(s.threads, Writing);
    CountZero(s.threads, Reading);
    forall j: nat | j != i && j < |s.threads|
      ensures s.threads[j] != Writing && s.threads[j] != Reading
    {
      if s.threads[j] == Writing {
        if i < j { CountTwo(s.threads, i, j); } else { CountTwo(s.threads, j, i); }
      }
      assert s.threads[j] in s.threads;
    }
  }

  /** Safety in every reachable state: a writer is alone. */
  lemma {:induction false} WriterIsAlone(states: seq<State>, n: nat, k: nat, i: nat)
    requires Run(states, n) && k < |states| && At(states[k], i, Writing)
    ensures Alone(states[k], i)
  {
    RunInv(states, n, k);
    WriterAlone(states[k], i);
  }

  ghost predicate Asleep(x: Status) {
    x == ReaderAsleep || x == WriterAsleep
  }

  /** No lost wakeup, in terms of threads: beside a sleeping reader there is a writer, inside or
      waiting; beside a sleeping writer there is a thread inside or a writer on its way. */
  ghost predicate SleepersWatched(t: seq<Status>) {
    && (ReaderAsleep in t ==> Writing in t || WriterAsleep in t || WriterNotified in t)
    && (WriterAsleep in t ==> Reading in t || Writing in t || WriterNotified in t)
  }

  /** The counters tell who is there, and sleepers are watched. */
  lemma {:induction false} WhoIsThere(s: State)
    requires Inv(s)
    ensures s.ar > 0 <==> Reading in s.threads
    ensures s.aw > 0 <==> Writing in s.threads
    ensures s.ww > 0 <==> WriterAsleep in s.threads || WriterNotified in s.threads
    ensures s.wr > 0 <==> ReaderAsleep in s.threads || ReaderNotified in s.threads
    ensures SleepersWatched(s.threads)
  {
    var t := s.threads;
    CountZero(t, ReaderAsleep);
    CountZero(t, ReaderNotified);
    CountZero(t, WriterAsleep);
    CountZero(t, WriterNotified);
    CountZero(t, Reading);
    CountZero(t, Writing);
  }

  lemma {:induction false} SleepersHaveWakers(states: seq<State>, n: nat, k: nat)
    requires Run(states, n) && k < |states|
    ensures SleepersWatched(states[k].threads)
  {
    RunInv(states, n, k);
    WhoIsThere(states[k]);
  }

  /** So the threads are never all asleep. */
  lemma {:induction false} NeverAllAsleep(states: seq<State>, n: nat, k: nat)
    requires Run(states, n) && k < |states| && n > 0
    ensures var t := states[k].threads;
            |t| == n && exists i :: 0 <= i < n && !Asleep(t[i])
  {
    var t := states[k].threads;
    RunInv(states, n, k);
    SleepersHaveWakers(states, n, k);
    if Asleep(t[0]) {
      assert t[0] in t;
      var x :| x in t && !Asleep(x);
      var i :| 0 <= i < n && t[i] == x;
    }
  }

  /** Writer priority: as long as some writer is waiting no reader gets in. */
  lemma {:induction false} WriterPriority(states: seq<State>, n: nat, k: nat, m: nat)
    requires Run(states, n) && k <= m < |states|
    requires forall l :: k <= l <= m ==> states[l].ww > 0
    ensures states[m].ar <= states[k].ar
    ensures forall i :: 0 <= i < n && At(states[m], i, Reading) ==> At(states[k], i, Reading)
  {
    RunInv(states, n, m);
    if k < m {
      RunInv(states, n, m - 1);
      WriterPriority(states, n, k, m - 1);
      assert NextAt(states, m - 1);
      NoReaderEnters(states[m - 1], states[m]);
    }
  }

  lemma {:induction false} NoReaderEnters(s: State, s': State)
    requires Inv(s) && Next(s, s') && s.ww > 0
    ensures s'.ar <= s.ar
    ensures |s'.threads| == |s.threads|
    ensures forall i :: At(s', i, Reading) ==> At(s, i, Reading)
  {
    NextInv(s, s');
    var i: nat :| StepOf(s, s', i);
    assert Count(s.threads, Writing) >= 0;
  }

  /** A step of a thread that is inside or on its way in; newcomers and spurious wakeups are not. */
  ghost predicate InsideStep(s: State, s': State, i: nat) {
    || (At(s, i, ReaderNotified) && ReadLock(s, s', i))
    || (At(s, i, WriterNotified) && WriteLock(s, s', i))
    || ReadUnlock(s, s', i)
    || WriteUnlock(s, s', i)
  }

  ghost predicate InsideNext(s: State, s': State) {
    exists i: nat :: InsideStep(s, s', i)
  }

  ghost function Waiting(s: State): int { s.wr + s.ww }

  ghost function Notified(s: State): nat {
    Count(s.threads, ReaderNotified) + Count(s.threads, WriterNotified)
  }

  ghost function Times(a: int, b: nat): nat {
    if a <= 0 then 0 else Times(a - 1, b) + b
  }

  ghost function Load(s: State): int {
    2 * Waiting(s) + s.ar + s.aw
  }

  /** Work left before the monitor is empty: each entry and each exit counts for more than all the
      wakeups it can cause. */
  ghost function Rank(s: State): nat {
    Times(Load(s), 2 * |s.threads| + 1) + Notified(s)
  }

  lemma {:induction false} CountBound(t: seq<Status>, y: Status)
    ensures Count(t, y) <= |t|
  {
    if t != [] { CountBound(t[..|t| - 1], y); }
  }

  lemma {:induction false} TimesMonotone(a: int, a': int, b: nat)
    requires a' <= a
    ensures Times(a', b) <= Times(a, b)
    decreases a - a'
  {
    if a' < a { TimesMonotone(a - 1, a', b); }
  }

  lemma {:induction false} RankDrops(s: State, s': State)
    requires Inv(s) && Inv(s') && |s'.threads| == |s.threads|
    requires Load(s') < Load(s) || (Load(s') == Load(s) && Notified(s') < Notified(s))
    ensures Rank(s') < Rank(s)
  {
    CountBound(s'.threads, ReaderNotified);
    CountBound(s'.threads, WriterNotified);
    var b := 2 * |s.threads| + 1;
    if Load(s') < Load(s) {
      TimesMonotone(Load(s) - 1, Load(s'), b);
      assert Times(Load(s), b) == Times(Load(s) - 1, b) + b;
    }
  }

  /** Every inside step brings the monitor nearer to being empty, even when a woken thread has to
      go back to sleep. */
  lemma {:induction false} InsideStepDecreases(s: State, s': State, i: nat)
    requires Inv(s) && InsideStep(s, s', i)
    ensures Inv(s') && Rank(s') < Rank(s)
  {
    assert StepOf(s, s', i);
    NextInv(s, s');
    Moves(s.threads, i, s'.threads[i]);
    RankDrops(s, s');
  }

  /** When no inside step is possible, everybody has left: nobody is stranded in a wait. */
  lemma {:induction false} StuckIsEmpty(s: State)
    requires Inv(s) && forall s', i: nat :: !InsideStep(s, s', i)
    ensures forall i :: 0 <= i < |s.threads| ==> s.threads[i] == Outside
  {
    var t := s.threads;
    forall i | 0 <= i < |t|
      ensures !(t[i] in {ReaderNotified, WriterNotified, Reading, Writing})
    {
      var s' := CanStep(s, i);
    }
    CountZero(t, ReaderAsleep);
    CountZero(t, WriterAsleep);
    CountZero(t, ReaderNotified);
    CountZero(t, WriterNotified);
    CountZero(t, Reading);
    CountZero(t, Writing);
    forall i | 0 <= i < |t|
      ensures t[i] == Outside
    {
      assert t[i] in t;
    }
  }

  lemma {:induction false} CanStep(s: State, i: nat) returns (s': State)
    requires i < |s.threads|
    ensures s.threads[i] in {ReaderNotified, WriterNotified, Reading, Writing} ==> InsideStep(s, s', i)
  {
    var t := s.threads;
    var left := t[i := Outside];
    var signalled := left;
    if WriterAsleep in left {
      var j :| 0 <= j < |left| && left[j] == WriterAsleep;
      signalled := left[j := WriterNotified];
    }
    match t[i] {
      case ReaderNotified =>
        s' := if s.aw + s.ww > 0 then s.(wr := s.wr - 1 + 1, threads := t[i := ReaderAsleep])
              else s.(wr := s.wr - 1, ar := s.ar + 1, threads := t[i := Reading]);
      case WriterNotified =>
        s' := if s.aw + s.ar > 0 then s.(ww := s.ww - 1 + 1, threads := t[i := WriterAsleep])
              else s.(ww := s.ww - 1, aw := s.aw + 1, threads := t[i := Writing]);
      case Reading =>
        s' := s.(ar := s.ar - 1, threads := if s.ar - 1 == 0 && s.ww > 0 then signalled else left);
      case Writing =>
        s' := s.(aw := s.aw - 1,
                 threads := if s.ww > 0 then signalled else if s.wr > 0 then BroadcastReaders(left) else left);
      case _ => s' := s;
    }
  }

  ghost predicate InsideAt(states: seq<State>, k: nat)
    requires k + 1 < |states|
  {
    InsideNext(states[k], states[k + 1])
  }

  /** The monitor drains: from any reachable state at most `Rank` inside steps can happen before
      newcomers must join; and when they are exhausted, nobody waits (StuckIsEmpty). */
  lemma {:induction false} Drains(states: seq<State>)
    requires |states| > 0 && Inv(states[0])
    requires forall k :: 0 <= k < |states| - 1 ==> InsideAt(states, k)
    ensures Inv(states[|states| - 1])
    ensures |states| - 1 <= Rank(states[0]) - Rank(states[|states| - 1])
  {
    for k := 0 to |states| - 1
      invariant Inv(states[k]) && Rank(states[k]) + k <= Rank(states[0])
    {
      assert InsideAt(states, k);
      var s, s' := states[k], states[k + 1];
      var i: nat :| InsideStep(s, s', i);
      InsideStepDecreases(s, s', i);
    }
  }

  /** Thread `i` has left, one sleeping writer may have been woken, and nobody else has moved. */
  ghost predicate OnlyWakes(t: seq<Status>, t': seq<Status>, i: nat, woken: int) {
    && |t'| == |t|
    && (forall j :: 0 <= j < |t| ==>
          t'[j] == if j == i then Outside else if j == woken then WriterNotified else t[j])
    && (0 <= woken < |t| ==> t[woken] == WriterAsleep)
  }

  lemma {:induction false} SignalWakesOne(t: seq<Status>, t': seq<Status>, i: nat)
    requires i < |t| && (t[i] == Reading || t[i] == Writing)
    requires SignalWriter(t[i := Outside], t')
    ensures if WriterAsleep in t then exists woken :: 0 <= woken < |t'| && OnlyWakes(t, t', i, woken)
            else t' == t[i := Outside]
  {
    var left := t[i := Outside];
    if WriterAsleep in t {
      var k :| 0 <= k < |t| && t[k] == WriterAsleep;
      assert left[k] == WriterAsleep;
      var j :| 0 <= j < |left| && left[j] == WriterAsleep && t' == left[j := WriterNotified];
      assert OnlyWakes(t, t', i, j);
    } else {
      assert forall x :: x in left ==> x == Outside || x in t;
    }
  }

  /** The monitor's fields; the sleepers in `threads` are the wait sets of its two condition
      variables.  Each method is one stretch under the mutex. */
  class Monitor {
    var ar: int
    var wr: int
    var aw: int
    var ww: int
    var threads: seq<Status>

    ghost function View(): State
      reads this
    {
      State(ar, wr, aw, ww, threads)
    }

    constructor (n: nat)
      ensures View() == Initial(n) && Inv(View())
    {
      ar, wr, aw, ww := 0, 0, 0, 0;
      threads := seq(n, _ => Outside);
      new;
      InitialInv(n);
    }

    /** `read_lock` up to its return or its next wait: the reader gets in exactly when no writer is
        inside or waiting, and then reads beside no writer; otherwise it sleeps. */
    method ReadLockStretch(i: nat) returns (inside: bool)
      requires Inv(View()) && (At(View(), i, Outside) || At(View(), i, ReaderNotified))
      modifies this
      ensures Inv(View()) && StepOf(old(View()), View(), i)
      ensures inside <==> forall x :: x in old(threads) ==> x !in {Writing, WriterAsleep, WriterNotified}
      ensures threads == old(threads)[i := if inside then Reading else ReaderAsleep]
      ensures inside ==> Writing !in threads
    {
      WhoIsThere(View());
      ghost var before := View();
      if threads[i] == ReaderNotified {
        wr := wr - 1;
      }
      if aw + ww > 0 {
        wr := wr + 1;
        threads := threads[i := ReaderAsleep];
        inside := false;
      } else {
        ar := ar + 1;
        threads := threads[i := Reading];
        inside := true;
      }
      assert ReadLock(before, View(), i) && StepOf(before, View(), i);
      ReadLockInv(before, View(), i);
      WhoIsThere(View());
    }

    method SignalOkToWrite()
      modifies `threads
      ensures SignalWriter(old(threads), threads)
    {
      if WriterAsleep in threads {
        var j :| 0 <= j < |threads| && threads[j] == WriterAsleep;
        threads := threads[j := WriterNotified];
      }
    }

    method BroadcastOkToRead()
      modifies `threads
      ensures threads == BroadcastReaders(old(threads))
    {
      var t := threads;
      threads := seq(|t|, i requires 0 <= i < |t| => if t[i] == ReaderAsleep then ReaderNotified else t[i]);
    }

    /** `read_unlock`: the last reader out leaves a notified writer if any writer waits; sleeping
        readers sleep on, and every other thread but one such writer stays where it was. */
    method ReadUnlockStretch(i: nat)
      requires Inv(View()) && At(View(), i, Reading)
      modifies this
      ensures Inv(View()) && StepOf(old(View()), View(), i)
      ensures At(View(), i, Outside)
      ensures Reading !in threads && WriterAsleep in old(threads) ==>
                exists woken :: 0 <= woken < |threads| && OnlyWakes(old(threads), threads, i, woken)
      ensures Reading in threads || WriterAsleep !in old(threads) ==> threads == old(threads)[i := Outside]
    {
      WhoIsThere(View());
      ghost var before := View();
      threads := threads[i := Outside];
      ar := ar - 1;
      if ar == 0 && ww > 0 {
        SignalOkToWrite();
      }
      assert ReadUnlock(before, View(), i) && StepOf(before, View(), i);
      ReadUnlockInv(before, View(), i);
      WhoIsThere(View());
      if before.ar - 1 == 0 && before.ww > 0 { SignalWakesOne(before.threads, threads, i); }
    }

    /** `write_lock` up to its return or its next wait: the writer gets in exactly when nobody is
        inside, and then is alone; otherwise it sleeps. */
    method WriteLockStretch(i: nat) returns (inside: bool)
      requires Inv(View()) && (At(View(), i, Outside) || At(View(), i, WriterNotified))
      modifies this
      ensures Inv(View()) && StepOf(old(View()), View(), i)
      ensures inside <==> Reading !in old(threads) && Writing !in old(threads)
      ensures threads == old(threads)[i := if inside then Writing else WriterAsleep]
      ensures inside ==> Alone(View(), i)
    {
      WhoIsThere(View());
      ghost var before := View();
      if threads[i] == WriterNotified {
        ww := ww - 1;
      }
      if aw + ar > 0 {
        ww := ww + 1;
        threads := threads[i := WriterAsleep];
        inside := false;
      } else {
        aw := aw + 1;
        threads := threads[i := Writing];
        inside := true;
      }
      assert WriteLock(before, View(), i) && StepOf(before, View(), i);
      WriteLockInv(before, View(), i);
      if inside { WriterAlone(View(), i); }
    }

    /** `write_unlock`: nobody is inside any more; a waiting writer is on its way, and if there is
        none, no reader is left asleep. */
    method WriteUnlockStretch(i: nat)
      requires Inv(View()) && At(View(), i, Writing)
      modifies this
      ensures Inv(View()) && StepOf(old(View()), View(), i)
      ensures At(View(), i, Outside) && Reading !in threads && Writing !in threads
      ensures WriterAsleep in old(threads) ==>
                exists woken :: 0 <= woken < |threads| && OnlyWakes(old(threads), threads, i, woken)
      ensures WriterAsleep !in old(threads) && WriterNotified in old(threads) ==> threads == old(threads)[i := Outside]
      ensures WriterAsleep !in old(threads) && WriterNotified !in old(threads) ==>
                ReaderAsleep !in threads && threads == BroadcastReaders(old(threads)[i := Outside])
    {
      WhoIsThere(View());
      ghost var before := View();
      threads := threads[i := Outside];
      aw := aw - 1;
      if ww > 0 {
        SignalOkToWrite();
      } else if wr > 0 {
        BroadcastOkToRead();
      }
      assert WriteUnlock(before, View(), i) && StepOf(before, View(), i);
      WriteUnlockInv(before, View(), i);
      WhoIsThere(View());
      if before.ww > 0 { SignalWakesOne(before.threads, threads, i); }
    }
  }
}
