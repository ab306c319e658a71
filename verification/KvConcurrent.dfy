/** Workers and the sweeper on one table under its read/write lock: whatever the interleaving, the
    answers are those of the timed map with the operations in one order, the order in which they
    read the clock inside the lock. */
module KvConcurrent {
  import opened KvModel
  import opened Counting

  /** Where a thread is.  `since` is how many operations were ordered when it started; `at` is the
      place of its own.  Readers read the clock, search, count, and only then let go of the lock; `due`
      records what the table held for the key when the clock was read. */
  datatype Thread =
    | Idle
    | Wants(op: Op, since: nat)
    | ReadLocked(key: Text, since: nat)
    | Timed(key: Text, since: nat, at: nat, due: Answer)
    | Searched(key: Text, since: nat, at: nat, answer: Answer)
    | Counted(key: Text, since: nat, at: nat, answer: Answer)
    | WriteLocked(op: Op, since: nat)
    | Written(op: Op, since: nat, at: nat, answer: Answer)

  /** An operation that has returned, when `upto` operations had been ordered. */
  datatype Event = Event(op: Op, answer: Answer, since: nat, at: nat, upto: nat)

  /** `log` lists the operations in their order; `start` is the table before all of them. */
  datatype State = State(db: Db, clock: nat, threads: seq<Thread>, log: seq<Call>, events: seq<Event>)

  ghost function Initial(n: nat): State {
    State(Empty(), 0, seq(n, _ => Idle), [], [])
  }

  ghost predicate Reading(t: Thread) {
    t.ReadLocked? || t.Timed? || t.Searched? || t.Counted?
  }

  ghost predicate Writing(t: Thread) {
    t.WriteLocked? || t.Written?
  }

  ghost predicate NoWriter(s: State) {
    forall t :: t in s.threads ==> !Writing(t)
  }

  ghost predicate NobodyInside(s: State) {
    forall t :: t in s.threads ==> !Writing(t) && !Reading(t)
  }

  ghost function SetThread(s: State, i: nat, t: Thread): State
    requires i < |s.threads|
  {
    s.(threads := s.threads[i := t])
  }

  ghost predicate Tick(s: State, s': State) {
    exists now: nat :: s.clock <= now && s' == s.(clock := now)
  }

  ghost predicate Invoke(s: State, s': State, i: nat)
    requires i < |s.threads|
  {
    s.threads[i] == Idle && exists op :: s' == SetThread(s, i, Wants(op, |s.log|))
  }

  ghost predicate LockRead(s: State, s': State, i: nat)
    requires i < |s.threads|
  {
    var t := s.threads[i];
    t.Wants? && t.op.GetOp? && NoWriter(s) && s' == SetThread(s, i, ReadLocked(t.op.key, t.since))
  }

  ghost predicate LockWrite(s: State, s': State, i: nat)
    requires i < |s.threads|
  {
    var t := s.threads[i];
    t.Wants? && !t.op.GetOp? && NobodyInside(s) && s' == SetThread(s, i, WriteLocked(t.op, t.since))
  }

  /** A reader's `time(NULL)`: here its GET takes its place in the order. */
  ghost predicate ReadClock(s: State, s': State, i: nat)
    requires i < |s.threads|
  {
    var t := s.threads[i];
    t.ReadLocked? &&
    s' == SetThread(s, i, Timed(t.key, t.since, |s.log|, Reply(s.db, GetOp(t.key), s.clock)))
          .(log := s.log + [Call(GetOp(t.key), s.clock)])
  }

  /** The walk along the chain and the comparison with the time read before. */
  ghost predicate Search(s: State, s': State, i: nat)
    requires i < |s.threads|
  {
    var t := s.threads[i];
    t.Timed? && t.at < |s.log| &&
    s' == SetThread(s, i, Searched(t.key, t.since, t.at, Reply(s.db, GetOp(t.key), s.log[t.at].now)))
  }

  /** The atomic increment of `hits` or `misses`. */
  ghost predicate CountGet(s: State, s': State, i: nat)
    requires i < |s.threads|
  {
    var t := s.threads[i];
    t.Searched? &&
    s' == SetThread(s, i, Counted(t.key, t.since, t.at, t.answer))
          .(db := if t.answer == NotFound then s.db.(misses := s.db.misses + 1) else s.db.(hits := s.db.hits + 1))
  }

  /** A PUT, DEL or sweep, alone inside the lock. */
  ghost predicate Write(s: State, s': State, i: nat)
    requires i < |s.threads|
  {
    var t := s.threads[i];
    t.WriteLocked? &&
    s' == SetThread(s, i, Written(t.op, t.since, |s.log|, Reply(s.db, t.op, s.clock)))
          .(db := Apply(s.db, t.op, s.clock), log := s.log + [Call(t.op, s.clock)])
  }

  ghost predicate Return(s: State, s': State, i: nat)
    requires i < |s.threads|
  {
    var t := s.threads[i];
    (t.Counted? || t.Written?) &&
    var op := if t.Counted? then GetOp(t.key) else t.op;
    s' == SetThread(s, i, Idle).(events := s.events + [Event(op, t.answer, t.since, t.at, |s.log|)])
  }

  ghost predicate ThreadStep(s: State, s': State, i: nat) {
    i < |s.threads| &&
    (|| Invoke(s, s', i) || LockRead(s, s', i) || LockWrite(s, s', i)
     || ReadClock(s, s', i) || Search(s, s', i) || CountGet(s, s', i)
     || Write(s, s', i) || Return(s, s', i))
  }

  ghost predicate Next(s: State, s': State) {
    Tick(s, s') || exists i: nat :: ThreadStep(s, s', i)
  }

  ghost predicate NextAt(states: seq<State>, k: nat)
    requires k + 1 < |states|
  {
    Next(states[k], states[k + 1])
  }

  ghost predicate Run(states: seq<State>, n: nat) {
    && |states| > 0 && states[0] == Initial(n)
    && forall k :: 0 <= k < |states| - 1 ==> NextAt(states, k)
  }

  /** The store that the first `n` operations of the log make, one after the other. */
  ghost function Model(log: seq<Call>, n: nat): Db
    requires n <= |log|
  {
    After(Empty(), log, n)
  }

  /** The answer that operation `at` gets when the log is played in order. */
  ghost function Due(log: seq<Call>, at: nat): Answer
    requires at < |log|
  {
    Reply(Model(log, at), log[at].op, log[at].now)
  }

  /** What a thread still owes to the read counters: a GET has its place but is not counted yet. */
  datatype Debt = Settled | OneHit | OneMiss

  ghost function DebtOf(t: Thread): Debt {
    match t
    case Timed(_, _, _, due) => if due == NotFound then OneMiss else OneHit
    case Searched(_, _, _, answer) => if answer == NotFound then OneMiss else OneHit
    case _ => Settled
  }

  ghost function Debts(threads: seq<Thread>): seq<Debt> {
    seq(|threads|, i requires 0 <= i < |threads| => DebtOf(threads[i]))
  }

  ghost predicate IsPlaced(t: Thread) {
    t.Timed? || t.Searched? || t.Counted? || t.Written?
  }

  /** The operation a thread is at, once it has begun one. */
  ghost function OpOf(t: Thread): Op
    requires !t.Idle?
  {
    match t
    case Wants(op, _) => op
    case WriteLocked(op, _) => op
    case Written(op, _, _, _) => op
    case ReadLocked(key, _) => GetOp(key)
    case Timed(key, _, _, _) => GetOp(key)
    case Searched(key, _, _, _) => GetOp(key)
    case Counted(key, _, _, _) => GetOp(key)
  }

  /** A thread's own place in the log holds its operation, and the answer is the due one. */
  ghost predicate Placed(s: State, t: Thread) {
    (!t.Idle? ==> t.since <= |s.log|) &&
    (t.WriteLocked? ==> !t.op.GetOp?) &&
    (IsPlaced(t) ==>
      && t.since <= t.at < |s.log| && s.log[t.at].op == OpOf(t)
      && Due(s.log, t.at) == if t.Timed? then t.due else t.answer)
  }

  /** Between its clock and its search a reader keeps seeing the same table. */
  ghost predicate StillThere(s: State, t: Thread) {
    t.Timed? && t.at < |s.log| ==> t.due == Reply(s.db, GetOp(t.key), s.log[t.at].now)
  }

  /** A returned operation has a place between its start and its end, with its answer due there. */
  ghost predicate Explained(log: seq<Call>, e: Event) {
    && e.since <= e.at < e.upto <= |log|
    && log[e.at].op == e.op && Due(log, e.at) == e.answer
  }

  /** Readers and writers never meet, nor do two writers. */
  ghost predicate Apart(s: State, i: nat, j: nat)
    requires i < |s.threads| && j < |s.threads|
  {
    i != j && Writing(s.threads[i]) ==> !Writing(s.threads[j]) && !Reading(s.threads[j])
  }

  ghost predicate Locked(s: State) {
    forall i: nat, j: nat :: i < |s.threads| && j < |s.threads| ==> Apart(s, i, j)
  }

  /** No two operations share a place. */
  ghost predicate OwnPlaces(s: State) {
    && (forall i: nat, j: nat :: i < j < |s.threads| && IsPlaced(s.threads[i]) && IsPlaced(s.threads[j]) ==>
          s.threads[i].at != s.threads[j].at)
    && (forall i: nat, e: nat :: i < |s.threads| && e < |s.events| && IsPlaced(s.threads[i]) ==>
          s.threads[i].at != s.events[e].at)
    && (forall e: nat, f: nat :: e < f < |s.events| ==> s.events[e].at != s.events[f].at)
  }

  ghost predicate ThreadAt(s: State, i: nat)
    requires i < |s.threads|
  {
    Placed(s, s.threads[i]) && StillThere(s, s.threads[i])
  }

  ghost predicate EventAt(s: State, e: nat)
    requires e < |s.events|
  {
    Explained(s.log, s.events[e])
  }

  /** The table is that of the log; the two read counters lack the GETs that are not counted yet. */
  ghost predicate Agrees(s: State) {
    var m := Model(s.log, |s.log|);
    && s.db.cells == m.cells && s.db.keys == m.keys && s.db.puts == m.puts && s.db.dels == m.dels
    && s.db.hits + Count(Debts(s.threads), OneHit) == m.hits
    && s.db.misses + Count(Debts(s.threads), OneMiss) == m.misses
  }

  ghost predicate Inv(s: State) {
    && Locked(s) && OwnPlaces(s) && Agrees(s)
    && Ordered(s.log) && ClockAt(s.log, |s.log|) <= s.clock
    && (forall i: nat :: i < |s.threads| ==> ThreadAt(s, i))
    && (forall e: nat :: e < |s.events| ==> EventAt(s, e))
  }

  lemma {:induction false} NoDebts(threads: seq<Thread>, d: Debt)
    requires d != Settled && forall t :: t in threads ==> DebtOf(t) == Settled
    ensures Count(Debts(threads), d) == 0
  {
    CountZero(Debts(threads), d);
  }

  lemma {:induction false} InitialInv(n: nat)
    requires forall d :: d != Settled ==> Count(Debts(Initial(n).threads), d) == 0
    ensures Inv(Initial(n))
  {
  }

  /** What is ordered stays as it is when another operation is ordered. */
  lemma {:induction false} DueStable(log: seq<Call>, call: Call)
    ensures forall at: nat :: at < |log| ==> Due(log + [call], at) == Due(log, at)
    ensures Due(log + [call], |log|) == Reply(Model(log, |log|), call.op, call.now)
    ensures Model(log + [call], |log| + 1) == Apply(Model(log, |log|), call.op, call.now)
  {
    forall at: nat | at <= |log|
      ensures Model(log + [call], at) == Model(log, at)
    {
      AfterPrefix(Empty(), log, call, at);
    }
    AfterSnoc(Empty(), log, call);
  }

  /** Steps that order nothing and touch only one thread. */
  lemma {:induction false} QuietStep(s: State, s': State, i: nat, t: Thread)
    requires Inv(s) && i < |s.threads| && s' == SetThread(s, i, t).(db := s'.db)
    requires s'.db.cells == s.db.cells && Agrees(s')
    requires Placed(s', t) && StillThere(s', t)
    requires IsPlaced(t) ==> IsPlaced(s.threads[i]) && t.at == s.threads[i].at
    requires Writing(t) && !Writing(s.threads[i]) ==> NobodyInside(s)
    requires Reading(t) && !Reading(s.threads[i]) ==> NoWriter(s)
    ensures Inv(s')
  {
    forall j: nat | j < |s'.threads|
      ensures ThreadAt(s', j)
    {
      assert j != i ==> ThreadAt(s, j);
    }
    forall e: nat | e < |s'.events|
      ensures EventAt(s', e)
    {
      assert EventAt(s, e);
    }
    forall j: nat, k: nat | j < |s'.threads| && k < |s'.threads|
      ensures Apart(s', j, k)
    {
      assert Apart(s, j, k);
      assert s.threads[j] in s.threads && s.threads[k] in s.threads;
    }
  }

  lemma {:induction false} DebtsMove(s: State, i: nat, t: Thread)
    requires i < |s.threads|
    ensures forall d :: Count(Debts(s.threads[i := t]), d) ==
                        Count(Debts(s.threads), d)
                        - (if DebtOf(s.threads[i]) == d then 1 else 0) + if DebtOf(t) == d then 1 else 0
  {
    assert Debts(s.threads[i := t]) == Debts(s.threads)[i := DebtOf(t)];
    forall d
      ensures Count(Debts(s.threads[i := t]), d) ==
              Count(Debts(s.threads), d)
              - (if DebtOf(s.threads[i]) == d then 1 else 0) + if DebtOf(t) == d then 1 else 0
    {
      CountUpdate(Debts(s.threads), i, DebtOf(t), d);
    }
  }

  lemma {:induction false} PlainStepInv(s: State, s': State, i: nat)
    requires Inv(s) && i < |s.threads|
    requires Invoke(s, s', i) || LockRead(s, s', i) || LockWrite(s, s', i) || Search(s, s', i) || CountGet(s, s', i)
    ensures Inv(s')
  {
    assert ThreadAt(s, i);
    DebtsMove(s, i, s'.threads[i]);
    QuietStep(s, s', i, s'.threads[i]);
  }

  lemma {:induction false} ReturnInv(s: State, s': State, i: nat)
    requires Inv(s) && i < |s.threads| && Return(s, s', i)
    ensures Inv(s')
  {
    assert ThreadAt(s, i);
    DebtsMove(s, i, Idle);
    var quiet := SetThread(s, i, Idle);
    QuietStep(s, quiet, i, Idle);
    forall j: nat | j < |s'.threads|
      ensures ThreadAt(s', j)
    {
      assert ThreadAt(quiet, j);
    }
    forall e: nat | e < |s'.events|
      ensures EventAt(s', e)
    {
      assert e < |s.events| ==> EventAt(s, e);
    }
    forall j: nat, k: nat | j < |s'.threads| && k < |s'.threads|
      ensures Apart(s', j, k)
    {
      assert Apart(quiet, j, k);
    }
  }

  lemma {:induction false} OrderedSnoc(log: seq<Call>, call: Call)
    requires Ordered(log) && ClockAt(log, |log|) <= call.now
    ensures Ordered(log + [call]) && ClockAt(log + [call], |log| + 1) == call.now
  {
  }

  /** Steps that take the next place in the order. */
  lemma {:induction false} OrderingStep(s: State, s': State, i: nat, t: Thread, op: Op)
    requires Inv(s) && i < |s.threads|
    requires s' == SetThread(s, i, t).(db := s'.db, log := s.log + [Call(op, s.clock)])
    requires IsPlaced(t) && !IsPlaced(s.threads[i]) && t.at == |s.log| && OpOf(t) == op && t.since <= |s.log|
    requires Reply(s.db, op, s.clock) == (if t.Timed? then t.due else t.answer)
    requires Writing(t) == Writing(s.threads[i]) && Reading(t) == Reading(s.threads[i])
    requires s'.db.cells == s.db.cells || Writing(t)
    requires StillThere(s', t) && Agrees(s')
    ensures Inv(s')
  {
    var call := Call(op, s.clock);
    DueStable(s.log, call);
    OrderedSnoc(s.log, call);
    assert Due(s'.log, |s.log|) == Reply(s.db, op, s.clock);
    forall j: nat | j < |s'.threads|
      ensures ThreadAt(s', j)
    {
      if j != i { assert ThreadAt(s, j) && Apart(s, i, j); }
    }
    forall e: nat | e < |s'.events|
      ensures EventAt(s', e)
    {
      assert EventAt(s, e);
    }
    forall j: nat, k: nat | j < |s'.threads| && k < |s'.threads|
      ensures Apart(s', j, k)
    {
      assert Apart(s, j, k);
    }
    PlacesBelow(s);
  }

  /** All places taken are places in the log. */
  lemma {:induction false} PlacesBelow(s: State)
    requires Inv(s)
    ensures forall j: nat :: j < |s.threads| && IsPlaced(s.threads[j]) ==> s.threads[j].at < |s.log|
    ensures forall e: nat :: e < |s.events| ==> s.events[e].at < |s.log|
  {
    forall j: nat | j < |s.threads| && IsPlaced(s.threads[j])
      ensures s.threads[j].at < |s.log|
    {
      assert ThreadAt(s, j);
    }
    forall e: nat | e < |s.events|
      ensures s.events[e].at < |s.log|
    {
      assert EventAt(s, e);
    }
  }

  lemma {:induction false} ReadClockInv(s: State, s': State, i: nat)
    requires Inv(s) && i < |s.threads| && ReadClock(s, s', i)
    ensures Inv(s')
  {
    assert ThreadAt(s, i);
    var t := s'.threads[i];
    DebtsMove(s, i, t);
    DueStable(s.log, Call(GetOp(t.key), s.clock));
    OrderingStep(s, s', i, t, GetOp(t.key));
  }

  lemma {:induction false} WriteInv(s: State, s': State, i: nat)
    requires Inv(s) && i < |s.threads| && Write(s, s', i)
    ensures Inv(s')
  {
    assert ThreadAt(s, i);
    var t := s'.threads[i];
    DebtsMove(s, i, t);
    DueStable(s.log, Call(t.op, s.clock));
    OrderingStep(s, s', i, t, t.op);
  }

  lemma {:induction false} TickInv(s: State, s': State)
    requires Inv(s) && Tick(s, s')
    ensures Inv(s')
  {
    forall j: nat | j < |s'.threads|
      ensures ThreadAt(s', j)
    {
      assert ThreadAt(s, j);
    }
    forall e: nat | e < |s'.events|
      ensures EventAt(s', e)
    {
      assert EventAt(s, e);
    }
    forall j: nat, k: nat | j < |s'.threads| && k < |s'.threads|
      ensures Apart(s', j, k)
    {
      assert Apart(s, j, k);
    }
  }

  lemma {:induction false} RunInv(states: seq<State>, n: nat, k: nat)
    requires Run(states, n) && k < |states|
    ensures Inv(states[k])
  {
    if k == 0 {
      NoDebts(Initial(n).threads, OneHit);
      NoDebts(Initial(n).threads, OneMiss);
      InitialInv(n);
    } else {
      RunInv(states, n, k - 1);
      assert NextAt(states, k - 1);
      var s, s' := states[k - 1], states[k];
      if Tick(s, s') {
        TickInv(s, s');
      } else {
        var i: nat :| ThreadStep(s, s', i);
        if ReadClock(s, s', i) { ReadClockInv(s, s', i); }
        else if Write(s, s', i) { WriteInv(s, s', i); }
        else if Return(s, s', i) { ReturnInv(s, s', i); }
        else { PlainStepInv(s, s', i); }
      }
    }
  }

  /** Every interleaving is explained by one sequential run of the timed map: each operation that
      returned has a place of its own in the log, between its start and its end; played in order
      the log gives it the answer it got; and the clocks in the log never go back. */
  lemma {:induction false} Linearizable(states: seq<State>, n: nat, k: nat)
    requires Run(states, n) && k < |states|
    ensures var s := states[k];
            && Ordered(s.log)
            && (forall e :: 0 <= e < |s.events| ==> Explained(s.log, s.events[e]))
            && (forall e, f :: 0 <= e < f < |s.events| ==> s.events[e].at != s.events[f].at)
  {
    var s := states[k];
    RunInv(states, n, k);
    forall e | 0 <= e < |s.events|
      ensures Explained(s.log, s.events[e])
    {
      assert EventAt(s, e);
    }
  }

  ghost predicate Busy(s: State, i: nat) {
    i < |s.threads| && !s.threads[i].Idle?
  }

  /** What a step leaves alone: the returned operations, and when a thread's operation began. */
  lemma {:induction false} StepKeeps(s: State, s': State, i: nat)
    requires Next(s, s')
    ensures s.events <= s'.events && |s.threads| == |s'.threads|
    ensures Busy(s, i) && Busy(s', i) ==> s'.threads[i].since == s.threads[i].since
  {
    if !Tick(s, s') {
      var j: nat :| ThreadStep(s, s', j);
      assert i != j && i < |s.threads| ==> s'.threads[i] == s.threads[i];
    }
  }

  /** The order respects real time.  Thread `i` begins an operation in step `k` and returns from it
      in step `m`: everything that had returned before step `k` comes before it in the order. */
  lemma {:induction false} RealTimeOrder(states: seq<State>, n: nat, k: nat, m: nat, i: nat)
    requires Run(states, n) && k < m < |states| - 1
    requires i < |states[k].threads| && Invoke(states[k], states[k + 1], i)
    requires forall l :: k < l <= m ==> Busy(states[l], i)
    requires Busy(states[m], i) && Return(states[m], states[m + 1], i)
    ensures var before, after := states[k].events, states[m + 1].events;
            && before <= after && |before| < |after|
            && forall e :: 0 <= e < |before| ==> before[e].at < after[|after| - 1].at
  {
    assert NextAt(states, k);
    StepKeeps(states[k], states[k + 1], i);
    for l := k + 1 to m
      invariant Busy(states[l], i) && states[l].threads[i].since == |states[k].log|
      invariant states[k].events <= states[l].events
    {
      assert NextAt(states, l);
      StepKeeps(states[l], states[l + 1], i);
    }
    RunInv(states, n, k);
    RunInv(states, n, m);
    assert ThreadAt(states[m], i);
    forall e | 0 <= e < |states[k].events|
      ensures states[k].events[e].at < |states[k].log|
    {
      assert EventAt(states[k], e);
    }
  }

  ghost function Gets(log: seq<Call>, n: nat): nat
    requires n <= |log|
  {
    if n == 0 then 0 else Gets(log, n - 1) + if log[n - 1].op.GetOp? then 1 else 0
  }

  lemma {:induction false} ModelCounts(log: seq<Call>, n: nat)
    requires n <= |log|
    ensures Model(log, n).hits + Model(log, n).misses == Gets(log, n)
  {
    if n > 0 { ModelCounts(log, n - 1); }
  }

  /** Counters: hits and misses together are the GETs ordered so far, less those still to be
      counted; so when no GET is under way they add up exactly. */
  lemma {:induction false} CountersAddUp(states: seq<State>, n: nat, k: nat)
    requires Run(states, n) && k < |states|
    ensures var s := states[k];
            s.db.hits + s.db.misses + Count(Debts(s.threads), OneHit) + Count(Debts(s.threads), OneMiss) ==
            Gets(s.log, |s.log|)
  {
    RunInv(states, n, k);
    ModelCounts(states[k].log, |states[k].log|);
  }
}
