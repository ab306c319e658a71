/** The key-value store of Project2/Proj02-starter/hash.c as a timed map with counters. */
module KvModel {
  import opened Counting

  /** A C `char`: signed, and never the terminating NUL inside a string. */
  newtype CChar = x: int | -128 <= x < 128 && x != 0 witness 1

  type Text = seq<CChar>

  const MAX_KEY_LEN: nat := 256
  const MAX_VAL_LEN: nat := 256

  datatype Cell = Cell(value: Text, expires: nat)

  datatype Option<+T> = None | Some(value: T)

  datatype Db = Db(cells: map<Text, Cell>, keys: int, hits: int, misses: int, puts: int, dels: int)

  ghost function Empty(): Db {
    Db(map[], 0, 0, 0, 0, 0)
  }

  /** What `strncpy` into a value field keeps. */
  function Clip(val: Text): Text {
    if |val| <= MAX_VAL_LEN then val else val[..MAX_VAL_LEN]
  }

  /** The expiry of an entry written at `now`; 0 means never. */
  function Expiry(ttl: int, now: nat): nat {
    if ttl > 0 then now + ttl else 0
  }

  ghost function Put(db: Db, key: Text, val: Text, ttl: int, now: nat): Db {
    db.(cells := db.cells[key := Cell(Clip(val), Expiry(ttl, now))],
        keys := if key in db.cells then db.keys else db.keys + 1,
        puts := db.puts + 1)
  }

  ghost predicate Expired(cell: Cell, now: nat) {
    cell.expires != 0 && now >= cell.expires
  }

  /** What a GET at `now` finds. */
  ghost function Find(cells: map<Text, Cell>, key: Text, now: nat): Option<Text> {
    if key in cells && !Expired(cells[key], now) then Some(cells[key].value) else None
  }

  ghost function Get(db: Db, key: Text, now: nat): Db {
    if Find(db.cells, key, now).Some? then db.(hits := db.hits + 1) else db.(misses := db.misses + 1)
  }

  ghost function Del(db: Db, key: Text): Db {
    if key in db.cells then db.(cells := db.cells - {key}, keys := db.keys - 1, dels := db.dels + 1) else db
  }

  /** What one pass of the sweeper removes: a strictly later clock than the expiry. */
  ghost predicate Stale(cell: Cell, now: nat) {
    cell.expires != 0 && cell.expires < now
  }

  ghost function Swept(cells: map<Text, Cell>, now: nat): map<Text, Cell> {
    map k | k in cells && !Stale(cells[k], now) :: cells[k]
  }

  ghost function Sweep(db: Db, now: nat): Db {
    db.(cells := Swept(db.cells, now), keys := db.keys - (|db.cells| - |Swept(db.cells, now)|))
  }

  datatype Op =
    | PutOp(key: Text, val: Text, ttl: int)
    | GetOp(key: Text)
    | DelOp(key: Text)
    | SweepOp

  datatype Answer = Done | NotFound | Value(text: Text)

  ghost function Apply(db: Db, op: Op, now: nat): Db {
    match op
    case PutOp(key, val, ttl) => Put(db, key, val, ttl, now)
    case GetOp(key) => Get(db, key, now)
    case DelOp(key) => Del(db, key)
    case SweepOp => Sweep(db, now)
  }

  ghost function Reply(db: Db, op: Op, now: nat): Answer {
    match op
    case PutOp(_, _, _) => Done
    case GetOp(key) =>
      var found := Find(db.cells, key, now);
      if found.Some? then Value(found.value) else NotFound
    case DelOp(key) => if key in db.cells then Done else NotFound
    case SweepOp => Done
  }

  /** An operation with the clock it read. */
  datatype Call = Call(op: Op, now: nat)

  ghost predicate Ordered(calls: seq<Call>) {
    forall i, j :: 0 <= i < j < |calls| ==> calls[i].now <= calls[j].now
  }

  /** The store after the first `n` calls. */
  ghost function After(db: Db, calls: seq<Call>, n: nat): Db
    requires n <= |calls|
  {
    if n == 0 then db else Apply(After(db, calls, n - 1), calls[n - 1].op, calls[n - 1].now)
  }

  /** `keys` is the number of entries. */
  ghost predicate Sound(db: Db) {
    db.keys == |db.cells|
  }

  lemma {:induction false} PutCard(cells: map<Text, Cell>, key: Text, cell: Cell)
    ensures |cells[key := cell]| == if key in cells then |cells| else |cells| + 1
  {
    var c := cells[key := cell];
    assert c.Keys == cells.Keys + {key};
    assert |c| == |c.Keys| && |cells| == |cells.Keys|;
  }

  lemma {:induction false} DelCard(cells: map<Text, Cell>, key: Text)
    ensures |cells - {key}| == if key in cells then |cells| - 1 else |cells|
  {
    var c := cells - {key};
    assert c.Keys == cells.Keys - {key};
    assert |c| == |c.Keys| && |cells| == |cells.Keys|;
  }

  lemma {:induction false} ApplySound(db: Db, op: Op, now: nat)
    requires Sound(db)
    ensures Sound(Apply(db, op, now))
  {
    match op
    case PutOp(key, val, ttl) => PutCard(db.cells, key, Cell(Clip(val), Expiry(ttl, now)));
    case DelOp(key) => DelCard(db.cells, key);
    case _ =>
  }

  lemma {:induction false} AfterSound(db: Db, calls: seq<Call>, n: nat)
    requires Sound(db) && n <= |calls|
    ensures Sound(After(db, calls, n))
  {
    for i := 0 to n
      invariant Sound(After(db, calls, i))
    {
      ApplySound(After(db, calls, i), calls[i].op, calls[i].now);
    }
  }

  /** The write that decides what `key` holds after `n` calls: its last PUT, unless a DEL came
      after it; without either, what it held at the start.  Sweeps play no part. */
  ghost function LastWrite(db: Db, calls: seq<Call>, key: Text, n: nat): Option<Cell>
    requires n <= |calls|
  {
    if n == 0 then (if key in db.cells then Some(db.cells[key]) else None)
    else match calls[n - 1].op
      case PutOp(k, val, ttl) =>
        if k == key then Some(Cell(Clip(val), Expiry(ttl, calls[n - 1].now))) else LastWrite(db, calls, key, n - 1)
      case DelOp(k) => if k == key then None else LastWrite(db, calls, key, n - 1)
      case _ => LastWrite(db, calls, key, n - 1)
  }

  /** An entry is missing only if it was never written, was deleted, or has been expired since
      before `now`. */
  ghost predicate Tracks(cells: map<Text, Cell>, key: Text, write: Option<Cell>, now: nat) {
    match write
    case None => key !in cells
    case Some(cell) => if key in cells then cells[key] == cell else Stale(cell, now)
  }

  ghost function ClockAt(calls: seq<Call>, n: nat): nat
    requires n <= |calls|
  {
    if n == 0 then 0 else calls[n - 1].now
  }

  lemma {:induction false} TracksCall(cells: map<Text, Cell>, cells': map<Text, Cell>, db: Db, key: Text,
                                      write: Option<Cell>, t: nat, call: Call)
    requires db.cells == cells && Tracks(cells, key, write, t) && t <= call.now
    requires cells' == Apply(db, call.op, call.now).cells
    ensures Tracks(cells', key, match call.op
                                case PutOp(k, val, ttl) =>
                                  if k == key then Some(Cell(Clip(val), Expiry(ttl, call.now))) else write
                                case DelOp(k) => if k == key then None else write
                                case _ => write, call.now)
  {
  }

  lemma {:induction false} TracksAlways(db: Db, calls: seq<Call>, key: Text, n: nat)
    requires Ordered(calls) && n <= |calls|
    ensures Tracks(After(db, calls, n).cells, key, LastWrite(db, calls, key, n), ClockAt(calls, n))
  {
    if n > 0 {
      TracksAlways(db, calls, key, n - 1);
      var a, a' := After(db, calls, n - 1), After(db, calls, n);
      TracksCall(a.cells, a'.cells, a, key, LastWrite(db, calls, key, n - 1), ClockAt(calls, n - 1), calls[n - 1]);
    }
  }

  /** What GET means: it answers with the value of the last PUT of its key, if no DEL followed and
      the time to live has not run out, however often and whenever the sweeper ran. */
  lemma {:induction false} GetIsLastPut(db: Db, calls: seq<Call>, key: Text, n: nat, now: nat)
    requires Ordered(calls) && n <= |calls| && ClockAt(calls, n) <= now
    ensures Find(After(db, calls, n).cells, key, now) ==
            match LastWrite(db, calls, key, n)
            case None => None
            case Some(cell) => if Expired(cell, now) then None else Some(cell.value)
  {
    TracksAlways(db, calls, key, n);
  }

  ghost predicate Writes(call: Call, key: Text) {
    (call.op.PutOp? || call.op.DelOp?) && call.op.key == key
  }

  ghost predicate SweptAt(db: Db, calls: seq<Call>, key: Text, n: nat, s: nat)
    requires n <= |calls|
  {
    && s < n && calls[s].op.SweepOp? && (forall j :: s < j < n ==> !Writes(calls[j], key))
    && var write := LastWrite(db, calls, key, n);
       write.Some? && Stale(write.value, calls[s].now)
  }

  /** Since the last write of `key` a sweep has come at a clock past the expiry of what it wrote. */
  ghost predicate SweptSince(db: Db, calls: seq<Call>, key: Text, n: nat)
    requires n <= |calls|
  {
    exists s: nat :: SweptAt(db, calls, key, n, s)
  }

  lemma {:induction false} SweptSinceStep(db: Db, calls: seq<Call>, key: Text, n: nat)
    requires 0 < n <= |calls|
    ensures var write := LastWrite(db, calls, key, n);
            SweptSince(db, calls, key, n) <==>
            || (calls[n - 1].op.SweepOp? && write.Some? && Stale(write.value, calls[n - 1].now))
            || (!Writes(calls[n - 1], key) && SweptSince(db, calls, key, n - 1))
  {
    if calls[n - 1].op.SweepOp? && LastWrite(db, calls, key, n).Some? &&
       Stale(LastWrite(db, calls, key, n).value, calls[n - 1].now) {
      assert SweptAt(db, calls, key, n, n - 1);
    } else if s: nat :| SweptAt(db, calls, key, n, s) {
      assert SweptAt(db, calls, key, n - 1, s);
    } else if !Writes(calls[n - 1], key) {
      var m := n - 1;
      if s: nat :| SweptAt(db, calls, key, m, s) {
        assert SweptAt(db, calls, key, n, s);
      }
    }
  }

  /** The table has a key exactly when its last write was not a DEL and no sweep has taken it. */
  lemma {:induction false} PresentIff(db: Db, calls: seq<Call>, key: Text, n: nat)
    requires n <= |calls|
    ensures var cells, write := After(db, calls, n).cells, LastWrite(db, calls, key, n);
            && (key in cells <==> write.Some? && !SweptSince(db, calls, key, n))
            && (key in cells ==> write == Some(cells[key]))
  {
    if n > 0 {
      PresentIff(db, calls, key, n - 1);
      SweptSinceStep(db, calls, key, n);
    }
  }

  /** Call `s` is a PUT of `key`, and until call `n` nothing else has written that key. */
  ghost predicate LastPut(calls: seq<Call>, n: nat, key: Text, s: nat) {
    && s < n <= |calls| && calls[s].op.PutOp? && calls[s].op.key == key
    && forall j :: s < j < n ==> !Writes(calls[j], key)
  }

  lemma {:induction false} LastWriteIsPut(db: Db, calls: seq<Call>, n: nat, key: Text, s: nat)
    requires LastPut(calls, n, key, s)
    ensures LastWrite(db, calls, key, n) == Some(Cell(Clip(calls[s].op.val), Expiry(calls[s].op.ttl, calls[s].now)))
  {
    if s < n - 1 { LastWriteIsPut(db, calls, n - 1, key, s); }
  }

  lemma {:induction false} LastWriteWithoutPut(calls: seq<Call>, n: nat, key: Text)
    requires n <= |calls| && forall s: nat :: !LastPut(calls, n, key, s)
    ensures LastWrite(Empty(), calls, key, n) == None
  {
    if n > 0 {
      var m := n - 1;
      if !Writes(calls[m], key) {
        forall s: nat
          ensures !LastPut(calls, m, key, s)
        {
          assert !LastPut(calls, n, key, s);
        }
        LastWriteWithoutPut(calls, m, key);
      } else {
        assert !LastPut(calls, n, key, m);
      }
    }
  }

  /** A GET after a PUT, in clocks: without a time to live the value, cut to 256 characters, is
      answered at every later clock; with one it is answered until that many seconds have passed.
      Sweeps make no difference. */
  lemma {:induction false} GetAfterPut(db: Db, calls: seq<Call>, n: nat, key: Text, s: nat, now: nat)
    requires Ordered(calls) && LastPut(calls, n, key, s) && calls[n - 1].now <= now
    ensures var put := calls[s].op;
            Reply(After(db, calls, n), GetOp(key), now) ==
            if put.ttl <= 0 || now < calls[s].now + put.ttl
            then Value(if |put.val| <= 256 then put.val else put.val[..256])
            else NotFound
  {
    GetIsLastPut(db, calls, key, n, now);
    LastWriteIsPut(db, calls, n, key, s);
  }

  /** Without a PUT that nothing has replaced or deleted there is nothing to find. */
  lemma {:induction false} GetWithoutPut(calls: seq<Call>, n: nat, key: Text, now: nat)
    requires n <= |calls| && forall s: nat :: !LastPut(calls, n, key, s)
    ensures Reply(After(Empty(), calls, n), GetOp(key), now) == NotFound
    ensures Reply(After(Empty(), calls, n), DelOp(key), now) == NotFound
  {
    LastWriteWithoutPut(calls, n, key);
    PresentIff(Empty(), calls, key, n);
  }

  /** No sweep between calls `s` and `n` came after the last second of the PUT at `s`. */
  ghost predicate Spared(calls: seq<Call>, n: nat, s: nat)
    requires s < n <= |calls| && calls[s].op.PutOp?
  {
    calls[s].op.ttl <= 0 ||
    forall j :: s < j < n && calls[j].op.SweepOp? ==> calls[j].now <= calls[s].now + calls[s].op.ttl
  }

  /** An entry is in the table, and DEL finds it, exactly as long as no sweep has come after its
      last second. */
  lemma {:induction false} DelAfterPut(db: Db, calls: seq<Call>, n: nat, key: Text, s: nat, now: nat)
    requires LastPut(calls, n, key, s)
    ensures key in After(db, calls, n).cells <==> Spared(calls, n, s)
    ensures Reply(After(db, calls, n), DelOp(key), now) == if Spared(calls, n, s) then Done else NotFound
  {
    PresentIff(db, calls, key, n);
    LastWriteIsPut(db, calls, n, key, s);
    if SweptSince(db, calls, key, n) {
      var j: nat :| SweptAt(db, calls, key, n, j);
      assert j > s;
    }
    if !Spared(calls, n, s) {
      var j :| s < j < n && calls[j].op.SweepOp? && calls[j].now > calls[s].now + calls[s].op.ttl;
      assert SweptAt(db, calls, key, n, j);
    }
  }

  /** `found` is what the last PUT of `key` has left by `now`. */
  ghost predicate GetsLast(calls: seq<Call>, key: Text, now: nat, found: Option<Text>) {
    && (forall s: nat :: LastPut(calls, |calls|, key, s) ==>
          var put := calls[s].op;
          found == if put.ttl <= 0 || now < calls[s].now + put.ttl
                   then Some(if |put.val| <= 256 then put.val else put.val[..256]) else None)
    && ((forall s: nat :: !LastPut(calls, |calls|, key, s)) ==> found == None)
  }

  lemma {:induction false} FindIsLast(calls: seq<Call>, key: Text, now: nat)
    requires Ordered(calls + [Call(GetOp(key), now)])
    ensures GetsLast(calls, key, now, Find(After(Empty(), calls, |calls|).cells, key, now))
  {
    var longer := calls + [Call(GetOp(key), now)];
    forall i, j | 0 <= i < j < |calls|
      ensures calls[i].now <= calls[j].now
    {
      assert longer[i] == calls[i] && longer[j] == calls[j];
    }
    forall s: nat | LastPut(calls, |calls|, key, s)
      ensures calls[|calls| - 1].now <= now
      ensures Reply(After(Empty(), calls, |calls|), GetOp(key), now) ==
              var put := calls[s].op;
              if put.ttl <= 0 || now < calls[s].now + put.ttl
              then Value(if |put.val| <= 256 then put.val else put.val[..256]) else NotFound
    {
      assert longer[|calls| - 1].now <= longer[|calls|].now;
      GetAfterPut(Empty(), calls, |calls|, key, s, now);
    }
    if forall s: nat :: !LastPut(calls, |calls|, key, s) { GetWithoutPut(calls, |calls|, key, now); }
  }

  lemma {:induction false} PresentIsSpared(calls: seq<Call>, key: Text)
    ensures key in After(Empty(), calls, |calls|).cells <==>
            exists s: nat :: LastPut(calls, |calls|, key, s) && Spared(calls, |calls|, s)
  {
    if s: nat :| LastPut(calls, |calls|, key, s) {
      DelAfterPut(Empty(), calls, |calls|, key, s, 0);
      forall r: nat | LastPut(calls, |calls|, key, r)
        ensures r == s
      {
        OneLastPut(calls, key, r, s);
      }
    } else {
      GetWithoutPut(calls, |calls|, key, 0);
    }
  }

  lemma {:induction false} OneLastPut(calls: seq<Call>, key: Text, r: nat, s: nat)
    requires LastPut(calls, |calls|, key, r) && LastPut(calls, |calls|, key, s)
    ensures r == s
  {
    assert Writes(calls[r], key) && Writes(calls[s], key);
  }

  /** What a call adds to the counters, by its answer. */
  datatype Effect = GetHit | GetMiss | PutDone | DelDone | NoCount

  ghost function EffectOf(db: Db, call: Call): Effect {
    match call.op
    case PutOp(_, _, _) => PutDone
    case GetOp(_) => if Reply(db, call.op, call.now) == NotFound then GetMiss else GetHit
    case DelOp(_) => if Reply(db, call.op, call.now) == NotFound then NoCount else DelDone
    case SweepOp => NoCount
  }

  ghost function Effects(db: Db, calls: seq<Call>, n: nat): seq<Effect>
    requires n <= |calls|
  {
    if n == 0 then [] else Effects(db, calls, n - 1) + [EffectOf(After(db, calls, n - 1), calls[n - 1])]
  }

  lemma {:induction false} EffectCounts(db: Db, call: Call)
    ensures var after, e := Apply(db, call.op, call.now), EffectOf(db, call);
            && after.hits == db.hits + (if e == GetHit then 1 else 0)
            && after.misses == db.misses + (if e == GetMiss then 1 else 0)
            && after.puts == db.puts + (if e == PutDone then 1 else 0)
            && after.dels == db.dels + (if e == DelDone then 1 else 0)
  {
  }

  /** The counters count the calls: GETs answered with a value and without, PUTs, and DELs that
      found their key. */
  lemma {:induction false} Tallies(db: Db, calls: seq<Call>, n: nat)
    requires n <= |calls|
    ensures var after, es := After(db, calls, n), Effects(db, calls, n);
            && after.hits == db.hits + Count(es, GetHit) && after.misses == db.misses + Count(es, GetMiss)
            && after.puts == db.puts + Count(es, PutDone) && after.dels == db.dels + Count(es, DelDone)
  {
    if n > 0 {
      Tallies(db, calls, n - 1);
      EffectCounts(After(db, calls, n - 1), calls[n - 1]);
      CountSnoc(Effects(db, calls, n - 1), EffectOf(After(db, calls, n - 1), calls[n - 1]));
    }
  }

  /** The same calls without the sweeps. */
  ghost function Unswept(calls: seq<Call>, n: nat): seq<Call>
    requires n <= |calls|
  {
    if n == 0 then []
    else if calls[n - 1].op.SweepOp? then Unswept(calls, n - 1)
    else Unswept(calls, n - 1) + [calls[n - 1]]
  }

  /** The store after the same calls without the sweeps. */
  ghost function UnsweptAfter(db: Db, calls: seq<Call>, n: nat): Db
    requires n <= |calls|
  {
    After(db, Unswept(calls, n), |Unswept(calls, n)|)
  }

  lemma {:induction false} UnsweptStep(db: Db, calls: seq<Call>, n: nat)
    requires n < |calls|
    ensures var call := calls[n];
            UnsweptAfter(db, calls, n + 1) ==
            if call.op.SweepOp? then UnsweptAfter(db, calls, n)
            else Apply(UnsweptAfter(db, calls, n), call.op, call.now)
  {
    AfterSnoc(db, Unswept(calls, n), calls[n]);
  }

  /** Without sweeps the table has what was last written. */
  lemma {:induction false} UnsweptPresentIff(db: Db, calls: seq<Call>, key: Text, n: nat)
    requires n <= |calls|
    ensures key in UnsweptAfter(db, calls, n).cells <==> LastWrite(db, calls, key, n).Some?
  {
    if n > 0 {
      UnsweptPresentIff(db, calls, key, n - 1);
      UnsweptStep(db, calls, n - 1);
    }
  }

  /** The swept store `a` against the unswept `b` at clock `t`: `b` has everything `a` has, and
      otherwise only entries that are stale; the counters a GET or PUT moves are the same. */
  ghost predicate Hidden(a: Db, b: Db, t: nat) {
    && Sound(a) && Sound(b)
    && HiddenCells(a.cells, b.cells, t)
    && a.hits == b.hits && a.misses == b.misses && a.puts == b.puts && a.dels <= b.dels
  }

  ghost predicate HiddenCells(a: map<Text, Cell>, b: map<Text, Cell>, t: nat) {
    && (forall k :: k in a ==> k in b && b[k] == a[k])
    && (forall k :: k in b && k !in a ==> Stale(b[k], t))
  }

  lemma {:induction false} HiddenFewer(a: Db, b: Db, t: nat)
    requires Hidden(a, b, t)
    ensures a.keys <= b.keys
  {
    assert b.cells.Keys == a.cells.Keys + (b.cells.Keys - a.cells.Keys);
    assert |a.cells| == |a.cells.Keys| && |b.cells| == |b.cells.Keys|;
  }

  lemma {:induction false} HiddenSweep(a: Db, b: Db, t: nat, now: nat)
    requires Hidden(a, b, t) && t <= now
    ensures Hidden(Sweep(a, now), b, now)
  {
  }

  lemma {:induction false} HiddenGet(a: Db, b: Db, t: nat, key: Text, now: nat)
    requires Hidden(a, b, t) && t <= now
    ensures Hidden(Get(a, key, now), Get(b, key, now), now)
    ensures Find(a.cells, key, now) == Find(b.cells, key, now)
  {
  }

  lemma {:induction false} HiddenPut(a: Db, b: Db, t: nat, key: Text, val: Text, ttl: int, now: nat)
    requires Hidden(a, b, t) && t <= now
    ensures Hidden(Put(a, key, val, ttl, now), Put(b, key, val, ttl, now), now)
  {
    PutCard(a.cells, key, Cell(Clip(val), Expiry(ttl, now)));
    PutCard(b.cells, key, Cell(Clip(val), Expiry(ttl, now)));
  }

  lemma {:induction false} HiddenDelCells(a: map<Text, Cell>, b: map<Text, Cell>, t: nat, key: Text, now: nat)
    requires HiddenCells(a, b, t) && t <= now
    ensures HiddenCells(a - {key}, b - {key}, now)
  {
  }

  lemma {:induction false} DelCells(db: Db, key: Text)
    requires Sound(db)
    ensures Del(db, key).cells == db.cells - {key} && Sound(Del(db, key))
  {
    DelCard(db.cells, key);
  }

  lemma {:induction false} HiddenDel(a: Db, b: Db, t: nat, key: Text, now: nat)
    requires Hidden(a, b, t) && t <= now
    ensures Hidden(Del(a, key), Del(b, key), now)
  {
    HiddenDelCells(a.cells, b.cells, t, key, now);
    DelCells(a, key);
    DelCells(b, key);
  }

  /** One call, on the swept store and, unless it is a sweep, on the unswept one. */
  lemma {:induction false} HiddenCall(a: Db, b: Db, t: nat, call: Call)
    requires Hidden(a, b, t) && t <= call.now
    ensures Hidden(Apply(a, call.op, call.now), if call.op.SweepOp? then b else Apply(b, call.op, call.now), call.now)
  {
    match call.op
    case PutOp(key, val, ttl) => HiddenPut(a, b, t, key, val, ttl, call.now);
    case GetOp(key) => HiddenGet(a, b, t, key, call.now);
    case DelOp(key) => HiddenDel(a, b, t, key, call.now);
    case SweepOp => HiddenSweep(a, b, t, call.now);
  }

  ghost predicate HiddenAt(db: Db, calls: seq<Call>, n: nat)
    requires n <= |calls|
  {
    Hidden(After(db, calls, n), UnsweptAfter(db, calls, n), ClockAt(calls, n))
  }

  lemma {:induction false} HiddenAtStart(db: Db, calls: seq<Call>)
    requires Sound(db)
    ensures HiddenAt(db, calls, 0)
  {
  }

  lemma {:induction false} HiddenAtNext(db: Db, calls: seq<Call>, n: nat)
    requires n < |calls| && HiddenAt(db, calls, n) && Ordered(calls)
    ensures HiddenAt(db, calls, n + 1)
  {
    UnsweptStep(db, calls, n);
    HiddenCall(After(db, calls, n), UnsweptAfter(db, calls, n), ClockAt(calls, n), calls[n]);
  }

  lemma {:induction false} AlwaysHidden(db: Db, calls: seq<Call>, n: nat)
    requires Sound(db) && Ordered(calls) && n <= |calls|
    ensures HiddenAt(db, calls, n)
  {
    if n == 0 {
      HiddenAtStart(db, calls);
    } else {
      AlwaysHidden(db, calls, n - 1);
      HiddenAtNext(db, calls, n - 1);
    }
  }

  /** Sweeping is invisible: with a clock that never goes back, inserting sweeps anywhere changes
      no answer of a GET, and neither hits, misses nor puts; `keys` and `dels` can only be lower.
      A DEL answers differently if and only if, since the last write of its key, a sweep came at a
      clock past the expiry. */
  lemma {:induction false} SweepIsInvisible(db: Db, calls: seq<Call>, n: nat)
    requires Sound(db) && Ordered(calls) && n <= |calls|
    ensures HiddenAt(db, calls, n)
    ensures var a, b := After(db, calls, n), UnsweptAfter(db, calls, n);
            && a.hits == b.hits && a.misses == b.misses && a.puts == b.puts
            && a.keys <= b.keys && a.dels <= b.dels
    ensures n < |calls| && (calls[n].op.GetOp? || calls[n].op.PutOp?) ==>
              Reply(After(db, calls, n), calls[n].op, calls[n].now) ==
              Reply(UnsweptAfter(db, calls, n), calls[n].op, calls[n].now)
    ensures n < |calls| && calls[n].op.DelOp? ==>
              (Reply(After(db, calls, n), calls[n].op, calls[n].now) !=
               Reply(UnsweptAfter(db, calls, n), calls[n].op, calls[n].now) <==>
               SweptSince(db, calls, calls[n].op.key, n))
  {
    var a, b := After(db, calls, n), UnsweptAfter(db, calls, n);
    AlwaysHidden(db, calls, n);
    HiddenFewer(a, b, ClockAt(calls, n));
    if n < |calls| {
      match calls[n].op
      case GetOp(key) => HiddenGet(a, b, ClockAt(calls, n), key, calls[n].now);
      case DelOp(key) =>
        PresentIff(db, calls, key, n);
        UnsweptPresentIff(db, calls, key, n);
      case _ =>
    }
  }

  lemma {:induction false} AfterPrefix(db: Db, calls: seq<Call>, call: Call, n: nat)
    requires n <= |calls|
    ensures After(db, calls + [call], n) == After(db, calls, n)
  {
    if n > 0 { AfterPrefix(db, calls, call, n - 1); }
  }

  lemma {:induction false} AfterSnoc(db: Db, calls: seq<Call>, call: Call)
    ensures After(db, calls + [call], |calls| + 1) == Apply(After(db, calls, |calls|), call.op, call.now)
  {
    AfterPrefix(db, calls, call, |calls|);
    assert (calls + [call])[|calls|] == call;
  }

  /** Such a DEL exists: a PUT that has expired is found by DEL, unless a sweep came first. */
  lemma {:induction false} DelSeesSweeps(key: Text, val: Text)
    ensures var put := Call(PutOp(key, val, 1), 1);
            && Reply(After(Empty(), [put], 1), DelOp(key), 3) == Done
            && Reply(After(Empty(), [put, Call(SweepOp, 3)], 2), DelOp(key), 3) == NotFound
  {
    var put := Call(PutOp(key, val, 1), 1);
    AfterSnoc(Empty(), [], put);
    AfterSnoc(Empty(), [put], Call(SweepOp, 3));
    assert [] + [put] == [put] && [put] + [Call(SweepOp, 3)] == [put, Call(SweepOp, 3)];
  }
}
