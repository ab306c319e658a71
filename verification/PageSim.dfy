/** The three simulators of Lab7/pagesim.c over their frame arrays.  Each also returns the steps it
    prints, so that the contracts speak of the frames after every reference. */
module PageSim {
  import opened PageModel
  import opened Sets
  import B = Belady
  import L = LruModel
  import F = FifoModel
  import Ph = Phases
  import Ring
  import opened Filling

  const MAX_FRAMES: nat := 100
  const INFINITY: nat := 1000000

  /** What one call of `print_step` shows. */
  datatype Step = Step(page: int, frames: seq<int>, fault: bool)

  ghost function Pages(fs: seq<int>): set<int> {
    set j | 0 <= j < |fs| && fs[j] != EMPTY :: fs[j]
  }

  ghost predicate NoRepeat(fs: seq<int>) {
    forall i, j :: 0 <= i < j < |fs| && fs[i] != EMPTY ==> fs[i] != fs[j]
  }

  /** Step `i` of a run over `refs` shows its page and `n` frames without a repeated page, and
      reports a fault exactly when the page was not held before. */
  ghost predicate Shows(refs: seq<int>, n: nat, i: nat, before: set<int>, step: Step)
    requires i < |refs|
  {
    && step.page == refs[i]
    && |step.frames| == n && NoRepeat(step.frames)
    && (step.fault <==> refs[i] !in before)
  }

  ghost predicate LoadedAt(before: seq<int>, j: nat, page: int, after: seq<int>) {
    j < |before| && after == before[j := page]
  }

  /** What any of the simulators does to its frames on one reference, whatever the page. */
  ghost predicate Stepped(before: seq<int>, page: int, after: seq<int>, fault: bool) {
    && |after| == |before| && (fault <==> page !in before)
    && if fault then exists j: nat :: LoadedAt(before, j, page, after) else after == before
  }

  ghost function FramesBefore(n: nat, shown: seq<Step>, i: nat): seq<int>
    requires i <= |shown|
  {
    if i == 0 then seq(n, _ => -1) else shown[i - 1].frames
  }

  ghost predicate ReplayedAt(refs: seq<int>, n: nat, shown: seq<Step>, i: nat)
    requires i < |shown| <= |refs|
  {
    shown[i].page == refs[i] && Stepped(FramesBefore(n, shown, i), refs[i], shown[i].frames, shown[i].fault)
  }

  /** The pages that the first `i` steps loaded, in order. */
  ghost function Loaded(shown: seq<Step>, i: nat): seq<int>
    requires i <= |shown|
  {
    if i == 0 then []
    else Loaded(shown, i - 1) + if shown[i - 1].fault then [shown[i - 1].page] else []
  }

  lemma {:induction false} LoadedPrefix(shown: seq<Step>, step: Step, i: nat)
    requires i <= |shown|
    ensures Loaded(shown + [step], i) == Loaded(shown, i)
  {
    if i > 0 { LoadedPrefix(shown, step, i - 1); }
  }

  lemma {:induction false} LoadedStep(shown: seq<Step>, step: Step)
    ensures Loaded(shown + [step], |shown| + 1) ==
            Loaded(shown, |shown|) + if step.fault then [step.page] else []
  {
    LoadedPrefix(shown, step, |shown|);
  }

  /** The run over any string at all, even one with the mark of an empty frame as a page: starting
      from empty frames a reference faults exactly when no frame shows its page, and then one frame
      changes. */
  ghost predicate Replays(refs: seq<int>, n: nat, shown: seq<Step>, faults: nat) {
    && |shown| <= |refs| && faults == |Loaded(shown, |shown|)|
    && forall i :: 0 <= i < |shown| ==> ReplayedAt(refs, n, shown, i)
  }

  lemma {:induction false} ReplayStep(refs: seq<int>, n: nat, shown: seq<Step>, faults: nat, step: Step)
    requires Replays(refs, n, shown, faults) && |shown| < |refs| && step.page == refs[|shown|]
    requires Stepped(FramesBefore(n, shown, |shown|), step.page, step.frames, step.fault)
    ensures Replays(refs, n, shown + [step], if step.fault then faults + 1 else faults)
  {
    var longer := shown + [step];
    LoadedStep(shown, step);
    forall i | 0 <= i < |longer|
      ensures ReplayedAt(refs, n, longer, i)
    {
      assert FramesBefore(n, longer, i) == FramesBefore(n, shown, i);
      if i < |shown| { assert ReplayedAt(refs, n, shown, i); }
    }
  }

  ghost predicate FilledAt(shown: seq<Step>, n: nat, first: nat, i: nat)
    requires i < |shown|
  {
    |Loaded(shown, i + 1)| <= n ==> Filled(first, shown[i].frames, Loaded(shown, i + 1))
  }

  /** In every step, as long as no frame had to be reused: the first page loaded is in frame
      `first`, the next ones are in the frames that follow round the array, and the others are empty. */
  ghost predicate FillsUp(shown: seq<Step>, n: nat, first: nat) {
    forall i :: 0 <= i < |shown| ==> FilledAt(shown, n, first, i)
  }

  /** The same during a simulation, with the present frames. */
  ghost predicate FillingNow(shown: seq<Step>, n: nat, first: nat, fs: seq<int>) {
    && FillsUp(shown, n, first) && |fs| == n && first < n
    && -1 !in Loaded(shown, |shown|)
    && (|Loaded(shown, |shown|)| <= n ==> Filled(first, fs, Loaded(shown, |shown|)))
  }

  lemma {:induction false} FillingStart(n: nat, first: nat, fs: seq<int>)
    requires first < n == |fs| && forall j :: 0 <= j < n ==> fs[j] == -1
    ensures FillingNow([], n, first, fs)
  {
    forall k | 0 <= k < n
      ensures StandsAt(first, fs, [], k)
    {
    }
  }

  /** A page loaded into the next frame round the array keeps this up. */
  lemma {:induction false} FillingStep(shown: seq<Step>, n: nat, first: nat, fs: seq<int>, step: Step)
    requires FillingNow(shown, n, first, fs) && step.page != -1 && |step.frames| == n
    requires !step.fault ==> step.frames == fs
    requires var f := |Loaded(shown, |shown|)|;
             step.fault && f < n ==> step.frames == fs[Ring.Slot(first, n, f) := step.page]
    ensures FillingNow(shown + [step], n, first, step.frames)
  {
    var longer, ld := shown + [step], Loaded(shown, |shown|);
    LoadedStep(shown, step);
    if step.fault && |ld| < n { FillNext(first, fs, ld, step.page); }
    assert ld + [] == ld;
    forall i | 0 <= i < |longer|
      ensures FilledAt(longer, n, first, i)
    {
      if i < |shown| {
        LoadedPrefix(shown, step, i + 1);
        assert FilledAt(shown, n, first, i);
      }
    }
  }

  /** Loading a page into frame `j` replaces what the frame held and nothing else. */
  lemma {:induction false} PagesUpdate(fs: seq<int>, j: nat, x: int)
    requires j < |fs| && NoRepeat(fs) && x != EMPTY && x !in fs
    ensures NoRepeat(fs[j := x])
    ensures Pages(fs[j := x]) == Pages(fs) - {fs[j]} + {x}
  {
    var gs := fs[j := x];
    forall p | p in Pages(fs) - {fs[j]} + {x} ensures p in Pages(gs) {
      if p == x {
        assert gs[j] == x;
      } else {
        var k :| 0 <= k < |fs| && fs[k] == p;
        assert gs[k] == p;
      }
    }
  }

  lemma {:induction false} PagesCons(fs: seq<int>)
    requires fs != [] && NoRepeat(fs)
    ensures Pages(fs) == Pages(fs[1..]) + if fs[0] == EMPTY then {} else {fs[0]}
    ensures NoRepeat(fs[1..]) && fs[0] !in Pages(fs[1..])
  {
    forall p | p in Pages(fs[1..]) ensures p in Pages(fs) {
      var k :| 0 <= k < |fs| - 1 && fs[1..][k] == p;
      assert fs[k + 1] == p;
    }
    forall p | p in Pages(fs) && p != fs[0] ensures p in Pages(fs[1..]) {
      var k :| 0 <= k < |fs| && fs[k] == p;
      assert fs[1..][k - 1] == p;
    }
  }

  /** Frames are full exactly when as many pages are held as there are frames. */
  lemma {:induction false} PagesCard(fs: seq<int>)
    requires NoRepeat(fs)
    ensures |Pages(fs)| <= |fs|
    ensures |Pages(fs)| == |fs| <==> EMPTY !in fs
  {
    if fs == [] {
      assert Pages(fs) == {};
      return;
    }
    PagesCons(fs);
    PagesCard(fs[1..]);
    assert EMPTY in fs <==> fs[0] == EMPTY || EMPTY in fs[1..];
  }

  /** The hit test: the first frame holding `page`, or -1. */
  method FindPage(frames: array<int>, numFrames: nat, page: int) returns (hit: int)
    requires numFrames <= frames.Length
    ensures -1 <= hit < numFrames
    ensures hit >= 0 ==> frames[hit] == page && page !in frames[..hit]
    ensures hit == -1 <==> page !in frames[..numFrames]
  {
    hit := -1;
    for j := 0 to numFrames
      invariant hit == -1
      invariant page !in frames[..j]
    {
      if frames[j] == page {
        hit := j;
        assert frames[..numFrames][j] == page;
        break;
      }
    }
  }

  /** What stands at place `k` of the ring: the newest `n` loads, oldest first, after empty frames. */
  ghost function RingAt(ld: seq<int>, n: nat, k: int): int {
    if 0 <= |ld| - n + k < |ld| then ld[|ld| - n + k] else EMPTY
  }

  /** `next_replace` after `loads` loads. */
  ghost function NextSlot(loads: nat, n: nat): (k: nat)
    requires n > 0
    ensures k < n
  {
    if loads == 0 then 0 else Ring.After(NextSlot(loads - 1, n), n)
  }

  lemma {:induction false} NextSlotFirst(loads: nat, n: nat)
    requires n > 0
    ensures loads < n ==> NextSlot(loads, n) == loads
  {
    if 0 < loads < n { NextSlotFirst(loads - 1, n); }
  }

  ghost predicate FrameIs(ld: seq<int>, fs: seq<int>, next: nat, k: nat)
    requires next < |fs| && k < |fs|
  {
    fs[Ring.Slot(next, |fs|, k)] == RingAt(ld, |fs|, k)
  }

  /** Read round from `next_replace`, the frame array is the ring of the newest loads of `ld`. */
  ghost predicate FifoHolds(ld: seq<int>, n: nat, fs: seq<int>, next: nat) {
    && 0 < n == |fs| && next == NextSlot(|ld|, n)
    && forall k :: 0 <= k < n ==> FrameIs(ld, fs, next, k)
  }

  /** The page is among the newest loads; or it is the mark of an empty frame and there is one. */
  ghost predicate RingHit(ld: seq<int>, n: nat, page: int) {
    page in F.Window(ld, n) || (page == EMPTY && |ld| < n)
  }

  ghost function RingLoad(ld: seq<int>, n: nat, page: int): seq<int> {
    if RingHit(ld, n, page) then ld else ld + [page]
  }

  /** The pages the ring loads for the first `i` references. */
  ghost function RingLoads(refs: seq<int>, n: nat, i: nat): seq<int>
    requires i <= |refs|
  {
    if i == 0 then [] else RingLoad(RingLoads(refs, n, i - 1), n, refs[i - 1])
  }

  ghost predicate RingIs(refs: seq<int>, n: nat, i: nat)
    requires i <= |refs|
  {
    RingLoads(refs, n, i) == F.Loads(refs, n, i)
  }

  /** Page -1 comes up at `i` only when no frame is free any more. */
  ghost predicate MarkInTime(refs: seq<int>, n: nat, i: nat)
    requires i < |refs|
  {
    refs[i] == EMPTY ==> |Elements(refs[..i])| >= n
  }

  lemma {:induction false} RingStep(refs: seq<int>, n: nat, i: nat)
    requires i < |refs| && RingIs(refs, n, i) && MarkInTime(refs, n, i)
    ensures RingIs(refs, n, i + 1)
  {
    F.FreeUntil(refs, n, i);
  }

  lemma {:induction false} RingMisses(refs: seq<int>, n: nat, i: nat)
    requires i < |refs| && !MarkInTime(refs, n, i) && RingIs(refs, n, i)
    requires EMPTY !in refs[..i]
    ensures !RingIs(refs, n, i + 1)
  {
    F.FreeUntil(refs, n, i);
    var ld := F.Loads(refs, n, i);
    assert F.Window(ld, n) <= Elements(ld);
  }

  /** The ring is FIFO, at every step, exactly when page -1 comes up only after as many other pages
      as there are frames; in particular when it does not come up at all. */
  lemma {:induction false} RingIsFifo(refs: seq<int>, n: nat)
    ensures (forall i :: 0 <= i <= |refs| ==> RingIs(refs, n, i)) <==>
            (forall i :: 0 <= i < |refs| ==> MarkInTime(refs, n, i))
  {
    var i := 0;
    while i < |refs| && MarkInTime(refs, n, i)
      invariant i <= |refs| && forall k :: 0 <= k <= i ==> RingIs(refs, n, k)
      invariant forall k :: 0 <= k < i ==> MarkInTime(refs, n, k)
    {
      RingStep(refs, n, i);
      i := i + 1;
    }
    if i < |refs| {
      forall k | 0 <= k < i
        ensures refs[k] != EMPTY
      {
        assert MarkInTime(refs, n, k);
        assert refs[..i] == refs[..k] + refs[k..i];
        SubsetCard(Elements(refs[..k]), Elements(refs[..i]));
      }
      RingMisses(refs, n, i);
    }
  }

  /** What is shown for a reference to `page` after the loads `ld`. */
  ghost predicate FifoShows(ld: seq<int>, n: nat, page: int, step: Step)
    requires 0 < n
  {
    var ld' := RingLoad(ld, n, page);
    && step.page == page && NoRepeat(step.frames)
    && (step.fault <==> !RingHit(ld, n, page))
    && FifoHolds(ld', n, step.frames, NextSlot(|ld'|, n))
    && Pages(step.frames) == F.Window(ld', n) - {EMPTY}
  }

  ghost predicate FifoShowsAt(refs: seq<int>, n: nat, shown: seq<Step>, i: nat)
    requires 0 < n && i < |shown| <= |refs|
  {
    FifoShows(RingLoads(refs, n, i), n, refs[i], shown[i])
  }

  ghost predicate FifoRun(refs: seq<int>, n: nat, shown: seq<Step>) {
    0 < n && |shown| <= |refs| && forall i :: 0 <= i < |shown| ==> FifoShowsAt(refs, n, shown, i)
  }

  lemma {:induction false} FifoRunStep(refs: seq<int>, n: nat, shown: seq<Step>, step: Step)
    requires FifoRun(refs, n, shown) && |shown| < |refs|
    requires FifoShows(RingLoads(refs, n, |shown|), n, refs[|shown|], step)
    ensures FifoRun(refs, n, shown + [step])
  {
    var longer := shown + [step];
    forall i | 0 <= i < |longer|
      ensures FifoShowsAt(refs, n, longer, i)
    {
      if i < |shown| { assert FifoShowsAt(refs, n, shown, i); }
    }
  }

  lemma {:induction false} RingNoTwice(ld: seq<int>, n: nat, page: int)
    requires F.NoTwice(ld, n)
    ensures F.NoTwice(RingLoad(ld, n, page), n)
  {
    F.LoadNoTwice(ld, n, page);
  }

  /** One reference under FIFO. */
  method FifoReference(page: int, frames: array<int>, nextReplace: nat, numFrames: nat, ghost ld: seq<int>)
    returns (isFault: bool, nextReplace': nat)
    requires F.NoTwice(ld, numFrames)
    requires 1 <= numFrames <= frames.Length && FifoHolds(ld, numFrames, frames[..numFrames], nextReplace)
    modifies frames
    ensures Stepped(old(frames[..numFrames]), page, frames[..numFrames], isFault)
    ensures FifoHolds(RingLoad(ld, numFrames, page), numFrames, frames[..numFrames], nextReplace')
    ensures FifoShows(ld, numFrames, page, Step(page, frames[..numFrames], isFault))
    ensures isFault ==> frames[..numFrames] == old(frames[..numFrames])[nextReplace := page]
  {
    ghost var fs := frames[..numFrames];
    FifoFrames(ld, numFrames, fs, nextReplace);
    var hit := FindPage(frames, numFrames, page);
    isFault, nextReplace' := false, nextReplace;
    if hit == -1 {
      isFault := true;
      frames[nextReplace] := page;
      nextReplace' := (nextReplace + 1) % numFrames;
      Ring.Advance(nextReplace, numFrames);
      assert frames[..numFrames] == fs[nextReplace := page];
      assert LoadedAt(fs, nextReplace, page, frames[..numFrames]);
      FifoLoad(ld, numFrames, fs, nextReplace, page);
    }
    RingNoTwice(ld, numFrames, page);
    FifoFrames(RingLoad(ld, numFrames, page), numFrames, frames[..numFrames], nextReplace');
  }

  /** Everything the loop of FIFO keeps true. */
  ghost predicate FifoState(refs: seq<int>, n: nat, fs: seq<int>, next: nat, shown: seq<Step>, ld: seq<int>,
                            faults: nat)
  {
    && Replays(refs, n, shown, faults) && |fs| == n && fs == FramesBefore(n, shown, |shown|)
    && FifoRun(refs, n, shown) && FifoHolds(ld, n, fs, next) && F.NoTwice(ld, n)
    && ld == RingLoads(refs, n, |shown|) && faults == |ld|
    && (EMPTY !in refs ==> FillingNow(shown, n, 0, fs) && ld == Loaded(shown, |shown|))
  }

  lemma {:induction false} FifoAdvance(refs: seq<int>, n: nat, fs: seq<int>, next: nat, shown: seq<Step>, ld: seq<int>,
                                       faults: nat, step: Step, next': nat)
    requires |shown| < |refs| && FifoState(refs, n, fs, next, shown, ld, faults)
    requires step.page == refs[|shown|] && Stepped(fs, step.page, step.frames, step.fault)
    requires FifoHolds(RingLoad(ld, n, step.page), n, step.frames, next') && FifoShows(ld, n, step.page, step)
    requires step.fault ==> step.frames == fs[next := step.page]
    ensures FifoState(refs, n, step.frames, next', shown + [step], RingLoad(ld, n, step.page),
                      if step.fault then faults + 1 else faults)
  {
    ReplayStep(refs, n, shown, faults, step);
    FifoRunStep(refs, n, shown, step);
    RingNoTwice(ld, n, step.page);
    if EMPTY !in refs {
      NextSlotFirst(|ld|, n);
      FillingStep(shown, n, 0, fs, step);
      LoadedStep(shown, step);
    }
  }

  /** FIFO: the faults are the loads, and after every reference the frames hold the last
      `numFrames` of them in a ring. */
  method SimulateFifo(refs: seq<int>, numFrames: nat) returns (faults: nat, shown: seq<Step>)
    requires 1 <= numFrames <= 100
    ensures |shown| == |refs| && Replays(refs, numFrames, shown, faults)
    ensures EMPTY !in refs ==> FillsUp(shown, numFrames, 0)
    ensures FifoRun(refs, numFrames, shown) && faults == |RingLoads(refs, numFrames, |refs|)|
    ensures (forall i :: 0 <= i < |refs| ==> MarkInTime(refs, numFrames, i)) ==>
              faults == F.FifoFaults(refs, numFrames, |refs|)
  {
    var frames := new int[MAX_FRAMES];
    faults := 0;
    var nextReplace: nat := 0;
    for i := 0 to numFrames
      invariant forall j :: 0 <= j < i ==> frames[j] == EMPTY
    {
      frames[i] := EMPTY;
    }
    shown := [];
    assert FifoHolds([], numFrames, frames[..numFrames], 0);
    FillingStart(numFrames, 0, frames[..numFrames]);
    ghost var ld := [];
    for i := 0 to |refs|
      invariant |shown| == i && FifoState(refs, numFrames, frames[..numFrames], nextReplace, shown, ld, faults)
    {
      var isFault;
      ghost var fs := frames[..numFrames];
      ghost var next := nextReplace;
      isFault, nextReplace := FifoReference(refs[i], frames, nextReplace, numFrames, ld);
      var step := Step(refs[i], frames[..numFrames], isFault);
      FifoAdvance(refs, numFrames, fs, next, shown, ld, faults, step, nextReplace);
      if isFault {
        faults := faults + 1;
      }
      shown := shown + [step];
      ld := RingLoad(ld, numFrames, refs[i]);
    }
    RingIsFifo(refs, numFrames);
    assert (forall i :: 0 <= i < |refs| ==> MarkInTime(refs, numFrames, i)) ==> RingIs(refs, numFrames, |refs|);
  }

  /** Overwriting the frame at `next_replace` turns the ring by one place. */
  lemma {:induction false} FifoLoad(ld: seq<int>, n: nat, fs: seq<int>, next: nat, page: int)
    requires FifoHolds(ld, n, fs, next)
    ensures FifoHolds(ld + [page], n, fs[next := page], Ring.After(next, n))
  {
    var ld', fs', next' := ld + [page], fs[next := page], Ring.After(next, n);
    Ring.Turn(next, n);
    forall k | 0 <= k < n
      ensures FrameIs(ld', fs', next', k)
    {
      if k < n - 1 { assert FrameIs(ld, fs, next, k + 1); }
    }
  }

  /** Where frame `j` stands, counted round from `next`. */
  ghost function Turned(next: nat, n: nat, j: nat): (k: nat)
    requires next < n && j < n
    ensures k < n && Ring.Slot(next, n, k) == j
  {
    if j >= next then j - next else j + n - next
  }

  /** What the ring says about the frames themselves. */
  lemma {:induction false} FifoFrames(ld: seq<int>, n: nat, fs: seq<int>, next: nat)
    requires F.NoTwice(ld, n) && FifoHolds(ld, n, fs, next)
    ensures Pages(fs) == F.Window(ld, n) - {EMPTY} && NoRepeat(fs)
    ensures forall p :: p in fs <==> RingHit(ld, n, p)
  {
    forall p | p in fs ensures RingHit(ld, n, p) {
      var j :| 0 <= j < n && fs[j] == p;
      assert FrameIs(ld, fs, next, Turned(next, n, j));
      if |ld| - n + Turned(next, n, j) >= 0 { assert ld[|ld| - n + Turned(next, n, j)] == p; }
    }
    forall p | RingHit(ld, n, p) ensures p in fs {
      if p in F.Window(ld, n) {
        var i :| 0 <= i < |ld| && |ld| - n <= i && ld[i] == p;
        assert FrameIs(ld, fs, next, i - |ld| + n);
      } else {
        assert FrameIs(ld, fs, next, 0);
      }
    }
    OptHolds(fs);
    assert forall p :: p in F.Window(ld, n) - {EMPTY} ==> p in fs;
    forall i, j | 0 <= i < j < n && fs[i] != EMPTY
      ensures fs[i] != fs[j]
    {
      var a, b := |ld| - n + Turned(next, n, i), |ld| - n + Turned(next, n, j);
      assert FrameIs(ld, fs, next, Turned(next, n, i)) && FrameIs(ld, fs, next, Turned(next, n, j));
      if fs[j] != EMPTY {
        if a < b { assert F.Differ(ld, a, b); } else { assert F.Differ(ld, b, a); }
      }
    }
  }

  /** The time stamps are those of the last uses, and -1 in empty frames. */
  ghost predicate Stamped(refs: seq<int>, i: nat, fs: seq<int>, last: seq<int>)
    requires i <= |refs|
  {
    && |last| == |fs|
    && forall j :: 0 <= j < |fs| ==> last[j] == if fs[j] == EMPTY then -1 else L.Last(refs, i, fs[j])
  }

  /** The first empty frame after frame 0. */
  ghost predicate LaterSlot(fs: seq<int>, j: nat) {
    1 <= j < |fs| && fs[j] == -1 && -1 !in fs[1..j]
  }

  /** The victim scan of LRU: the first empty frame after frame 0, otherwise the oldest stamp. */
  method LruFrame(frames: array<int>, lastUsed: array<int>, numFrames: nat) returns (lruIdx: nat)
    requires 1 <= numFrames <= frames.Length && numFrames <= lastUsed.Length
    ensures lruIdx < numFrames
    ensures -1 in frames[..numFrames][1..] ==> LaterSlot(frames[..numFrames], lruIdx)
    ensures -1 !in frames[..numFrames][1..] ==> forall j :: 0 <= j < numFrames ==> lastUsed[lruIdx] <= lastUsed[j]
  {
    lruIdx := 0;
    for j := 1 to numFrames
      invariant lruIdx < j
      invariant forall k :: 1 <= k < j ==> frames[k] != EMPTY
      invariant forall k :: 0 <= k < j ==> lastUsed[lruIdx] <= lastUsed[k]
    {
      if frames[j] == EMPTY {
        lruIdx := j;
        assert frames[..numFrames][1..][j - 1] == EMPTY;
        return;
      }
      if lastUsed[j] < lastUsed[lruIdx] {
        lruIdx := j;
      }
    }
  }

  /** With true stamps the scan takes an empty frame whenever there is one, frame 0 last of all. */
  lemma {:induction false} EmptyFirst(fs: seq<int>, last: seq<int>, idx: nat)
    requires idx < |fs| == |last|
    requires forall j :: 0 <= j < |fs| ==> last[j] >= -1 && (last[j] == -1 <==> fs[j] == EMPTY)
    requires EMPTY in fs[1..] ==> fs[idx] == EMPTY
    requires EMPTY !in fs[1..] ==> forall j :: 0 <= j < |fs| ==> last[idx] <= last[j]
    ensures EMPTY in fs ==> fs[idx] == EMPTY
    ensures EMPTY !in fs ==> forall j :: 0 <= j < |fs| ==> last[idx] <= last[j]
  {
    assert fs == [fs[0]] + fs[1..];
  }

  ghost predicate LruHolds(refs: seq<int>, n: nat, i: nat, fs: seq<int>, last: seq<int>)
    requires i <= |refs|
  {
    && |fs| == n && NoRepeat(fs)
    && Pages(fs) == L.Resident(refs, n, i)
    && Stamped(refs, i, fs, last)
  }

  ghost predicate LruShows(refs: seq<int>, n: nat, i: nat, step: Step)
    requires i < |refs|
  {
    && Shows(refs, n, i, L.Resident(refs, n, i), step)
    && Pages(step.frames) == L.Resident(refs, n, i + 1)
    && (step.fault <==> L.LruFault(refs, n, i))
  }

  ghost predicate LruRun(refs: seq<int>, n: nat, shown: seq<Step>) {
    |shown| <= |refs| && forall i :: 0 <= i < |shown| ==> LruShows(refs, n, i, shown[i])
  }

  /** The simulation after `i` references. */
  ghost predicate LruSoFar(refs: seq<int>, n: nat, i: nat, fs: seq<int>, last: seq<int>, shown: seq<Step>, faults: nat)
    requires i <= |refs|
  {
    && faults == L.LruFaults(refs, n, i) && LruRun(refs, n, shown) && LruHolds(refs, n, i, fs, last)
    && FillingNow(shown, n, if n == 1 then 0 else 1, fs)
  }

  /** What one reference does to the frames. */
  ghost predicate LruMoves(fs: seq<int>, page: int, fs': seq<int>, fault: bool, slot: nat) {
    if fault
    then && slot < |fs| && fs' == fs[slot := page]
         && (-1 in fs[1..] ==> LaterSlot(fs, slot))
         && (fs[0] == -1 && -1 !in fs[1..] ==> slot == 0)
    else fs' == fs
  }

  /** What one reference does: a page that no frame shows is loaded, into the first empty frame
      after frame 0 if there is one.  While frames and stamps are right, they stay so, and the slot
      is frame 0 when only that is empty. */
  ghost predicate LruRule(refs: seq<int>, n: nat, i: nat, fs: seq<int>, last: seq<int>, fs': seq<int>, last': seq<int>,
                          fault: bool, slot: nat)
    requires i < |refs| && |fs| > 0
  {
    && Stepped(fs, refs[i], fs', fault)
    && (fault ==>
          slot < |fs| && fs' == fs[slot := refs[i]] && (-1 in fs[1..] ==> LaterSlot(fs, slot)))
    && (refs[i] != EMPTY && LruHolds(refs, n, i, fs, last) ==>
          && LruHolds(refs, n, i + 1, fs', last')
          && (fault <==> L.LruFault(refs, n, i))
          && LruMoves(fs, refs[i], fs', fault, slot))
  }

  /** Everything the loop of LRU keeps true. */
  ghost predicate LruState(refs: seq<int>, n: nat, fs: seq<int>, last: seq<int>, shown: seq<Step>, faults: nat) {
    && Replays(refs, n, shown, faults) && |fs| == n && fs == FramesBefore(n, shown, |shown|)
    && (EMPTY !in refs ==> LruSoFar(refs, n, |shown|, fs, last, shown, faults))
  }

  lemma {:induction false} LruStart(refs: seq<int>, n: nat, fs: seq<int>, last: seq<int>)
    requires n > 0 && |fs| == n == |last| && forall j :: 0 <= j < n ==> fs[j] == -1 && last[j] == -1
    ensures LruState(refs, n, fs, last, [], 0)
  {
    FillingStart(n, if n == 1 then 0 else 1, fs);
    assert Pages(fs) == {};
  }

  lemma {:induction false} LruAdvance(refs: seq<int>, n: nat, fs: seq<int>, last: seq<int>, shown: seq<Step>,
                                      faults: nat, fs': seq<int>, last': seq<int>, fault: bool, slot: nat)
    requires n > 0 && |shown| < |refs| && LruState(refs, n, fs, last, shown, faults)
    requires LruRule(refs, n, |shown|, fs, last, fs', last', fault, slot)
    ensures LruState(refs, n, fs', last', shown + [Step(refs[|shown|], fs', fault)],
                     if fault then faults + 1 else faults)
  {
    ReplayStep(refs, n, shown, faults, Step(refs[|shown|], fs', fault));
    if EMPTY !in refs {
      LruRunStep(refs, n, shown, fs, last, fs', last', fault, slot, faults);
    }
  }

  lemma {:induction false} LruRunStep(refs: seq<int>, n: nat, shown: seq<Step>, fs: seq<int>, last: seq<int>,
                                      fs': seq<int>, last': seq<int>, fault: bool, slot: nat, faults: nat)
    requires |shown| < |refs| && LruSoFar(refs, n, |shown|, fs, last, shown, faults) && refs[|shown|] != EMPTY
    requires LruHolds(refs, n, |shown| + 1, fs', last') && (fault <==> L.LruFault(refs, n, |shown|))
    requires LruMoves(fs, refs[|shown|], fs', fault, slot)
    ensures LruSoFar(refs, n, |shown| + 1, fs', last', shown + [Step(refs[|shown|], fs', fault)],
                     if fault then faults + 1 else faults)
  {
    var step := Step(refs[|shown|], fs', fault);
    L.FaultIffAbsent(refs, n, |shown|);
    assert LruShows(refs, n, |shown|, step);
    LruFills(shown, n, fs, step, slot);
  }

  /** While memory fills up the page goes to the next frame, frame 0 being the last. */
  lemma {:induction false} LruFills(shown: seq<Step>, n: nat, fs: seq<int>, step: Step, slot: nat)
    requires n > 0 && FillingNow(shown, n, if n == 1 then 0 else 1, fs) && step.page != -1
    requires LruMoves(fs, step.page, step.frames, step.fault, slot)
    ensures FillingNow(shown + [step], n, if n == 1 then 0 else 1, step.frames)
  {
    var ld := Loaded(shown, |shown|);
    if step.fault && |ld| < n {
      if n == 1 { FreeFromStart(fs, ld); } else { FreeFromOne(fs, ld); }
      if |ld| + 1 < n {
        assert fs[1..][|ld|] == -1;
        SameFirst(fs, slot, |ld| + 1);
      }
    }
    FillingStep(shown, n, if n == 1 then 0 else 1, fs, step);
  }

  lemma {:induction false} SameFirst(fs: seq<int>, i: nat, j: nat)
    requires LaterSlot(fs, i) && LaterSlot(fs, j)
    ensures i == j
  {
  }

  /** One reference under LRU. */
  method LruReference(refs: seq<int>, i: nat, frames: array<int>, lastUsed: array<int>, numFrames: nat)
    returns (isFault: bool, ghost slot: nat)
    requires i < |refs| && frames != lastUsed
    requires 1 <= numFrames <= frames.Length && numFrames <= lastUsed.Length
    modifies frames, lastUsed
    ensures LruRule(refs, numFrames, i, old(frames[..numFrames]), old(lastUsed[..numFrames]),
                    frames[..numFrames], lastUsed[..numFrames], isFault, slot)
  {
    var page := refs[i];
    ghost var fs, last := frames[..numFrames], lastUsed[..numFrames];
    ghost var held := page != EMPTY && LruHolds(refs, numFrames, i, fs, last);
    var hit := FindPage(frames, numFrames, page);
    isFault, slot := false, 0;
    if hit != -1 {
      lastUsed[hit] := i;
      assert frames[..numFrames] == fs && lastUsed[..numFrames] == last[hit := i];
      if held { LruHit(refs, numFrames, i, fs, last, hit); }
    } else {
      isFault := true;
      var lruIdx := LruFrame(frames, lastUsed, numFrames);
      slot := lruIdx;
      assert frames[..numFrames] == fs;
      assert forall j :: 0 <= j < numFrames ==> lastUsed[j] == last[j];
      frames[lruIdx] := page;
      lastUsed[lruIdx] := i;
      assert frames[..numFrames] == fs[lruIdx := page];
      assert LoadedAt(fs, lruIdx, page, frames[..numFrames]);
      assert lastUsed[..numFrames] == last[lruIdx := i];
      if held {
        LruStamps(refs, numFrames, i, fs, last);
        EmptyFirst(fs, last, lruIdx);
        assert EMPTY in fs && EMPTY !in fs[1..] ==> lruIdx == 0;
        LruLoad(refs, numFrames, i, fs, last, lruIdx);
      }
    }
  }

  /** LRU: faults, flags and frames are those of the reuse-distance rule, and memory fills up from
      frame 1, frame 0 last. */
  method SimulateLru(refs: seq<int>, numFrames: nat) returns (faults: nat, shown: seq<Step>)
    requires 1 <= numFrames <= 100
    ensures |shown| == |refs| && Replays(refs, numFrames, shown, faults)
    ensures EMPTY !in refs ==> FillsUp(shown, numFrames, if numFrames == 1 then 0 else 1)
    ensures EMPTY !in refs ==> faults == L.LruFaults(refs, numFrames, |refs|) && LruRun(refs, numFrames, shown)
  {
    var frames := new int[MAX_FRAMES];
    var lastUsed := new int[MAX_FRAMES];
    faults := 0;
    for i := 0 to numFrames
      invariant forall j :: 0 <= j < i ==> frames[j] == EMPTY && lastUsed[j] == -1
    {
      frames[i] := EMPTY;
      lastUsed[i] := -1;
    }
    shown := [];
    LruStart(refs, numFrames, frames[..numFrames], lastUsed[..numFrames]);
    for i := 0 to |refs|
      invariant |shown| == i && LruState(refs, numFrames, frames[..numFrames], lastUsed[..numFrames], shown, faults)
    {
      ghost var fs, last := frames[..numFrames], lastUsed[..numFrames];
      var isFault;
      ghost var slot;
      isFault, slot := LruReference(refs, i, frames, lastUsed, numFrames);
      LruAdvance(refs, numFrames, fs, last, shown, faults, frames[..numFrames], lastUsed[..numFrames], isFault, slot);
      if isFault {
        faults := faults + 1;
      }
      shown := shown + [Step(refs[i], frames[..numFrames], isFault)];
    }
  }

  lemma {:induction false} LruStamps(refs: seq<int>, n: nat, i: nat, fs: seq<int>, last: seq<int>)
    requires i <= |refs| && LruHolds(refs, n, i, fs, last)
    ensures forall j :: 0 <= j < |fs| ==> last[j] >= -1 && (last[j] == -1 <==> fs[j] == EMPTY)
  {
    forall j | 0 <= j < |fs|
      ensures last[j] >= -1 && (last[j] == -1 <==> fs[j] == EMPTY)
    {
      if fs[j] != EMPTY {
        assert fs[j] in Pages(fs);
        L.Seen(refs, i, fs[j]);
      }
    }
  }

  lemma {:induction false} LruHit(refs: seq<int>, n: nat, i: nat, fs: seq<int>, last: seq<int>, hit: nat)
    requires i < |refs| && hit < |fs| && fs[hit] == refs[i] && refs[i] != EMPTY
    requires LruHolds(refs, n, i, fs, last)
    ensures LruHolds(refs, n, i + 1, fs, last[hit := i]) && !L.LruFault(refs, n, i)
  {
    assert refs[i] in Pages(fs);
    L.FaultIffAbsent(refs, n, i);
    L.HitKeeps(refs, n, i);
  }

  lemma {:induction false} LruLoad(refs: seq<int>, n: nat, i: nat, fs: seq<int>, last: seq<int>, idx: nat)
    requires n > 0 && i < |refs| && LruHolds(refs, n, i, fs, last)
    requires idx < n && refs[i] != EMPTY && refs[i] !in fs
    requires EMPTY in fs ==> fs[idx] == EMPTY
    requires EMPTY !in fs ==> forall j :: 0 <= j < n ==> last[idx] <= last[j]
    ensures LruHolds(refs, n, i + 1, fs[idx := refs[i]], last[idx := i]) && L.LruFault(refs, n, i)
  {
    PagesUpdate(fs, idx, refs[i]);
    PagesCard(fs);
    L.FaultIffAbsent(refs, n, i);
    L.ResidentStep(refs, n, i);
    if EMPTY !in fs {
      assert L.LeastRecent(refs, i, Pages(fs), fs[idx]) by {
        assert fs[idx] in Pages(fs);
        forall q | q in Pages(fs) ensures L.Last(refs, i, fs[idx]) <= L.Last(refs, i, q) {
          var j :| 0 <= j < n && fs[j] == q;
          assert last[idx] <= last[j];
        }
      }
    } else {
      assert fs[idx] !in Pages(fs);
      assert Pages(fs[idx := refs[i]]) == Pages(fs) + {refs[i]};
    }
  }

  /** The forward search of OPT, with the constant for "never again". */
  method NextUse(refs: seq<int>, i: nat, page: int) returns (nextUse: nat)
    requires i < |refs|
    ensures var r := B.Next(refs, i + 1, page);
            nextUse == if r == |refs| then INFINITY else r
  {
    nextUse := INFINITY;
    for k := i + 1 to |refs|
      invariant nextUse == INFINITY
      invariant page !in refs[i + 1..k]
    {
      if refs[k] == page {
        nextUse := k;
        NextIs(refs, i + 1, page, k);
        return;
      }
    }
    NextIs(refs, i + 1, page, |refs|);
  }

  lemma {:induction false} NextIs(refs: seq<int>, i: nat, p: int, k: nat)
    requires i <= k <= |refs| && p !in refs[i..k] && (k < |refs| ==> refs[k] == p)
    ensures B.Next(refs, i, p) == k
    decreases k - i
  {
    if i < k {
      assert refs[i..k] == [refs[i]] + refs[i + 1..k];
      NextIs(refs, i + 1, p, k);
    }
  }

  /** The first of the frames whose page is next used farthest away. */
  ghost predicate FirstFarthest(refs: seq<int>, i: nat, fs: seq<int>, j: nat)
    requires i <= |refs|
  {
    j < |fs| &&
    forall k :: 0 <= k < |fs| ==>
      && B.Next(refs, i, fs[k]) <= B.Next(refs, i, fs[j])
      && (k < j ==> B.Next(refs, i, fs[k]) < B.Next(refs, i, fs[j]))
  }

  method FarthestFrame(refs: seq<int>, i: nat, frames: array<int>, numFrames: nat) returns (replaceIdx: nat)
    requires i < |refs| && 1 <= numFrames <= frames.Length
    ensures replaceIdx < numFrames
    ensures |refs| <= 1000000 ==> FirstFarthest(refs, i + 1, frames[..numFrames], replaceIdx)
    ensures |refs| <= 1000000 ==> forall k :: 0 <= k < replaceIdx ==> frames[k] in refs[i + 1..]
  {
    var farthest: int := -1;
    replaceIdx := 0;
    for j := 0 to numFrames
      invariant j == 0 <==> farthest == -1
      invariant replaceIdx < numFrames
      invariant j > 0 ==> var r := B.Next(refs, i + 1, frames[replaceIdx]);
                          farthest == if r == |refs| then INFINITY else r
      invariant replaceIdx < j || j == 0
      invariant |refs| <= INFINITY ==> forall k :: 0 <= k < j ==>
                  && B.Next(refs, i + 1, frames[k]) <= B.Next(refs, i + 1, frames[replaceIdx])
                  && (k < replaceIdx ==> B.Next(refs, i + 1, frames[k]) < B.Next(refs, i + 1, frames[replaceIdx]))
    {
      var nextUse := NextUse(refs, i, frames[j]);
      if nextUse > farthest {
        farthest := nextUse;
        replaceIdx := j;
      }
    }
    if |refs| <= 1000000 { EarlierOnesReturn(refs, i + 1, frames[..numFrames], replaceIdx); }
  }

  /** Of several pages that are never used again the first goes: all frames before it hold pages that
      come up again. */
  lemma {:induction false} EarlierOnesReturn(refs: seq<int>, i: nat, fs: seq<int>, j: nat)
    requires i <= |refs| && FirstFarthest(refs, i, fs, j)
    ensures forall k :: 0 <= k < j ==> fs[k] in refs[i..]
  {
    forall k | 0 <= k < j
      ensures fs[k] in refs[i..]
    {
      var r := B.Next(refs, i, fs[k]);
      assert r < B.Next(refs, i, fs[j]) <= |refs|;
      assert refs[i..][r - i] == fs[k];
    }
  }

  ghost predicate OptShows(refs: seq<int>, n: nat, i: nat, before: set<int>, step: Step)
    requires i < |refs|
  {
    && Shows(refs, n, i, before, step)
    && B.BeladyStep(refs, i, before, Pages(step.frames), n)
  }

  /** `c` lists the pages held before each step shown so far, and after the last of them. */
  ghost predicate OptRun(refs: seq<int>, n: nat, shown: seq<Step>, c: seq<set<int>>) {
    && |shown| <= |refs| && |c| == |shown| + 1 && c[0] == {}
    && forall i :: 0 <= i < |shown| ==> OptShowsAt(refs, n, shown, c, i)
  }

  ghost predicate OptShowsAt(refs: seq<int>, n: nat, shown: seq<Step>, c: seq<set<int>>, i: nat)
    requires i < |shown| <= |refs| && i + 1 < |c|
  {
    c[i + 1] == Pages(shown[i].frames) && OptShows(refs, n, i, c[i], shown[i])
  }

  /** Where OPT loads a page: the first empty frame, or the first of the frames next used farthest
      away. */
  ghost predicate OptSlot(refs: seq<int>, i: nat, fs: seq<int>, j: nat)
    requires i <= |refs|
  {
    && j < |fs|
    && if -1 in fs then fs[j] == -1 && -1 !in fs[..j] else |refs| <= 1000000 ==> FirstFarthest(refs, i, fs, j)
  }

  /** What one reference does: a page that no frame shows is loaded at OPT's slot.  While frames
      show no page twice this stays so, and Belady's rule is followed on the pages held. */
  ghost predicate OptRule(refs: seq<int>, i: nat, fs: seq<int>, fs': seq<int>, fault: bool, slot: nat)
    requires i < |refs|
  {
    && Stepped(fs, refs[i], fs', fault)
    && (fault ==> OptSlot(refs, i + 1, fs, slot) && fs' == fs[slot := refs[i]])
    && (refs[i] != EMPTY && NoRepeat(fs) ==>
          && NoRepeat(fs') && (fault <==> refs[i] !in Pages(fs))
          && (|refs| <= 1000000 ==> B.BeladyStep(refs, i, Pages(fs), Pages(fs'), |fs|)))
  }

  /** One reference under OPT. */
  method OptReference(refs: seq<int>, i: nat, frames: array<int>, numFrames: nat)
    returns (isFault: bool, ghost slot: nat)
    requires i < |refs| && 1 <= numFrames <= frames.Length
    modifies frames
    ensures OptRule(refs, i, old(frames[..numFrames]), frames[..numFrames], isFault, slot)
  {
    var page := refs[i];
    ghost var fs := frames[..numFrames];
    OptHolds(fs);
    var hit := FindPage(frames, numFrames, page);
    isFault, slot := false, 0;
    if hit == -1 {
      isFault := true;
      var replaceIdx := FindPage(frames, numFrames, EMPTY);
      if replaceIdx == -1 {
        replaceIdx := FarthestFrame(refs, i, frames, numFrames);
      } else {
        assert frames[..replaceIdx] == fs[..replaceIdx] && fs[replaceIdx] == EMPTY;
      }
      slot := replaceIdx;
      frames[replaceIdx] := page;
      assert frames[..numFrames] == fs[replaceIdx := page];
      assert LoadedAt(fs, replaceIdx, page, frames[..numFrames]);
      if page != EMPTY && NoRepeat(fs) {
        PagesUpdate(fs, replaceIdx, page);
        if |refs| <= INFINITY { OptLoad(refs, numFrames, i, fs, replaceIdx); }
      }
    }
  }

  /** Everything the loop of OPT keeps true. */
  ghost predicate OptState(refs: seq<int>, n: nat, fs: seq<int>, shown: seq<Step>, c: seq<set<int>>, faults: nat) {
    && Replays(refs, n, shown, faults) && |fs| == n && fs == FramesBefore(n, shown, |shown|)
    && |c| == |shown| + 1
    && (EMPTY !in refs ==> FillingNow(shown, n, 0, fs) && NoRepeat(fs))
    && (EMPTY !in refs && |refs| <= 1000000 ==>
          c[|shown|] == Pages(fs) && OptRun(refs, n, shown, c) && faults == Faults(refs, c, |shown|))
  }

  lemma {:induction false} OptStart(refs: seq<int>, n: nat, fs: seq<int>)
    requires n > 0 && |fs| == n && forall j :: 0 <= j < n ==> fs[j] == -1
    ensures OptState(refs, n, fs, [], [{}], 0)
  {
    FillingStart(n, 0, fs);
    assert Pages(fs) == {};
  }

  lemma {:induction false} OptAdvance(refs: seq<int>, n: nat, fs: seq<int>, shown: seq<Step>, c: seq<set<int>>,
                                      faults: nat, step: Step, slot: nat)
    requires n > 0 && |shown| < |refs| && OptState(refs, n, fs, shown, c, faults)
    requires step.page == refs[|shown|] && OptRule(refs, |shown|, fs, step.frames, step.fault, slot)
    ensures OptState(refs, n, step.frames, shown + [step], c + [Pages(step.frames)],
                     if step.fault then faults + 1 else faults)
  {
    ReplayStep(refs, n, shown, faults, step);
    if EMPTY !in refs {
      OptFills(refs, shown, n, fs, step, slot);
      if |refs| <= 1000000 {
        OptRunStep(refs, n, shown, c, step, Pages(step.frames));
        FaultsStep(refs, c, Pages(step.frames), |shown|);
      }
    }
  }

  /** While memory fills up the page goes to the next frame. */
  lemma {:induction false} OptFills(refs: seq<int>, shown: seq<Step>, n: nat, fs: seq<int>, step: Step, slot: nat)
    requires |shown| < |refs| && FillingNow(shown, n, 0, fs) && step.page == refs[|shown|] != -1
    requires OptRule(refs, |shown|, fs, step.frames, step.fault, slot)
    ensures FillingNow(shown + [step], n, 0, step.frames)
  {
    var ld := Loaded(shown, |shown|);
    if step.fault && |ld| < n {
      FreeFromStart(fs, ld);
      assert slot == |ld|;
    }
    FillingStep(shown, n, 0, fs, step);
  }

  /** OPT: no schedule with as many frames faults less often, and each step evicts a page that is
      next used farthest away. */
  method SimulateOpt(refs: seq<int>, numFrames: nat)
    returns (faults: nat, shown: seq<Step>, ghost caches: seq<set<int>>)
    requires 1 <= numFrames <= 100
    ensures |shown| == |refs| && Replays(refs, numFrames, shown, faults)
    ensures EMPTY !in refs ==> FillsUp(shown, numFrames, 0)
    ensures EMPTY !in refs && |refs| <= 1000000 ==>
              MinFaults(refs, numFrames, faults) && OptRun(refs, numFrames, shown, caches)
  {
    var frames := new int[MAX_FRAMES];
    faults := 0;
    for i := 0 to numFrames
      invariant forall j :: 0 <= j < i ==> frames[j] == EMPTY
    {
      frames[i] := EMPTY;
    }
    shown, caches := [], [{}];
    OptStart(refs, numFrames, frames[..numFrames]);
    for i := 0 to |refs|
      invariant |shown| == i && OptState(refs, numFrames, frames[..numFrames], shown, caches, faults)
    {
      ghost var fs := frames[..numFrames];
      var isFault;
      ghost var slot;
      isFault, slot := OptReference(refs, i, frames, numFrames);
      OptAdvance(refs, numFrames, fs, shown, caches, faults, Step(refs[i], frames[..numFrames], isFault), slot);
      if isFault {
        faults := faults + 1;
      }
      shown := shown + [Step(refs[i], frames[..numFrames], isFault)];
      caches := caches + [Pages(frames[..numFrames])];
    }
    if EMPTY !in refs && |refs| <= 1000000 {
      OptRunIsBelady(refs, numFrames, shown, caches);
      B.BeladyMinFaults(refs, numFrames, caches);
    }
  }

  lemma {:induction false} OptRunStep(refs: seq<int>, n: nat, shown: seq<Step>, c: seq<set<int>>, step: Step,
                                      x: set<int>)
    requires OptRun(refs, n, shown, c) && |shown| < |refs|
    requires OptShows(refs, n, |shown|, c[|shown|], step) && x == Pages(step.frames)
    ensures OptRun(refs, n, shown + [step], c + [x])
  {
    var longer, d := shown + [step], c + [x];
    forall i | 0 <= i < |longer|
      ensures OptShowsAt(refs, n, longer, d, i)
    {
      if i < |shown| { assert OptShowsAt(refs, n, shown, c, i); }
    }
  }

  lemma {:induction false} FaultsStep(refs: seq<int>, c: seq<set<int>>, x: set<int>, i: nat)
    requires i < |refs| && |c| == i + 1
    ensures Faults(refs, c + [x], i + 1) == Faults(refs, c, i) + if refs[i] in c[i] then 0 else 1
  {
    FaultsPrefix(refs, c, x, i);
    assert (c + [x])[i] == c[i];
  }

  lemma {:induction false} OptRunIsBelady(refs: seq<int>, n: nat, shown: seq<Step>, c: seq<set<int>>)
    requires |shown| == |refs| && OptRun(refs, n, shown, c)
    ensures B.BeladySchedule(refs, n, c)
  {
    forall i | 0 <= i < |refs|
      ensures B.BeladyStep(refs, i, c[i], c[i + 1], n)
    {
      assert OptShowsAt(refs, n, shown, c, i);
    }
  }

  lemma {:induction false} FaultsPrefix(refs: seq<int>, c: seq<set<int>>, x: set<int>, i: nat)
    requires i <= |refs| && i <= |c|
    ensures Faults(refs, c + [x], i) == Faults(refs, c, i)
  {
    if i > 0 { FaultsPrefix(refs, c, x, i - 1); }
  }

  lemma {:induction false} OptHolds(fs: seq<int>)
    ensures forall p :: p != EMPTY ==> (p in fs <==> p in Pages(fs))
  {
    forall p | p != EMPTY && p in fs ensures p in Pages(fs) {
      var j :| 0 <= j < |fs| && fs[j] == p;
    }
  }

  lemma {:induction false} OptLoad(refs: seq<int>, n: nat, i: nat, fs: seq<int>, idx: nat)
    requires n > 0 && i < |refs| && |fs| == n && idx < n && refs[i] != EMPTY && refs[i] !in fs && NoRepeat(fs)
    requires EMPTY in fs ==> fs[idx] == EMPTY
    requires EMPTY !in fs ==>
               forall j :: 0 <= j < n ==> B.Next(refs, i + 1, fs[j]) <= B.Next(refs, i + 1, fs[idx])
    ensures NoRepeat(fs[idx := refs[i]])
    ensures B.BeladyStep(refs, i, Pages(fs), Pages(fs[idx := refs[i]]), n)
    ensures refs[i] !in Pages(fs)
  {
    PagesUpdate(fs, idx, refs[i]);
    PagesCard(fs);
    if EMPTY !in fs {
      assert fs[idx] in Pages(fs);
      assert B.Farthest(refs, i + 1, Pages(fs), fs[idx]);
    } else {
      assert Pages(fs[idx := refs[i]]) == Pages(fs) + {refs[i]};
    }
  }

  /** All three policies on one string: OPT is at most FIFO and LRU, and neither of those exceeds
      the number of frames times OPT. */
  lemma {:induction false} PoliciesCompared(refs: seq<int>, n: nat, opt: nat)
    requires n > 0 && MinFaults(refs, n, opt)
    ensures opt <= F.FifoFaults(refs, n, |refs|) <= n * opt
    ensures opt <= L.LruFaults(refs, n, |refs|) <= n * opt
  {
    L.LruIsDemand(refs, n);
    F.FifoIsDemand(refs, n);
    DemandIsSchedule(refs, n, L.LruSchedule(refs, n));
    DemandIsSchedule(refs, n, F.FifoSchedule(refs, n));
    var c :| DemandSchedule(refs, n, c) && Faults(refs, c, |refs|) == opt;
    DemandIsSchedule(refs, n, c);
    Ph.LruCompetitive(refs, n, n, c, |refs|);
    Ph.FifoCompetitive(refs, n, n, c, |refs|);
  }
}
