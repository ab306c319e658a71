/** The frames while memory fills up: which frame each of the first loads goes to. */
module Filling {
  import Ring

  /** `k` frames on from `first`, round the array, stands the `k`-th page loaded, or -1 in an empty
      frame. */
  ghost predicate StandsAt(first: nat, fs: seq<int>, ld: seq<int>, k: nat)
    requires first < |fs| && k < |fs|
  {
    fs[Ring.Slot(first, |fs|, k)] == if k < |ld| then ld[k] else -1
  }

  /** The frames after the loads `ld`, as long as these are no more than the frames. */
  ghost predicate Filled(first: nat, fs: seq<int>, ld: seq<int>) {
    && first < |fs| && |ld| <= |fs|
    && forall k :: 0 <= k < |fs| ==> StandsAt(first, fs, ld, k)
  }

  lemma {:induction false} FillNext(first: nat, fs: seq<int>, ld: seq<int>, page: int)
    requires Filled(first, fs, ld) && |ld| < |fs|
    ensures Filled(first, fs[Ring.Slot(first, |fs|, |ld|) := page], ld + [page])
  {
    var fs' := fs[Ring.Slot(first, |fs|, |ld|) := page];
    forall k | 0 <= k < |fs'|
      ensures StandsAt(first, fs', ld + [page], k)
    {
      assert StandsAt(first, fs, ld, k);
    }
  }

  /** What the search for an empty frame from frame 0 finds. */
  lemma {:induction false} FreeFromStart(fs: seq<int>, ld: seq<int>)
    requires Filled(0, fs, ld) && |ld| < |fs| && -1 !in ld
    ensures fs[|ld|] == -1 && -1 !in fs[..|ld|]
  {
    forall k | 0 <= k <= |ld|
      ensures fs[k] == -1 <==> k == |ld|
    {
      assert StandsAt(0, fs, ld, k);
    }
  }

  /** What the search from frame 1 finds, frame 0 being left for last. */
  lemma {:induction false} FreeFromOne(fs: seq<int>, ld: seq<int>)
    requires |fs| > 1 && Filled(1, fs, ld) && |ld| < |fs| && -1 !in ld
    ensures |ld| + 1 < |fs| ==> fs[|ld| + 1] == -1 && -1 !in fs[1..|ld| + 1]
    ensures |ld| + 1 == |fs| ==> fs[0] == -1 && -1 !in fs[1..]
  {
    forall k | 0 <= k <= |ld|
      ensures fs[Ring.Slot(1, |fs|, k)] == -1 <==> k == |ld|
    {
      assert StandsAt(1, fs, ld, k);
    }
    forall j | 1 <= j <= |ld|
      ensures fs[j] != -1
    {
      assert Ring.Slot(1, |fs|, j - 1) == j;
    }
    assert Ring.Slot(1, |fs|, |ld|) == if |ld| + 1 < |fs| then |ld| + 1 else 0;
  }
}
