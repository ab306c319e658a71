/** Belady's anomaly: for which frame counts FIFO can fault more often after frames are added, and
    for which it never does. */
module Anomaly {
  import opened FifoModel
  import opened Sets

  /** Loads that are fewer than `n` places apart are different. */
  ghost predicate Spaced(ld: seq<int>, n: nat) {
    forall i, j :: 0 <= i < j < |ld| && j < i + n ==> Differ(ld, i, j)
  }

  lemma {:induction false} LoadSpaced(ld: seq<int>, n: nat, x: int)
    requires Spaced(ld, n)
    ensures Spaced(Load(ld, n, x), n)
  {
    var ld' := Load(ld, n, x);
    forall i, j | 0 <= i < j < |ld'| && j < i + n
      ensures Differ(ld', i, j)
    {
      if j < |ld| { assert Differ(ld, i, j); }
    }
  }

  /** Load `j` of the small memory hit in the large one, and its page has not been loaded there since. */
  ghost predicate Credited(few: seq<int>, many: seq<int>, marks: seq<nat>, j: int)
    requires 0 <= j < |few| == |marks|
  {
    forall q :: marks[j] <= q < |many| ==> many[q] != few[j]
  }

  ghost function Credits(few: seq<int>, many: seq<int>, marks: seq<nat>, n: nat): set<int>
    requires |few| == |marks|
  {
    set j | 0 <= j < |few| && |few| - n <= j && Credited(few, many, marks, j)
  }

  /** Page `p` is among the loads of the small memory from `j - n + 1` on. */
  ghost predicate Nearby(few: seq<int>, n: nat, j: int, p: int) {
    exists k :: 0 <= k < |few| && j - n + 1 <= k && few[k] == p
  }

  ghost predicate AllNearby(few: seq<int>, many: seq<int>, marks: seq<nat>, n: nat) {
    && |marks| == |few| && (forall j :: 0 <= j < |few| ==> marks[j] <= |many|)
    && forall j, q :: 0 <= j < |few| && marks[j] <= q < |many| ==> Nearby(few, n, j, many[q])
  }

  /** `marks[j]` is how much the large memory had loaded before load `j` of the small one.  What it
      loaded afterwards was then in the small one, which leads by its credited pages. */
  ghost predicate Leads(few: seq<int>, many: seq<int>, marks: seq<nat>, n: nat) {
    AllNearby(few, many, marks, n) && |many| + |Credits(few, many, marks, n)| <= |few|
  }

  /** The last place of `x` in `ld`. */
  lemma {:induction false} LastPlace(ld: seq<int>, x: int, q: nat) returns (l: nat)
    requires q < |ld| && ld[q] == x
    ensures q <= l < |ld| && ld[l] == x && forall k :: l < k < |ld| ==> ld[k] != x
    decreases |ld| - q
  {
    if k :| q < k < |ld| && ld[k] == x {
      l := LastPlace(ld, x, k);
    } else {
      l := q;
    }
  }

  /** A page that hits in the small memory and faults in the large one is credited: otherwise the
      large one has loaded `m + 1` different pages out of the last `2n - 1` of the small one. */
  lemma {:induction false} FaultIsCredited(few: seq<int>, many: seq<int>, marks: seq<nat>, n: nat, m: nat, j: nat)
    requires 0 < n && 2 * n - 1 <= m && Leads(few, many, marks, n) && Spaced(many, m)
    requires j < |few| && |few| - n <= j && few[j] !in Window(many, m)
    ensures Credited(few, many, marks, j)
  {
    if q0 :| marks[j] <= q0 < |many| && many[q0] == few[j] {
      var q := LastPlace(many, few[j], q0);
      assert q < |many| - m;
      var run := many[q..q + m + 1];
      forall a, b | 0 <= a < b < |run|
        ensures run[a] != run[b]
      {
        if a > 0 { assert Differ(many, q + a, q + b); }
      }
      var lo := if j - n + 1 < 0 then 0 else j - n + 1;
      var near := few[lo..];
      forall p | p in Elements(run)
        ensures p in Elements(near)
      {
        var a :| 0 <= a < |run| && run[a] == p;
        assert Nearby(few, n, j, many[q + a]);
        var k :| 0 <= k < |few| && j - n + 1 <= k && few[k] == p;
        assert near[k - lo] == p;
      }
      DistinctCard(run);
      ElementsBound(near);
      SubsetCard(Elements(run), Elements(near));
      assert false;
    }
  }

  /** One reference in both memories. */
  lemma {:induction false} LeadStep(few: seq<int>, many: seq<int>, marks: seq<nat>, n: nat, m: nat, x: int)
    returns (marks': seq<nat>)
    requires 0 < n && 2 * n - 1 <= m && Leads(few, many, marks, n) && Spaced(many, m)
    ensures Leads(Load(few, n, x), Load(many, m, x), marks', n)
  {
    var few', many' := Load(few, n, x), Load(many, m, x);
    if x in Window(few, n) {
      marks' := marks;
      if x !in Window(many, m) {
        var j :| 0 <= j < |few| && |few| - n <= j && few[j] == x;
        FaultIsCredited(few, many, marks, n, m, j);
        HitNearby(few, many, marks, n, x, j);
        assert many' == many + [x] && many'[|many|] == x;
        assert !Credited(few, many', marks, j);
        assert j in Credits(few, many, marks, n);
        forall k | k in Credits(few, many', marks, n)
          ensures k in Credits(few, many, marks, n) - {j}
        {
          CreditStays(few, many, marks, x, k);
        }
        SubsetCard(Credits(few, many', marks, n), Credits(few, many, marks, n) - {j});
      }
    } else {
      marks' := marks + [|many|];
      LoadNearby(few, many, marks, n, m, x);
      LoadCredits(few, many, marks, n, m, x);
    }
  }

  lemma {:induction false} CreditStays(few: seq<int>, many: seq<int>, marks: seq<nat>, x: int, k: int)
    requires 0 <= k < |few| == |marks| && Credited(few, many + [x], marks, k)
    ensures Credited(few, many, marks, k)
  {
    forall q | marks[k] <= q < |many|
      ensures many[q] != few[k]
    {
      assert (many + [x])[q] == many[q];
    }
  }

  lemma {:induction false} HitNearby(few: seq<int>, many: seq<int>, marks: seq<nat>, n: nat, x: int, j: nat)
    requires Leads(few, many, marks, n) && j < |few| && |few| - n <= j && few[j] == x
    ensures AllNearby(few, many + [x], marks, n)
  {
    var many' := many + [x];
    forall i, q | 0 <= i < |few| && marks[i] <= q < |many'|
      ensures Nearby(few, n, i, many'[q])
    {
      if q < |many| { assert Nearby(few, n, i, many[q]); } else { assert few[j] == many'[q]; }
    }
  }

  lemma {:induction false} LoadNearby(few: seq<int>, many: seq<int>, marks: seq<nat>, n: nat, m: nat, x: int)
    requires 0 < n && Leads(few, many, marks, n)
    ensures AllNearby(few + [x], Load(many, m, x), marks + [|many|], n)
  {
    var (few', many', marks') := (few + [x], Load(many, m, x), marks + [|many|]);
    forall i, q | 0 <= i <= |few| && marks'[i] <= q < |many'|
      ensures Nearby(few', n, i, many'[q])
    {
      if q < |many| {
        assert Nearby(few, n, i, many[q]);
        var k :| 0 <= k < |few| && i - n + 1 <= k && few[k] == many[q];
        assert few'[k] == many'[q];
      } else {
        assert few'[|few|] == x;
      }
    }
  }

  lemma {:induction false} LoadCredits(few: seq<int>, many: seq<int>, marks: seq<nat>, n: nat, m: nat, x: int)
    requires 0 < n && Leads(few, many, marks, n)
    ensures |Load(many, m, x)| + |Credits(few + [x], Load(many, m, x), marks + [|many|], n)| <= |few| + 1
  {
    var (few', many', marks') := (few + [x], Load(many, m, x), marks + [|many|]);
    var before, after := Credits(few, many, marks, n), Credits(few', many', marks', n);
    forall k | k in after && k < |few|
      ensures k in before
    {
      assert marks'[k] == marks[k] && few'[k] == few[k];
      if many' == many + [x] { assert Credited(few, many + [x], marks, k); CreditStays(few, many, marks, x, k); }
    }
    if many' == many {
      SubsetCard(after, before + {|few|});
    } else {
      assert many'[|many|] == x && few'[|few|] == x;
      SubsetCard(after, before);
    }
  }

  /** With `2n - 1` frames or more FIFO never faults more often than with `n`. */
  lemma {:induction false} NoAnomaly(refs: seq<int>, n: nat, m: nat)
    requires 0 < n && 2 * n - 1 <= m
    ensures FifoFaults(refs, m, |refs|) <= FifoFaults(refs, n, |refs|)
  {
    var few, many, marks := [], [], [];
    assert Credits(few, many, marks, n) == {};
    for i := 0 to |refs|
      invariant few == Loads(refs, n, i) && many == Loads(refs, m, i)
      invariant Leads(few, many, marks, n) && Spaced(many, m)
    {
      marks := LeadStep(few, many, marks, n, m, refs[i]);
      LoadSpaced(many, m, refs[i]);
      few, many := Load(few, n, refs[i]), Load(many, m, refs[i]);
    }
  }

  /** The string on which `m` frames are worse than `n`: `0 .. m-1`, `0 .. n-2`, `m`, `0 .. m`. */
  ghost function BadPage(n: nat, m: nat, i: nat): int {
    if i < m then i else if i < m + n - 1 then i - m else if i == m + n - 1 then m else i - m - n
  }

  ghost function BadString(n: nat, m: nat): (refs: seq<int>)
    ensures |refs| == 2 * m + n + 1 && forall i :: 0 <= i < |refs| ==> refs[i] == BadPage(n, m, i)
  {
    seq(2 * m + n + 1, i requires 0 <= i => BadPage(n, m, i))
  }

  /** What `n` frames load: everything but the second time round of `0 .. n-2` and `m`. */
  ghost predicate FewLoads(n: nat, m: nat, ld: seq<int>) {
    forall j :: 0 <= j < |ld| ==> ld[j] == if j < m + n then BadPage(n, m, j) else j - m - 1
  }

  ghost function FewCount(n: nat, m: nat, i: nat): int {
    if i <= m + n then i
    else if i <= m + 2 * n - 1 then m + n
    else if i <= 2 * m + n then i - n + 1 else 2 * m + 1
  }

  lemma {:induction false} FewStep(n: nat, m: nat, i: nat, ld: seq<int>, x: int)
    requires n < m <= 2 * n - 2 && i <= 2 * m + n
    requires FewLoads(n, m, ld) && |ld| == FewCount(n, m, i) && x == BadPage(n, m, i)
    ensures FewLoads(n, m, Load(ld, n, x)) && |Load(ld, n, x)| == FewCount(n, m, i + 1)
  {
    if m + n <= i < m + 2 * n - 1 {
      assert ld[i - n] == x;
    } else if i == 2 * m + n {
      assert ld[m + n - 1] == x;
    } else {
      forall j | 0 <= j < |ld| && |ld| - n <= j
        ensures ld[j] != x
      {
      }
    }
  }

  lemma {:induction false} WithFewFrames(n: nat, m: nat)
    requires n < m <= 2 * n - 2
    ensures FifoFaults(BadString(n, m), n, 2 * m + n + 1) == 2 * m + 1
  {
    var refs, ld := BadString(n, m), [];
    for i := 0 to 2 * m + n + 1
      invariant ld == Loads(refs, n, i) && FewLoads(n, m, ld)
      invariant |ld| == FewCount(n, m, i)
    {
      FewStep(n, m, i, ld, refs[i]);
      ld := Load(ld, n, refs[i]);
    }
  }

  /** What `m` frames load: `0 .. m`, and all of it again. */
  ghost predicate ManyLoads(m: nat, ld: seq<int>) {
    forall j :: 0 <= j < |ld| ==> ld[j] == if j <= m then j else j - m - 1
  }

  lemma {:induction false} WithManyFrames(n: nat, m: nat)
    requires n < m <= 2 * n - 2
    ensures FifoFaults(BadString(n, m), m, 2 * m + n + 1) == 2 * m + 2
  {
    var refs, ld := BadString(n, m), [];
    for i := 0 to 2 * m + n + 1
      invariant ld == Loads(refs, m, i) && ManyLoads(m, ld)
      invariant |ld| == if i <= m then i else if i < m + n then m else i - n + 1
    {
      var x := refs[i];
      if m <= i < m + n - 1 {
        assert ld[i - m] == x;
      }
      ld := Load(ld, m, x);
    }
  }

  /** Belady's anomaly: the frames can be added without risk exactly when they are none, or make
      the memory at least twice as large less one. */
  lemma {:induction false} FifoAnomaly(n: nat, m: nat)
    requires 0 < n <= m
    ensures (forall refs :: FifoFaults(refs, m, |refs|) <= FifoFaults(refs, n, |refs|)) <==>
            m == n || m >= 2 * n - 1
  {
    if m >= 2 * n - 1 {
      forall refs
        ensures FifoFaults(refs, m, |refs|) <= FifoFaults(refs, n, |refs|)
      {
        NoAnomaly(refs, n, m);
      }
    } else if n < m {
      WithFewFrames(n, m);
      WithManyFrames(n, m);
      var refs := BadString(n, m);
      assert FifoFaults(refs, m, |refs|) > FifoFaults(refs, n, |refs|);
    }
  }

  /** Whatever the counts, a memory with room for all pages of the string faults once for each of
      them, and no other faults less. */
  lemma {:induction false} RoomForAll(refs: seq<int>, n: nat, m: nat)
    requires 0 < n && |Elements(refs)| <= m
    ensures FifoFaults(refs, m, |refs|) == |Elements(refs)| <= FifoFaults(refs, n, |refs|)
  {
    var few, many := [], [];
    for i := 0 to |refs|
      invariant few == Loads(refs, n, i) && many == Loads(refs, m, i)
      invariant Distinct(many) && |many| <= |Elements(refs)|
      invariant Elements(many) == Elements(few) == Elements(refs[..i])
    {
      var x := refs[i];
      assert refs[..i + 1] == refs[..i] + [x];
      assert x in refs;
      LoadElements(few, n, x);
      LoadElements(many, m, x);
      LoadDistinct(many, m, x);
      few, many := Load(few, n, x), Load(many, m, x);
      assert Elements(refs[..i + 1]) <= Elements(refs);
      DistinctCard(many);
      SubsetCard(Elements(many), Elements(refs));
      assert Elements(refs[..i + 1]) == Elements(refs[..i]) + {x};
    }
    assert refs[..|refs|] == refs;
    DistinctCard(many);
    ElementsBound(few);
  }
}
