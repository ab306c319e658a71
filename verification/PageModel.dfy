/** Page replacement as sets: what it means to serve a reference string with a
    bounded number of frames, independently of any policy. */
module PageModel {
  const EMPTY: int := -1

  /** One reference to `p`: afterwards `p` is resident, nothing but `p` was loaded, and at
      most `n` pages are resident.  Pages may be dropped for no reason. */
  ghost predicate Serves(before: set<int>, p: int, after: set<int>, n: nat) {
    p in after && after <= before + {p} && |after| <= n
  }

  /** Demand paging proper: nothing changes on a hit, and a page is evicted
      only on a fault that finds no free frame. */
  ghost predicate Demand(before: set<int>, p: int, after: set<int>, n: nat) {
    if p in before then after == before
    else if |before| < n then after == before + {p}
    else exists v :: v in before && after == before - {v} + {p}
  }

  /** `c[i]` holds the pages resident before reference `i`; memory starts empty. */
  ghost predicate Schedule(refs: seq<int>, n: nat, c: seq<set<int>>) {
    && |c| == |refs| + 1
    && c[0] == {}
    && forall i :: 0 <= i < |refs| ==> Serves(c[i], refs[i], c[i + 1], n)
  }

  ghost predicate DemandSchedule(refs: seq<int>, n: nat, c: seq<set<int>>) {
    && |c| == |refs| + 1
    && c[0] == {}
    && forall i :: 0 <= i < |refs| ==> Demand(c[i], refs[i], c[i + 1], n)
  }

  /** Faults among the first `i` references. */
  ghost function Faults(refs: seq<int>, c: seq<set<int>>, i: nat): nat
    requires i <= |refs| && i <= |c|
  {
    if i == 0 then 0
    else Faults(refs, c, i - 1) + if refs[i - 1] in c[i - 1] then 0 else 1
  }

  /** `f` is attained by some demand-paging schedule and beaten by no schedule at all. */
  ghost predicate MinFaults(refs: seq<int>, n: nat, f: nat) {
    && (exists c :: DemandSchedule(refs, n, c) && Faults(refs, c, |refs|) == f)
    && forall c :: Schedule(refs, n, c) ==> f <= Faults(refs, c, |refs|)
  }

  /** A demand-paging schedule never holds more than `n` pages, so it is a schedule. */
  lemma {:induction false} DemandIsSchedule(refs: seq<int>, n: nat, c: seq<set<int>>)
    requires n > 0 && DemandSchedule(refs, n, c)
    ensures Schedule(refs, n, c)
  {
    forall i | 0 <= i < |refs|
      ensures Serves(c[i], refs[i], c[i + 1], n)
    {
      DemandBound(refs, n, c, i);
      DemandBound(refs, n, c, i + 1);
      assert Demand(c[i], refs[i], c[i + 1], n);
    }
  }

  lemma {:induction false} DemandBound(refs: seq<int>, n: nat, c: seq<set<int>>, i: nat)
    requires n > 0 && DemandSchedule(refs, n, c) && i <= |refs|
    ensures |c[i]| <= n
  {
    if i > 0 {
      DemandBound(refs, n, c, i - 1);
      assert Demand(c[i - 1], refs[i - 1], c[i], n);
      if refs[i - 1] !in c[i - 1] && |c[i - 1]| == n {
        var v :| v in c[i - 1] && c[i] == c[i - 1] - {v} + {refs[i - 1]};
        assert |c[i - 1] - {v}| == n - 1;
      }
    }
  }

  /** More frames never hurt the optimum. */
  lemma {:induction false} MinFaultsMonotone(refs: seq<int>, n: nat, m: nat, f: nat, g: nat)
    requires 0 < n <= m
    requires MinFaults(refs, n, f) && MinFaults(refs, m, g)
    ensures g <= f
  {
    var c :| DemandSchedule(refs, n, c) && Faults(refs, c, |refs|) == f;
    DemandIsSchedule(refs, n, c);
    assert forall i :: 0 <= i < |refs| ==> Serves(c[i], refs[i], c[i + 1], n);
    assert Schedule(refs, m, c);
  }
}
