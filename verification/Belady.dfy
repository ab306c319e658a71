/** Belady's policy: evict a page whose next use is farthest away.  Any schedule that follows
    it, whatever it does with ties, has the fewest faults on every prefix. */
module Belady {
  import opened PageModel
  import opened Sets

  /** The first use of `p` at or after position `i`, or `|refs|` when there is none. */
  ghost function Next(refs: seq<int>, i: nat, p: int): (r: nat)
    requires i <= |refs|
    ensures i <= r <= |refs|
    ensures r < |refs| ==> refs[r] == p
    ensures forall k :: i <= k < r ==> refs[k] != p
    decreases |refs| - i
  {
    if i == |refs| then i
    else if refs[i] == p then i
    else Next(refs, i + 1, p)
  }

  ghost predicate Farthest(refs: seq<int>, i: nat, c: set<int>, v: int)
    requires i <= |refs|
  {
    v in c && forall q :: q in c ==> Next(refs, i, q) <= Next(refs, i, v)
  }

  /** Reference `i` under Belady's rule. */
  ghost predicate BeladyStep(refs: seq<int>, i: nat, before: set<int>, after: set<int>, n: nat)
    requires i < |refs|
  {
    if refs[i] in before then after == before
    else if |before| < n then after == before + {refs[i]}
    else exists v :: Farthest(refs, i + 1, before, v) && after == before - {v} + {refs[i]}
  }

  ghost predicate BeladySchedule(refs: seq<int>, n: nat, c: seq<set<int>>) {
    && |c| == |refs| + 1
    && c[0] == {}
    && forall i :: 0 <= i < |refs| ==> BeladyStep(refs, i, c[i], c[i + 1], n)
  }

  /** The pages of `x` that are next used before `t`. */
  ghost function Soon(refs: seq<int>, i: nat, x: set<int>, t: nat): set<int>
    requires i <= |refs|
  {
    set p | p in x && Next(refs, i, p) < t
  }

  /** The invariant behind optimality: whatever the horizon `t`, each page the rival holds
      beyond ours with a use before `t` has been paid for by a fault. */
  ghost predicate Ahead(refs: seq<int>, i: nat, o: set<int>, s: set<int>, fo: nat, fs: nat)
    requires i <= |refs|
  {
    forall t: nat :: i <= t ==> fo + |Soon(refs, i, s, t)| <= fs + |Soon(refs, i, o, t)|
  }

  lemma {:induction false} SoonBefore(refs: seq<int>, i: nat, x: set<int>, t: nat)
    requires i < |refs| && i < t
    ensures |Soon(refs, i, x, t)| ==
            |Soon(refs, i + 1, x - {refs[i]}, t)| + if refs[i] in x then 1 else 0
  {
    var rest := Soon(refs, i + 1, x - {refs[i]}, t);
    if refs[i] in x {
      assert Soon(refs, i, x, t) == rest + {refs[i]};
    } else {
      assert Soon(refs, i, x, t) == rest;
    }
  }

  lemma {:induction false} SoonAfter(refs: seq<int>, i: nat, x: set<int>, p: int, t: nat)
    requires i <= |refs| && p in x
    ensures |Soon(refs, i, x, t)| ==
            |Soon(refs, i, x - {p}, t)| + if Next(refs, i, p) < t then 1 else 0
  {
    var rest := Soon(refs, i, x - {p}, t);
    if Next(refs, i, p) < t {
      assert Soon(refs, i, x, t) == rest + {p};
    } else {
      assert Soon(refs, i, x, t) == rest;
    }
  }

  lemma {:induction false} SoonSubset(refs: seq<int>, i: nat, x: set<int>, y: set<int>, t: nat)
    requires i <= |refs| && x <= y
    ensures |Soon(refs, i, x, t)| <= |Soon(refs, i, y, t)|
  {
    SubsetCard(Soon(refs, i, x, t), Soon(refs, i, y, t));
  }

  lemma {:induction false} AheadStepAt(refs: seq<int>, n: nat, i: nat, o: set<int>, o': set<int>, s: set<int>,
                                       s': set<int>, fo: nat, fs: nat, t: nat)
    requires n > 0 && i < |refs| && i < t
    requires Ahead(refs, i, o, s, fo, fs)
    requires |o| <= n && BeladyStep(refs, i, o, o', n) && Serves(s, refs[i], s', n)
    ensures (if refs[i] in o then fo else fo + 1) + |Soon(refs, i + 1, s', t)|
         <= (if refs[i] in s then fs else fs + 1) + |Soon(refs, i + 1, o', t)|
  {
    AheadElsewhere(refs, n, i, o, o', s, s', fo, fs, t);
    SoonAfter(refs, i + 1, s', refs[i], t);
    SoonAfter(refs, i + 1, o', refs[i], t);
  }

  /** The same without the page just referenced, which both hold now. */
  lemma {:induction false} AheadElsewhere(refs: seq<int>, n: nat, i: nat, o: set<int>, o': set<int>, s: set<int>,
                                          s': set<int>, fo: nat, fs: nat, t: nat)
    requires n > 0 && i < |refs| && i < t
    requires Ahead(refs, i, o, s, fo, fs)
    requires |o| <= n && BeladyStep(refs, i, o, o', n) && Serves(s, refs[i], s', n)
    ensures (if refs[i] in o then fo else fo + 1) + |Soon(refs, i + 1, s' - {refs[i]}, t)|
         <= (if refs[i] in s then fs else fs + 1) + |Soon(refs, i + 1, o' - {refs[i]}, t)|
  {
    var p := refs[i];
    SoonBefore(refs, i, s, t);
    SoonBefore(refs, i, o, t);
    SoonSubset(refs, i + 1, s' - {p}, s - {p}, t);
    assert fo + |Soon(refs, i, s, t)| <= fs + |Soon(refs, i, o, t)|;
    if p in o || |o| < n {
      assert o' - {p} == o - {p};
    } else {
      var v :| Farthest(refs, i + 1, o, v) && o' == o - {v} + {p};
      assert o' - {p} == o - {v} && o - {p} == o;
      SoonAfter(refs, i + 1, o, v, t);
      if Next(refs, i + 1, v) < t {
        EvictionWithinHorizon(refs, n, i, o, s, s', v, fo, fs, t);
      }
    }
  }

  /** The only hard case: our victim would itself be used before `t`.  Then so would every page
      we hold, and the rival cannot hold more. */
  lemma {:induction false} EvictionWithinHorizon(refs: seq<int>, n: nat, i: nat, o: set<int>, s: set<int>,
                                                 s': set<int>, v: int, fo: nat, fs: nat, t: nat)
    requires n > 0 && i < |refs| && i < t && |o| == n && refs[i] !in o
    requires Ahead(refs, i, o, s, fo, fs)
    requires Farthest(refs, i + 1, o, v) && Next(refs, i + 1, v) < t
    requires Serves(s, refs[i], s', n)
    ensures |Soon(refs, i + 1, o, t)| == n
    ensures |Soon(refs, i + 1, s' - {refs[i]}, t)| <= n - 1
    ensures fo + (if refs[i] in s then 1 else 0) <= fs
  {
    assert Soon(refs, i + 1, o, t) == o;
    SubsetCard(Soon(refs, i + 1, s' - {refs[i]}, t), s' - {refs[i]});
    assert fo + |Soon(refs, i, s, i + 1)| <= fs + |Soon(refs, i, o, i + 1)|;
    assert Soon(refs, i, o, i + 1) == {} by {
      forall q | q in o ensures Next(refs, i, q) >= i + 1 { }
    }
    if refs[i] in s {
      assert refs[i] in Soon(refs, i, s, i + 1);
      SubsetCard({refs[i]}, Soon(refs, i, s, i + 1));
    }
  }

  lemma {:induction false} AheadAlways(refs: seq<int>, n: nat, o: seq<set<int>>, s: seq<set<int>>, i: nat)
    requires n > 0 && BeladySchedule(refs, n, o) && Schedule(refs, n, s) && i <= |refs|
    ensures Ahead(refs, i, o[i], s[i], Faults(refs, o, i), Faults(refs, s, i))
  {
    if i == 0 {
      AheadStart(refs);
    } else {
      AheadAlways(refs, n, o, s, i - 1);
      AheadNext(refs, n, o, s, i - 1);
    }
  }

  lemma {:induction false} AheadStart(refs: seq<int>)
    ensures Ahead(refs, 0, {}, {}, 0, 0)
  {
    assert forall t: nat :: Soon(refs, 0, {}, t) == {};
  }

  lemma {:induction false} AheadNext(refs: seq<int>, n: nat, o: seq<set<int>>, s: seq<set<int>>, i: nat)
    requires n > 0 && BeladySchedule(refs, n, o) && Schedule(refs, n, s) && i < |refs|
    requires Ahead(refs, i, o[i], s[i], Faults(refs, o, i), Faults(refs, s, i))
    ensures Ahead(refs, i + 1, o[i + 1], s[i + 1], Faults(refs, o, i + 1), Faults(refs, s, i + 1))
  {
    BeladyIsDemand(refs, n, o);
    DemandBound(refs, n, o, i);
    assert BeladyStep(refs, i, o[i], o[i + 1], n) && Serves(s[i], refs[i], s[i + 1], n);
    var u := i + 1;
    forall t: nat | u <= t
      ensures Faults(refs, o, u) + |Soon(refs, u, s[u], t)| <= Faults(refs, s, u) + |Soon(refs, u, o[u], t)|
    {
      AheadStepAt(refs, n, i, o[i], o[i + 1], s[i], s[i + 1], Faults(refs, o, i), Faults(refs, s, i), t);
    }
  }

  lemma {:induction false} BeladyIsDemand(refs: seq<int>, n: nat, o: seq<set<int>>)
    requires BeladySchedule(refs, n, o)
    ensures DemandSchedule(refs, n, o)
  {
    forall i | 0 <= i < |refs|
      ensures Demand(o[i], refs[i], o[i + 1], n)
    {
      assert BeladyStep(refs, i, o[i], o[i + 1], n);
    }
  }

  /** Belady's rule is optimal: on every prefix it faults no more often than any schedule with
      the same number of frames. */
  lemma {:induction false} BeladyOptimal(refs: seq<int>, n: nat, o: seq<set<int>>, s: seq<set<int>>, i: nat)
    requires n > 0 && BeladySchedule(refs, n, o) && Schedule(refs, n, s) && i <= |refs|
    ensures Faults(refs, o, i) <= Faults(refs, s, i)
  {
    AheadAlways(refs, n, o, s, i);
    assert Soon(refs, i, s[i], i) == {} && Soon(refs, i, o[i], i) == {};
    assert Faults(refs, o, i) + |Soon(refs, i, s[i], i)| <= Faults(refs, s, i) + |Soon(refs, i, o[i], i)|;
  }

  lemma {:induction false} BeladyMinFaults(refs: seq<int>, n: nat, o: seq<set<int>>)
    requires n > 0 && BeladySchedule(refs, n, o)
    ensures MinFaults(refs, n, Faults(refs, o, |refs|))
  {
    BeladyIsDemand(refs, n, o);
    forall s | Schedule(refs, n, s)
      ensures Faults(refs, o, |refs|) <= Faults(refs, s, |refs|)
    {
      BeladyOptimal(refs, n, o, s, |refs|);
    }
  }
}
