/** LRU by reuse distance: no frames, no time stamps. */
module LruModel {
  import opened PageModel
  import opened Sets

  /** The last use of `p` among the first `i` references, or -1. */
  ghost function Last(refs: seq<int>, i: nat, p: int): (r: int)
    requires i <= |refs|
    ensures -1 <= r < i
    ensures r >= 0 ==> refs[r] == p
    ensures forall k :: r < k < i ==> refs[k] != p
  {
    if i == 0 then -1
    else if refs[i - 1] == p then i - 1
    else Last(refs, i - 1, p)
  }

  /** The distinct pages referenced since the last use of `p`. */
  ghost function Since(refs: seq<int>, i: nat, p: int): set<int>
    requires i <= |refs|
  {
    set k | Last(refs, i, p) < k < i :: refs[k]
  }

  /** Reference `i` faults: the page is new, or at least `n` distinct other pages came in between. */
  ghost predicate LruFault(refs: seq<int>, n: nat, i: nat)
    requires i < |refs|
  {
    Last(refs, i, refs[i]) == -1 || |Since(refs, i, refs[i])| >= n
  }

  ghost function LruFaults(refs: seq<int>, n: nat, i: nat): nat
    requires i <= |refs|
  {
    if i == 0 then 0 else LruFaults(refs, n, i - 1) + if LruFault(refs, n, i - 1) then 1 else 0
  }

  /** The pages LRU holds after `i` references. */
  ghost function Resident(refs: seq<int>, n: nat, i: nat): set<int>
    requires i <= |refs|
  {
    set p | p in refs[..i] && |Since(refs, i, p)| < n
  }

  lemma {:induction false} Seen(refs: seq<int>, i: nat, p: int)
    requires i <= |refs|
    ensures p in refs[..i] <==> Last(refs, i, p) >= 0
  {
    if p in refs[..i] {
      var k :| 0 <= k < i && refs[k] == p;
    }
    var r := Last(refs, i, p);
    if r >= 0 {
      assert refs[..i][r] == p;
    }
  }

  /** A page used less recently has strictly more pages after it. */
  lemma {:induction false} OlderHasMore(refs: seq<int>, i: nat, p: int, q: int)
    requires i <= |refs| && Last(refs, i, p) < Last(refs, i, q)
    ensures Since(refs, i, q) + {q} <= Since(refs, i, p) && q !in Since(refs, i, q)
    ensures |Since(refs, i, q)| < |Since(refs, i, p)|
  {
    SubsetCard(Since(refs, i, q) + {q}, Since(refs, i, p));
  }

  lemma {:induction false} SinceStep(refs: seq<int>, i: nat, p: int)
    requires i < |refs|
    ensures Since(refs, i + 1, p) == if p == refs[i] then {} else Since(refs, i, p) + {refs[i]}
  {
    if p != refs[i] {
      forall q | q in Since(refs, i, p) + {refs[i]} ensures q in Since(refs, i + 1, p) {
        if q in Since(refs, i, p) {
          var k :| Last(refs, i, p) < k < i && refs[k] == q;
        }
      }
    }
  }

  /** The page just referenced lies in `Since` of exactly the pages used less recently. */
  lemma {:induction false} SinceContains(refs: seq<int>, i: nat, p: int, q: int)
    requires i <= |refs|
    ensures q in Since(refs, i, p) <==> Last(refs, i, p) < Last(refs, i, q)
  {
    if q in Since(refs, i, p) {
      var k :| Last(refs, i, p) < k < i && refs[k] == q;
    }
  }

  /** Everything used after a resident page is resident. */
  lemma {:induction false} SinceResident(refs: seq<int>, n: nat, i: nat, p: int)
    requires i <= |refs| && p in Resident(refs, n, i)
    ensures Since(refs, i, p) <= Resident(refs, n, i) - {p}
  {
    forall q | q in Since(refs, i, p)
      ensures q in Resident(refs, n, i) && q != p
    {
      SinceContains(refs, i, p, q);
      OlderHasMore(refs, i, p, q);
      Seen(refs, i, q);
    }
  }

  lemma {:induction false} FaultIffAbsent(refs: seq<int>, n: nat, i: nat)
    requires i < |refs|
    ensures LruFault(refs, n, i) <==> refs[i] !in Resident(refs, n, i)
  {
    Seen(refs, i, refs[i]);
  }

  lemma {:induction false} HitKeepsPage(refs: seq<int>, n: nat, i: nat, p: int)
    requires i < |refs| && refs[i] in Resident(refs, n, i) && p != refs[i]
    ensures p in Resident(refs, n, i + 1) <==> p in Resident(refs, n, i)
  {
    var x := refs[i];
    SinceStep(refs, i, p);
    SinceContains(refs, i, p, x);
    if p in refs[..i + 1] { assert p in refs[..i]; }
    SubsetCard(Since(refs, i, p), Since(refs, i + 1, p));
    if p in Resident(refs, n, i) && x !in Since(refs, i, p) {
      if Last(refs, i, p) == Last(refs, i, x) { Seen(refs, i, x); assert false; }
      OlderHasMore(refs, i, x, p);
    }
  }

  lemma {:induction false} HitKeeps(refs: seq<int>, n: nat, i: nat)
    requires i < |refs| && refs[i] in Resident(refs, n, i)
    ensures Resident(refs, n, i + 1) == Resident(refs, n, i)
  {
    var x := refs[i];
    forall p
      ensures p in Resident(refs, n, i + 1) <==> p in Resident(refs, n, i)
    {
      if p == x {
        SinceStep(refs, i, p);
        assert refs[..i + 1][i] == x;
      } else {
        HitKeepsPage(refs, n, i, p);
      }
    }
  }

  /** On a fault the newcomer joins, and only pages with at most `n - 2` later ones stay. */
  lemma {:induction false} FaultStep(refs: seq<int>, n: nat, i: nat, p: int)
    requires n > 0 && i < |refs| && refs[i] !in Resident(refs, n, i)
    ensures p in Resident(refs, n, i + 1) <==>
            p == refs[i] || (p in Resident(refs, n, i) && |Since(refs, i, p)| < n - 1)
  {
    var x := refs[i];
    SinceStep(refs, i, p);
    SinceContains(refs, i, p, x);
    if p != x {
      if p in refs[..i + 1] { assert p in refs[..i]; }
      SubsetCard(Since(refs, i, p), Since(refs, i + 1, p));
      Seen(refs, i, x);
      Seen(refs, i, p);
      if p in Resident(refs, n, i) && x in Since(refs, i, p) {
        OlderHasMore(refs, i, p, x);
        assert false;
      }
    } else {
      assert refs[..i + 1][i] == x;
    }
  }

  ghost predicate LeastRecent(refs: seq<int>, i: nat, c: set<int>, v: int)
    requires i <= |refs|
  {
    v in c && forall q :: q in c ==> Last(refs, i, v) <= Last(refs, i, q)
  }

  lemma {:induction false} RoomStep(refs: seq<int>, n: nat, i: nat, p: int)
    requires n > 0 && i < |refs| && refs[i] !in Resident(refs, n, i) && |Resident(refs, n, i)| < n
    ensures p in Resident(refs, n, i + 1) <==> p == refs[i] || p in Resident(refs, n, i)
  {
    FaultStep(refs, n, i, p);
    if p in Resident(refs, n, i) {
      SinceResident(refs, n, i, p);
      SubsetCard(Since(refs, i, p), Resident(refs, n, i) - {p});
    }
  }

  /** Reuse distance is LRU: with a free frame nothing leaves; otherwise exactly the least
      recently used page does. */
  lemma {:induction false} ResidentStep(refs: seq<int>, n: nat, i: nat)
    requires n > 0 && i < |refs| && refs[i] !in Resident(refs, n, i)
    requires |Resident(refs, n, i)| <= n
    ensures |Resident(refs, n, i)| < n ==>
              Resident(refs, n, i + 1) == Resident(refs, n, i) + {refs[i]}
    ensures |Resident(refs, n, i)| == n ==> forall v :: LeastRecent(refs, i, Resident(refs, n, i), v) ==>
              Resident(refs, n, i + 1) == Resident(refs, n, i) - {v} + {refs[i]}
  {
    var r, r' := Resident(refs, n, i), Resident(refs, n, i + 1);
    if |r| < n {
      forall p
        ensures p in r' <==> p in r + {refs[i]}
      {
        RoomStep(refs, n, i, p);
      }
    } else {
      forall v | LeastRecent(refs, i, r, v)
        ensures r' == r - {v} + {refs[i]}
      {
        forall p
          ensures p in r' <==> p in r - {v} + {refs[i]}
        {
          FullStep(refs, n, i, v, p);
        }
      }
    }
  }

  lemma {:induction false} FullStep(refs: seq<int>, n: nat, i: nat, v: int, p: int)
    requires n > 0 && i < |refs| && refs[i] !in Resident(refs, n, i) && |Resident(refs, n, i)| == n
    requires LeastRecent(refs, i, Resident(refs, n, i), v)
    ensures p in Resident(refs, n, i + 1) <==> p == refs[i] || (p in Resident(refs, n, i) && p != v)
  {
    FaultStep(refs, n, i, p);
    if p in Resident(refs, n, i) { LeastRecentLeaves(refs, n, i, v, p); }
  }

  lemma {:induction false} LeastRecentLeaves(refs: seq<int>, n: nat, i: nat, v: int, p: int)
    requires i <= |refs| && n > 0
    requires |Resident(refs, n, i)| == n
    requires LeastRecent(refs, i, Resident(refs, n, i), v) && p in Resident(refs, n, i)
    ensures |Since(refs, i, p)| < n - 1 <==> p != v
  {
    var r := Resident(refs, n, i);
    SinceResident(refs, n, i, p);
    SinceContains(refs, i, p, v);
    if p == v {
      forall q | q in r - {v} ensures q in Since(refs, i, v) {
        Seen(refs, i, q);
        SinceContains(refs, i, v, q);
      }
      assert Since(refs, i, v) == r - {v};
    } else {
      SubsetCard(Since(refs, i, p), r - {p} - {v});
    }
  }

  lemma {:induction false} ResidentBound(refs: seq<int>, n: nat, i: nat)
    requires n > 0 && i <= |refs|
    ensures |Resident(refs, n, i)| <= n
  {
    if i == 0 {
      assert Resident(refs, n, i) == {};
    } else {
      ResidentBound(refs, n, i - 1);
      DemandStep(refs, n, i - 1);
    }
  }

  /** One reference is a demand-paging step. */
  lemma {:induction false} DemandStep(refs: seq<int>, n: nat, i: nat)
    requires n > 0 && i < |refs| && |Resident(refs, n, i)| <= n
    ensures Demand(Resident(refs, n, i), refs[i], Resident(refs, n, i + 1), n)
    ensures |Resident(refs, n, i + 1)| <= n
  {
    var r := Resident(refs, n, i);
    if refs[i] in r {
      HitKeeps(refs, n, i);
    } else {
      ResidentStep(refs, n, i);
      if |r| == n {
        var u :| u in r;
        var v := LeastRecentExists(refs, i, r, u);
        EvictOne(r, refs[i], Resident(refs, n, i + 1), n, v);
      }
    }
  }

  lemma {:induction false} EvictOne(r: set<int>, p: int, r': set<int>, n: nat, v: int)
    requires |r| == n && p !in r && v in r && r' == r - {v} + {p}
    ensures Demand(r, p, r', n) && |r'| == n
  {
  }

  lemma {:induction false} LeastRecentExists(refs: seq<int>, i: nat, c: set<int>, u: int) returns (v: int)
    requires i <= |refs| && u in c
    ensures LeastRecent(refs, i, c, v)
    decreases Last(refs, i, u) + 1
  {
    if w :| w in c && Last(refs, i, w) < Last(refs, i, u) {
      v := LeastRecentExists(refs, i, c, w);
    } else {
      v := u;
    }
  }

  ghost function LruSchedule(refs: seq<int>, n: nat): (c: seq<set<int>>)
    ensures |c| == |refs| + 1
    ensures forall i :: 0 <= i <= |refs| ==> c[i] == Resident(refs, n, i)
  {
    seq(|refs| + 1, i requires 0 <= i <= |refs| => Resident(refs, n, i))
  }

  /** LRU is demand paging: it never evicts while a frame is free, and `LruFaults` is its count. */
  lemma {:induction false} LruIsDemand(refs: seq<int>, n: nat)
    requires n > 0
    ensures DemandSchedule(refs, n, LruSchedule(refs, n))
    ensures forall i :: 0 <= i <= |refs| ==> Faults(refs, LruSchedule(refs, n), i) == LruFaults(refs, n, i)
  {
    var c := LruSchedule(refs, n);
    assert c[0] == {};
    forall i | 0 <= i < |refs|
      ensures Demand(c[i], refs[i], c[i + 1], n)
    {
      ResidentBound(refs, n, i);
      DemandStep(refs, n, i);
    }
    forall i | 0 <= i <= |refs|
      ensures Faults(refs, c, i) == LruFaults(refs, n, i)
    {
      LruFaultsCount(refs, n, c, i);
    }
  }

  lemma {:induction false} LruFaultsCount(refs: seq<int>, n: nat, c: seq<set<int>>, i: nat)
    requires i <= |refs| < |c| && forall j :: 0 <= j <= |refs| ==> c[j] == Resident(refs, n, j)
    ensures Faults(refs, c, i) == LruFaults(refs, n, i)
  {
    if i > 0 {
      LruFaultsCount(refs, n, c, i - 1);
      FaultIffAbsent(refs, n, i - 1);
    }
  }

  /** Inclusion: at every moment a larger memory holds whatever a smaller one does, so
      LRU never faults more when frames are added. */
  lemma {:induction false} LruInclusion(refs: seq<int>, n: nat, m: nat, i: nat)
    requires n <= m && i <= |refs|
    ensures Resident(refs, n, i) <= Resident(refs, m, i)
    ensures LruFaults(refs, m, i) <= LruFaults(refs, n, i)
  {
    if i > 0 { LruInclusion(refs, n, m, i - 1); }
  }
}
