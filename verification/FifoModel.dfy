/** FIFO as the list of loads: a page is resident exactly while it is among the last `n` pages
    loaded. */
module FifoModel {
  import opened PageModel
  import opened Sets

  /** The last `n` pages of `ld`. */
  ghost function Window(ld: seq<int>, n: nat): set<int> {
    set j | 0 <= j < |ld| && |ld| - n <= j :: ld[j]
  }

  ghost function Load(ld: seq<int>, n: nat, x: int): seq<int> {
    if x in Window(ld, n) then ld else ld + [x]
  }

  /** The pages loaded by the first `i` references, in order. */
  ghost function Loads(refs: seq<int>, n: nat, i: nat): seq<int>
    requires i <= |refs|
  {
    if i == 0 then [] else Load(Loads(refs, n, i - 1), n, refs[i - 1])
  }

  ghost function FifoFaults(refs: seq<int>, n: nat, i: nat): nat
    requires i <= |refs|
  {
    |Loads(refs, n, i)|
  }

  ghost predicate Differ(ld: seq<int>, i: int, j: int)
    requires 0 <= i < |ld| && 0 <= j < |ld|
  {
    ld[i] != ld[j]
  }

  /** The last `n` pages are all different. */
  ghost predicate NoTwice(ld: seq<int>, n: nat) {
    forall i, j :: 0 <= i < j < |ld| && |ld| - n <= i ==> Differ(ld, i, j)
  }

  lemma {:induction false} LoadNoTwice(ld: seq<int>, n: nat, x: int)
    requires NoTwice(ld, n)
    ensures NoTwice(Load(ld, n, x), n)
  {
    var ld' := Load(ld, n, x);
    forall i, j | 0 <= i < j < |ld'| && |ld'| - n <= i
      ensures Differ(ld', i, j)
    {
      if j < |ld| { assert Differ(ld, i, j); }
    }
  }

  /** No page is held twice. */
  lemma {:induction false} NeverTwice(refs: seq<int>, n: nat, i: nat)
    requires i <= |refs|
    ensures NoTwice(Loads(refs, n, i), n)
  {
    var ld := [];
    for j := 0 to i
      invariant ld == Loads(refs, n, j) && NoTwice(ld, n)
    {
      LoadNoTwice(ld, n, refs[j]);
      ld := Load(ld, n, refs[j]);
    }
  }

  /** So any `m` of the newest loads are `m` pages. */
  lemma {:induction false} WindowCard(ld: seq<int>, n: nat, m: nat)
    requires NoTwice(ld, n) && m <= n && m <= |ld|
    ensures |Window(ld, m)| == m
  {
    if m == 0 {
      assert Window(ld, 0) == {};
    } else {
      var o := |ld| - m;
      WindowCard(ld, n, m - 1);
      assert ld[o] !in Window(ld, m - 1) by {
        forall j | o < j < |ld| ensures ld[j] != ld[o] {
          assert Differ(ld, o, j);
        }
      }
      WindowGrows(ld, m);
    }
  }

  lemma {:induction false} WindowGrows(ld: seq<int>, m: nat)
    requires 0 < m <= |ld|
    ensures Window(ld, m) == Window(ld, m - 1) + {ld[|ld| - m]}
  {
  }

  lemma {:induction false} WindowAll(ld: seq<int>, n: nat)
    requires |ld| <= n
    ensures Window(ld, n) == Window(ld, |ld|)
  {
  }

  /** Loading a page: it joins the last `n - 1`. */
  lemma {:induction false} WindowPush(ld: seq<int>, n: nat, x: int)
    requires n > 0
    ensures Window(ld + [x], n) == Window(ld, n - 1) + {x}
  {
    var ld' := ld + [x];
    forall p | p in Window(ld, n - 1) + {x} ensures p in Window(ld', n) {
      if p == x {
        assert ld'[|ld|] == x;
      } else {
        var j :| 0 <= j < |ld| && |ld| - (n - 1) <= j && ld[j] == p;
        assert ld'[j] == p;
      }
    }
  }

  /** One load: while there is room nothing leaves, afterwards exactly the page loaded longest ago. */
  lemma {:induction false} WindowStep(ld: seq<int>, n: nat, x: int)
    requires n > 0 && NoTwice(ld, n)
    ensures |Window(ld, n)| == if |ld| < n then |ld| else n
    ensures |ld| < n ==> Window(ld + [x], n) == Window(ld, n) + {x}
    ensures |ld| >= n ==> ld[|ld| - n] in Window(ld, n)
    ensures |ld| >= n && x !in Window(ld, n) ==> Window(ld + [x], n) == Window(ld, n) - {ld[|ld| - n]} + {x}
  {
    WindowPush(ld, n, x);
    if |ld| < n {
      WindowAll(ld, n);
      WindowAll(ld, n - 1);
      WindowCard(ld, n, |ld|);
    } else {
      WindowGrows(ld, n);
      WindowCard(ld, n, n);
      WindowCard(ld, n, n - 1);
    }
  }

  lemma {:induction false} LoadElements(ld: seq<int>, n: nat, x: int)
    ensures Elements(Load(ld, n, x)) == Elements(ld) + {x}
  {
    assert x in Window(ld, n) ==> x in ld;
  }

  lemma {:induction false} LoadDistinct(ld: seq<int>, n: nat, x: int)
    requires Distinct(ld) && |ld| <= n
    ensures Distinct(Load(ld, n, x))
  {
    assert forall j :: 0 <= j < |ld| ==> ld[j] in Window(ld, n);
  }

  /** The first `n` loads are different pages, so a frame stays free until `n` pages have come up. */
  lemma {:induction false} FreeUntil(refs: seq<int>, n: nat, i: nat)
    requires i <= |refs|
    ensures Elements(Loads(refs, n, i)) == Elements(refs[..i])
    ensures |Loads(refs, n, i)| <= n ==> Distinct(Loads(refs, n, i))
    ensures |Loads(refs, n, i)| >= n <==> |Elements(refs[..i])| >= n
  {
    var ld := Loads(refs, n, i);
    if i > 0 {
      FreeUntil(refs, n, i - 1);
      assert refs[..i] == refs[..i - 1] + [refs[i - 1]];
      LoadElements(Loads(refs, n, i - 1), n, refs[i - 1]);
      if |Loads(refs, n, i - 1)| <= n { LoadDistinct(Loads(refs, n, i - 1), n, refs[i - 1]); }
    }
    if |ld| < n {
      DistinctCard(ld);
    } else {
      NeverTwice(refs, n, i);
      WindowCard(ld, n, n);
      SubsetCard(Window(ld, n), Elements(ld));
    }
  }

  ghost function Held(refs: seq<int>, n: nat, i: nat): set<int>
    requires i <= |refs|
  {
    Window(Loads(refs, n, i), n)
  }

  ghost function FifoSchedule(refs: seq<int>, n: nat): (c: seq<set<int>>)
    ensures |c| == |refs| + 1
    ensures forall i :: 0 <= i <= |refs| ==> c[i] == Held(refs, n, i)
  {
    seq(|refs| + 1, i requires 0 <= i <= |refs| => Held(refs, n, i))
  }

  lemma {:induction false} FifoFaultsCount(refs: seq<int>, n: nat, c: seq<set<int>>, i: nat)
    requires i <= |refs| < |c| && forall j :: 0 <= j <= |refs| ==> c[j] == Held(refs, n, j)
    ensures Faults(refs, c, i) == FifoFaults(refs, n, i)
  {
    var ld := [];
    for j := 0 to i
      invariant ld == Loads(refs, n, j) && Faults(refs, c, j) == |ld|
    {
      assert c[j] == Window(ld, n);
      ld := Load(ld, n, refs[j]);
    }
  }

  lemma {:induction false} LoadIsDemand(ld: seq<int>, n: nat, x: int)
    requires n > 0 && NoTwice(ld, n)
    ensures Demand(Window(ld, n), x, Window(Load(ld, n, x), n), n)
  {
    WindowStep(ld, n, x);
    if |ld| >= n {
      var oldest := ld[|ld| - n];
      assert oldest in Window(ld, n);
    }
  }

  /** FIFO is demand paging: it never evicts while a frame is free.  The number of its loads is
      its fault count. */
  lemma {:induction false} FifoIsDemand(refs: seq<int>, n: nat)
    requires n > 0
    ensures DemandSchedule(refs, n, FifoSchedule(refs, n))
    ensures forall i :: 0 <= i <= |refs| ==> Faults(refs, FifoSchedule(refs, n), i) == FifoFaults(refs, n, i)
  {
    var c := FifoSchedule(refs, n);
    forall i | 0 <= i < |refs|
      ensures Demand(c[i], refs[i], c[i + 1], n)
    {
      NeverTwice(refs, n, i);
      LoadIsDemand(Loads(refs, n, i), n, refs[i]);
    }
    forall i | 0 <= i <= |refs|
      ensures Faults(refs, c, i) == FifoFaults(refs, n, i)
    {
      FifoFaultsCount(refs, n, c, i);
    }
  }
}
