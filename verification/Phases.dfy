/** The phase argument: cut the string greedily into runs of `k` distinct pages.  LRU and FIFO with
    `k` frames pay at most `k` times per phase; a schedule with `h` frames pays `k - h + 1` times. */
module Phases {
  import opened PageModel
  import opened Sets
  import L = LruModel
  import F = FifoModel

  /** The open phase: how many were closed before it, and the distinct pages it holds so far. */
  datatype Phase = Phase(closed: nat, pages: set<int>)

  ghost function Extend(ph: Phase, k: nat, p: int): Phase {
    if p in ph.pages then ph
    else if |ph.pages| < k then Phase(ph.closed, ph.pages + {p})
    else Phase(ph.closed + 1, {p})
  }

  ghost function PhaseOf(refs: seq<int>, k: nat, i: nat): (ph: Phase)
    requires i <= |refs|
  {
    if i == 0 then Phase(0, {}) else Extend(PhaseOf(refs, k, i - 1), k, refs[i - 1])
  }

  lemma {:induction false} PhaseSize(refs: seq<int>, k: nat, i: nat)
    requires 0 < k && i <= |refs|
    ensures |PhaseOf(refs, k, i).pages| <= k
    ensures i > 0 ==> refs[i - 1] in PhaseOf(refs, k, i).pages
  {
    if i > 0 { PhaseSize(refs, k, i - 1); }
  }

  /** `k` for each of `n`.  The bounds below are added up with it; products are only taken at the end. */
  ghost function Budget(k: nat, n: nat): nat {
    if n == 0 then 0 else Budget(k, n - 1) + k
  }

  lemma {:induction false} BudgetProduct(k: nat, n: nat)
    ensures Budget(k, n) == k * n
  {
    if n > 0 {
      BudgetProduct(k, n - 1);
      assert k * (n - 1) + k == k * n;
    }
  }

  lemma {:induction false} BudgetSum(k: nat, x: nat, y: nat)
    ensures Budget(k, x + y) == Budget(k, x) + Budget(k, y)
  {
    if y > 0 { BudgetSum(k, x, y - 1); }
  }

  lemma {:induction false} BudgetMonotone(k: nat, k': nat, n: nat, n': nat)
    requires k <= k' && n <= n'
    ensures Budget(k, n) <= Budget(k', n')
    decreases n'
  {
    if n' > n { BudgetMonotone(k, k', n, n' - 1); } else if n > 0 { BudgetMonotone(k, k', n - 1, n' - 1); }
  }

  lemma {:induction false} BudgetSwap(a: nat, k: nat, n: nat)
    ensures Budget(a, Budget(k, n)) == Budget(k, Budget(a, n))
  {
    if n > 0 {
      BudgetSwap(a, k, n - 1);
      BudgetSum(a, Budget(k, n - 1), k);
      BudgetSum(k, Budget(a, n - 1), a);
      BudgetCommutes(a, k);
    }
  }

  lemma {:induction false} BudgetCommutes(a: nat, k: nat)
    ensures Budget(a, k) == Budget(k, a)
  {
    BudgetProduct(a, k);
    BudgetProduct(k, a);
  }

  ghost function Excess(pages: set<int>, h: nat): nat {
    if |pages| <= h then 0 else |pages| - h
  }

  /** Lower bound: with `h` frames every closed phase costs `k - h + 1` faults.  The open phase has
      cost as many as its pages and the held ones together exceed the frames, and there is one more. */
  lemma {:induction false} EveryPhaseCosts(refs: seq<int>, k: nat, h: nat, c: seq<set<int>>, i: nat)
    requires 0 < h <= k && Schedule(refs, h, c) && 0 < i <= |refs|
    ensures var ph := PhaseOf(refs, k, i);
            Faults(refs, c, i) >= Budget(k - h + 1, ph.closed) + 1 + Excess(ph.pages + c[i], h)
  {
    var ph, ph' := PhaseOf(refs, k, i - 1), PhaseOf(refs, k, i);
    assert Serves(c[i - 1], refs[i - 1], c[i], h);
    if i == 1 {
      assert PhaseOf(refs, k, 0) == Phase(0, {});
      assert Faults(refs, c, 1) == Faults(refs, c, 0) + 1;
      assert ph'.pages + c[1] == c[1];
    } else {
      EveryPhaseCosts(refs, k, h, c, i - 1);
      PhaseSize(refs, k, i - 1);
      CostStep(k, h, ph, c[i - 1], refs[i - 1], c[i]);
    }
  }

  /** One reference: a hit exceeds nothing new, a fault pays for one page more, and a phase that
      closes leaves only what the frames hold. */
  lemma {:induction false} CostStep(k: nat, h: nat, ph: Phase, x: set<int>, p: int, x': set<int>)
    requires 0 < h <= k && Serves(x, p, x', h) && |ph.pages| <= k
    ensures var ph' := Extend(ph, k, p);
            Budget(k - h + 1, ph'.closed) + Excess(ph'.pages + x', h) <=
            Budget(k - h + 1, ph.closed) + Excess(ph.pages + x, h) + if p in x then 0 else 1
  {
    var ph' := Extend(ph, k, p);
    if ph'.closed == ph.closed {
      SubsetCard(ph'.pages + x', ph.pages + x + {p});
    } else {
      assert ph'.pages + x' == x';
      SubsetCard(if p in x then ph.pages + {p} else ph.pages, ph.pages + x);
    }
  }

  /** Every page of `d` was used after every page outside it. */
  ghost predicate Newest(refs: seq<int>, i: nat, d: set<int>)
    requires i <= |refs|
  {
    forall p, q :: p in d && q !in d ==> L.Last(refs, i, q) < L.Last(refs, i, p)
  }

  lemma {:induction false} NewestStep(refs: seq<int>, i: nat, ph: Phase, k: nat)
    requires i < |refs| && Newest(refs, i, ph.pages)
    ensures Newest(refs, i + 1, Extend(ph, k, refs[i]).pages)
  {
  }

  /** The pages of the open phase are the most recently used ones. */
  lemma {:induction false} PhaseNewest(refs: seq<int>, k: nat, i: nat)
    requires i <= |refs|
    ensures Newest(refs, i, PhaseOf(refs, k, i).pages)
  {
    var ph := Phase(0, {});
    for j := 0 to i
      invariant ph == PhaseOf(refs, k, j) && Newest(refs, j, ph.pages)
    {
      NewestStep(refs, j, ph, k);
      ph := Extend(ph, k, refs[j]);
    }
  }

  /** Hence they are resident under LRU. */
  lemma {:induction false} LruPhaseResident(refs: seq<int>, k: nat, i: nat)
    requires 0 < k && i < |refs| && refs[i] in PhaseOf(refs, k, i).pages
    ensures !L.LruFault(refs, k, i)
  {
    var x, d := refs[i], PhaseOf(refs, k, i).pages;
    PhaseSize(refs, k, i);
    PhaseSeen(refs, k, i);
    PhaseNewest(refs, k, i);
    L.Seen(refs, i, x);
    forall q | q in L.Since(refs, i, x)
      ensures q in d - {x}
    {
      L.SinceContains(refs, i, x, q);
    }
    SubsetCard(L.Since(refs, i, x), d - {x});
  }

  lemma {:induction false} PhaseSeen(refs: seq<int>, k: nat, i: nat)
    requires i <= |refs|
    ensures forall p :: p in PhaseOf(refs, k, i).pages ==> p in refs[..i]
  {
    if i > 0 {
      PhaseSeen(refs, k, i - 1);
      forall p | p in PhaseOf(refs, k, i).pages
        ensures p in refs[..i]
      {
        if p == refs[i - 1] { assert refs[..i][i - 1] == p; }
        else { assert p in refs[..i - 1]; }
      }
    }
  }

  /** At most `k` faults are charged to a phase by the time it closes. */
  lemma {:induction false} ChargeStep(k: nat, f: nat, f': nat, closed: nat, closed': nat, open: nat, open': nat)
    requires f <= Budget(k, closed) + open && open <= k
    requires closed' == closed || closed' == closed + 1
    requires f' - f <= open' - if closed' == closed then open else 0
    ensures f' <= Budget(k, closed') + open'
  {
  }

  lemma {:induction false} LruPhaseStep(refs: seq<int>, k: nat, i: nat)
    requires 0 < k && i < |refs|
    ensures var ph, ph' := PhaseOf(refs, k, i), PhaseOf(refs, k, i + 1);
            && (ph'.closed == ph.closed || ph'.closed == ph.closed + 1)
            && L.LruFaults(refs, k, i + 1) - L.LruFaults(refs, k, i) <=
               |ph'.pages| - if ph'.closed == ph.closed then |ph.pages| else 0
  {
    if refs[i] in PhaseOf(refs, k, i).pages { LruPhaseResident(refs, k, i); }
  }

  /** Upper bound for LRU: each page of the open phase faulted at most once. */
  lemma {:induction false} LruPerPhase(refs: seq<int>, k: nat, i: nat)
    requires 0 < k && i <= |refs|
    ensures L.LruFaults(refs, k, i) <= Budget(k, PhaseOf(refs, k, i).closed) + |PhaseOf(refs, k, i).pages|
  {
    var f, ph := 0, Phase(0, {});
    for j := 0 to i
      invariant f == L.LruFaults(refs, k, j) && ph == PhaseOf(refs, k, j)
      invariant f <= Budget(k, ph.closed) + |ph.pages|
    {
      LruPhaseStep(refs, k, j);
      PhaseSize(refs, k, j);
      var f', ph' := L.LruFaults(refs, k, j + 1), PhaseOf(refs, k, j + 1);
      ChargeStep(k, f, f', ph.closed, ph'.closed, |ph.pages|, |ph'.pages|);
      f, ph := f', ph';
    }
  }

  /** `l` faults with `k` frames against `f` with `h`. */
  ghost predicate Competes(k: nat, h: nat, l: nat, f: nat)
    requires 0 < h <= k
  {
    (k - h + 1) * l <= k * f + (h - 1) * (k - h)
  }

  /** A full open phase: `h` pages of it, then one for each page over. */
  lemma {:induction false} OpenPhase(k: nat, h: nat, open: nat, over: nat)
    requires 0 < h <= k && over == if open <= h then 0 else open - h
    ensures Budget(k - h + 1, open) <= k + Budget(k, over) + Budget(h - 1, k - h)
  {
    var d := k - h;
    BudgetMonotone(d + 1, d + 1, open, h + over);
    BudgetSum(d + 1, h, over);
    BudgetMonotone(d + 1, k, over, over);
    BudgetCommutes(d + 1, h - 1);
    BudgetSum(h - 1, d, 1);
    assert Budget(h - 1, 1) == Budget(h - 1, 0) + (h - 1);
  }

  /** What the two bounds give together, when `open` pages of the open phase have been charged. */
  lemma {:induction false} Compared(k: nat, h: nat, closed: nat, open: nat, over: nat, l: nat, f: nat)
    requires 0 < h <= k && over == if open <= h then 0 else open - h
    requires l <= Budget(k, closed) + open
    requires f >= Budget(k - h + 1, closed) + 1 + over
    ensures Budget(k - h + 1, l) <= Budget(k, f) + Budget(h - 1, k - h)
  {
    var a := k - h + 1;
    BudgetMonotone(a, a, l, Budget(k, closed) + open);
    BudgetSum(a, Budget(k, closed), open);
    BudgetSwap(a, k, closed);
    OpenPhase(k, h, open, over);
    BudgetMonotone(k, k, Budget(a, closed) + 1 + over, f);
    BudgetSum(k, Budget(a, closed) + 1, over);
    BudgetSum(k, Budget(a, closed), 1);
    assert Budget(k, 1) == Budget(k, 0) + k;
  }

  /** Both counts after `i` references, when the open phase has been charged with `open` faults. */
  lemma {:induction false} BoundsMeet(refs: seq<int>, k: nat, h: nat, c: seq<set<int>>, i: nat, open: nat, l: nat)
    requires 0 < h <= k && Schedule(refs, h, c) && i <= |refs|
    requires open <= |PhaseOf(refs, k, i).pages| && l <= Budget(k, PhaseOf(refs, k, i).closed) + open
    ensures Budget(k - h + 1, l) <= Budget(k, Faults(refs, c, i)) + Budget(h - 1, k - h)
  {
    if i == 0 {
      assert l == 0;
    } else {
      var ph := PhaseOf(refs, k, i);
      EveryPhaseCosts(refs, k, h, c, i);
      SubsetCard(ph.pages, ph.pages + c[i]);
      Compared(k, h, ph.closed, open, if open <= h then 0 else open - h, l, Faults(refs, c, i));
    }
  }

  lemma {:induction false} InProducts(k: nat, h: nat, l: nat, f: nat)
    requires 0 < h <= k && Budget(k - h + 1, l) <= Budget(k, f) + Budget(h - 1, k - h)
    ensures Competes(k, h, l, f)
  {
    BudgetProduct(k - h + 1, l);
    BudgetProduct(k, f);
    BudgetProduct(h - 1, k - h);
  }

  /** LRU with `k` frames against any schedule with `h` of them: at most `k / (k - h + 1)` times as
      many faults and a constant; `k` times as many when the memories are equal. */
  lemma {:induction false} LruCompetitive(refs: seq<int>, k: nat, h: nat, c: seq<set<int>>, i: nat)
    requires 0 < h <= k && Schedule(refs, h, c) && i <= |refs|
    ensures Competes(k, h, L.LruFaults(refs, k, i), Faults(refs, c, i))
  {
    LruPerPhase(refs, k, i);
    BoundsMeet(refs, k, h, c, i, |PhaseOf(refs, k, i).pages|, L.LruFaults(refs, k, i));
    InProducts(k, h, L.LruFaults(refs, k, i), Faults(refs, c, i));
  }

  /** The last `m` loads are different pages of `d`. */
  ghost predicate LastLoadsIn(ld: seq<int>, m: nat, d: set<int>) {
    m <= |ld| && m <= |d| && F.Window(ld, m) <= d
  }

  lemma {:induction false} WindowInside(ld: seq<int>, m: nat, k: nat)
    requires m <= k
    ensures F.Window(ld, m) <= F.Window(ld, k)
  {
  }

  /** A page of the open phase that faults is not among the phase's own loads, so there is room
      for one more. */
  lemma {:induction false} RoomForLoad(ld: seq<int>, k: nat, x: int, m: nat, d: set<int>)
    requires LastLoadsIn(ld, m, d) && m <= k && F.NoTwice(ld, k)
    requires x in d && x !in F.Window(ld, k)
    ensures m + 1 <= |d| && LastLoadsIn(ld + [x], m + 1, d)
  {
    F.WindowCard(ld, k, m);
    WindowInside(ld, m, k);
    SubsetCard(F.Window(ld, m) + {x}, d);
    F.WindowPush(ld, m + 1, x);
  }

  /** One load: it is charged to the open phase, which starts afresh when it closes. */
  lemma {:induction false} LoadCharged(ld: seq<int>, k: nat, x: int, m: nat, ph: Phase, ph': Phase) returns (m': nat)
    requires LastLoadsIn(ld, m, ph.pages) && |ph.pages| <= k && F.NoTwice(ld, k) && ph' == Extend(ph, k, x)
    requires |ld| <= Budget(k, ph.closed) + m
    ensures LastLoadsIn(F.Load(ld, k, x), m', ph'.pages)
    ensures |F.Load(ld, k, x)| <= Budget(k, ph'.closed) + m'
  {
    m' := LoadCounted(ld, k, x, m, ph, ph');
    ChargeStep(k, |ld|, |F.Load(ld, k, x)|, ph.closed, ph'.closed, m, m');
  }

  lemma {:induction false} LoadCounted(ld: seq<int>, k: nat, x: int, m: nat, ph: Phase, ph': Phase) returns (m': nat)
    requires LastLoadsIn(ld, m, ph.pages) && |ph.pages| <= k && F.NoTwice(ld, k) && ph' == Extend(ph, k, x)
    ensures var ld' := F.Load(ld, k, x);
            && LastLoadsIn(ld', m', ph'.pages)
            && |ld'| - |ld| <= m' - if ph'.closed == ph.closed then m else 0
  {
    if ph'.closed > ph.closed {
      m' := if x in F.Window(ld, k) then 0 else 1;
      assert F.Window(F.Load(ld, k, x), 0) == {};
      F.WindowPush(ld, 1, x);
      assert F.Window(ld, 0) == {};
    } else {
      SubsetCard(ph.pages, ph'.pages);
      m' := m;
      if x !in F.Window(ld, k) {
        RoomForLoad(ld, k, x, m, ph'.pages);
        m' := m + 1;
      }
    }
  }

  /** Upper bound for FIFO: `m` loads belong to the open phase, and they are the newest ones. */
  lemma {:induction false} FifoPerPhase(refs: seq<int>, k: nat, i: nat) returns (m: nat)
    requires 0 < k && i <= |refs|
    ensures F.FifoFaults(refs, k, i) <= Budget(k, PhaseOf(refs, k, i).closed) + m
    ensures m <= |PhaseOf(refs, k, i).pages|
  {
    var ld, ph := [], Phase(0, {});
    m := 0;
    for j := 0 to i
      invariant ld == F.Loads(refs, k, j) && ph == PhaseOf(refs, k, j)
      invariant LastLoadsIn(ld, m, ph.pages) && |ld| <= Budget(k, ph.closed) + m
    {
      F.NeverTwice(refs, k, j);
      PhaseSize(refs, k, j);
      m := LoadCharged(ld, k, refs[j], m, ph, Extend(ph, k, refs[j]));
      ld, ph := F.Load(ld, k, refs[j]), Extend(ph, k, refs[j]);
    }
  }

  /** The same bound for FIFO. */
  lemma {:induction false} FifoCompetitive(refs: seq<int>, k: nat, h: nat, c: seq<set<int>>, i: nat)
    requires 0 < h <= k && Schedule(refs, h, c) && i <= |refs|
    ensures Competes(k, h, F.FifoFaults(refs, k, i), Faults(refs, c, i))
  {
    var m := FifoPerPhase(refs, k, i);
    BoundsMeet(refs, k, h, c, i, m, F.FifoFaults(refs, k, i));
    InProducts(k, h, F.FifoFaults(refs, k, i), Faults(refs, c, i));
  }
}
