/** Sums of the entries of a sequence at a set of positions. */
module SumOver {
  /** The entries `x[i]` with `i` in `k` and `i < n`, added up. */
  ghost function Sum(x: seq<int>, k: set<int>, n: nat): int
    requires n <= |x|
  {
    if n == 0 then 0 else Sum(x, k, n - 1) + if n - 1 in k then x[n - 1] else 0
  }

  lemma {:induction false} SumUpdate(x: seq<int>, k: set<int>, n: nat, c: nat, v: int)
    requires n <= |x| && c < |x|
    ensures Sum(x[c := v], k, n) == Sum(x, k, n) + if c in k && c < n then v - x[c] else 0
  {
    if n > 0 { SumUpdate(x, k, n - 1, c, v); }
  }

  lemma {:induction false} SumDisjoint(x: seq<int>, k: set<int>, m: set<int>, n: nat)
    requires n <= |x| && k !! m
    ensures Sum(x, k + m, n) == Sum(x, k, n) + Sum(x, m, n)
  {
    if n > 0 { SumDisjoint(x, k, m, n - 1); }
  }

  lemma {:induction false} SumSingleton(x: seq<int>, c: nat, n: nat)
    requires n <= |x| && c < |x|
    ensures Sum(x, {c}, n) == if c < n then x[c] else 0
  {
    if n > 0 { SumSingleton(x, c, n - 1); }
  }

  lemma {:induction false} SumAgree(x: seq<int>, y: seq<int>, k: set<int>, n: nat)
    requires n <= |x| && n <= |y|
    requires forall i :: i in k && 0 <= i < n ==> x[i] == y[i]
    ensures Sum(x, k, n) == Sum(y, k, n)
  {
    if n > 0 { SumAgree(x, y, k, n - 1); }
  }

  lemma {:induction false} SumAtMost(x: seq<int>, y: seq<int>, k: set<int>, n: nat)
    requires n <= |x| && n <= |y|
    requires forall i :: i in k && 0 <= i < n ==> x[i] <= y[i]
    ensures Sum(x, k, n) <= Sum(y, k, n)
  {
    if n > 0 { SumAtMost(x, y, k, n - 1); }
  }

  /** Of nonnegative entries the sum is nonnegative, and zero only if all of them are. */
  lemma {:induction false} SumZero(x: seq<int>, k: set<int>, n: nat)
    requires n <= |x| && forall i :: i in k && 0 <= i < n ==> x[i] >= 0
    ensures Sum(x, k, n) >= 0
    ensures Sum(x, k, n) == 0 <==> forall i :: i in k && 0 <= i < n ==> x[i] == 0
  {
    if n > 0 { SumZero(x, k, n - 1); }
  }

  lemma {:induction false} SumExchange(x: seq<int>, k: set<int>, n: nat, a: nat, b: nat)
    requires n <= |x| && a < n && b < n && a in k && b !in k
    ensures |k - {a} + {b}| == |k|
    ensures Sum(x, k - {a} + {b}, n) == Sum(x, k, n) - x[a] + x[b]
  {
    SumDisjoint(x, k - {a}, {b}, n);
    SumDisjoint(x, k - {a}, {a}, n);
    SumSingleton(x, a, n);
    SumSingleton(x, b, n);
    assert k - {a} + {a} == k;
  }
}
