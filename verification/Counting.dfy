/** How many entries of a sequence equal a given value: the threads in a given place. */
module Counting {
  ghost function Count<T>(t: seq<T>, y: T): nat {
    if t == [] then 0 else Count(t[..|t| - 1], y) + if t[|t| - 1] == y then 1 else 0
  }

  lemma {:induction false} CountSnoc<T>(t: seq<T>, x: T)
    ensures forall y :: Count(t + [x], y) == Count(t, y) + if x == y then 1 else 0
  {
    assert (t + [x])[..|t|] == t;
  }

  lemma {:induction false} CountUpdate<T>(t: seq<T>, i: nat, x: T, y: T)
    requires i < |t|
    ensures Count(t[i := x], y) == Count(t, y) - (if t[i] == y then 1 else 0) + if x == y then 1 else 0
  {
    var t' := t[i := x];
    if i == |t| - 1 {
      assert t'[..|t| - 1] == t[..|t| - 1];
    } else {
      assert t'[..|t| - 1] == t[..|t| - 1][i := x];
      CountUpdate(t[..|t| - 1], i, x, y);
    }
  }

  lemma {:induction false} CountZero<T>(t: seq<T>, y: T)
    ensures Count(t, y) > 0 <==> y in t
  {
    if t != [] {
      CountZero(t[..|t| - 1], y);
      assert t == t[..|t| - 1] + [t[|t| - 1]];
    }
  }

  lemma {:induction false} CountTwo<T>(t: seq<T>, i: nat, j: nat)
    requires i < j < |t| && t[i] == t[j]
    ensures Count(t, t[i]) >= 2
  {
    var rest := t[..|t| - 1];
    if j == |t| - 1 {
      assert rest[i] in rest;
      CountZero(rest, t[i]);
    } else {
      CountTwo(rest, i, j);
    }
  }
}
