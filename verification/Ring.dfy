/** Places in a ring of `n` slots: the arithmetic behind every circular index. */
module Ring {
  /** The `k`-th slot counted round from `start`. */
  ghost function Slot(start: nat, n: nat, k: nat): (p: nat)
    requires start < n && k < n
    ensures p < n
  {
    if start + k < n then start + k else start + k - n
  }

  ghost function After(i: nat, n: nat): (p: nat)
    requires i < n
    ensures p < n
  {
    if i + 1 < n then i + 1 else 0
  }

  /** `(i + 1) % n` is the slot after `i`. */
  lemma {:induction false} Advance(i: nat, n: nat)
    requires i < n
    ensures (i + 1) % n == After(i, n)
  {
  }

  /** Turning the ring by one slot. */
  lemma {:induction false} Turn(start: nat, n: nat)
    requires start < n
    ensures forall k :: 0 <= k < n - 1 ==> Slot(After(start, n), n, k) == Slot(start, n, k + 1)
    ensures Slot(After(start, n), n, n - 1) == start
  {
  }
}
