/** The hash function of Project2/Proj02-starter/hash.c, and buckets of slots that hold a map. */
module HashSlots {
  import opened KvModel

  const WORD: nat := 0x1_0000_0000_0000_0000
  const SEED: nat := 5381

  /** The hash before it is cut to the machine word. */
  ghost function HashSum(str: Text): int {
    if str == [] then SEED else 33 * HashSum(str[..|str| - 1]) + str[|str| - 1] as int
  }

  ghost function Hash(str: Text): nat {
    HashSum(str) % WORD
  }

  lemma {:induction false} ModShift(x: int, k: int)
    ensures (x + WORD * k) % WORD == x % WORD
  {
  }

  /** Shifting and adding in 64-bit words keeps the residue of the sum. */
  lemma {:induction false} HashStep(h: nat, sum: int, c: int)
    requires h == sum % WORD
    ensures ((h * 32) % WORD + h + c) % WORD == (33 * sum + c) % WORD
  {
    var q, r := (h * 32) / WORD, sum / WORD;
    assert (h * 32) % WORD == h * 32 - WORD * q;
    assert h == sum - WORD * r;
    assert (h * 32) % WORD + h + c == (33 * sum + c) + WORD * (0 - 33 * r - q);
    ModShift(33 * sum + c, 0 - 33 * r - q);
  }

  /** The hash of a word of two characters, which may be negative, and its bucket. */
  lemma {:induction false} HashOfTwo(a: CChar, b: CChar, n: nat)
    requires n > 0
    ensures Hash([a, b]) == 5859909 + 33 * (a as int) + b as int
    ensures Bucket([a, b], n) == Hash([a, b]) % n
  {
    assert [a, b][..1] == [a] && [a][..0] == [];
    assert HashSum([]) == 5381 && HashSum([a]) == 33 * 5381 + a as int;
  }

  method HashFunction(str: Text) returns (hash: nat)
    ensures hash == Hash(str) == HashSum(str) % 0x1_0000_0000_0000_0000
  {
    hash := SEED;
    assert str[..0] == [];
    for i := 0 to |str|
      invariant hash == Hash(str[..i])
    {
      var c := str[i] as int;
      HashStep(hash, HashSum(str[..i]), c);
      assert str[..i + 1][..i] == str[..i];
      hash := ((hash * 32) % WORD + hash + c) % WORD;
    }
    assert str[..|str|] == str;
  }

  ghost function Bucket(key: Text, n: nat): (b: nat)
    requires n > 0
    ensures b < n
  {
    Hash(key) % n
  }

  /** What one node says, away from the heap. */
  datatype Slot = Slot(key: Text, value: Text, expires: nat)

  ghost function CellOf(s: Slot): Cell {
    Cell(s.value, s.expires)
  }

  /** The slot lies in the bucket of its key and says what the map says. */
  ghost predicate PlacedAt(slots: seq<seq<Slot>>, b: nat, i: nat, cells: map<Text, Cell>)
    requires b < |slots| && i < |slots[b]|
  {
    var s := slots[b][i];
    Bucket(s.key, |slots|) == b && s.key in cells && cells[s.key] == CellOf(s)
  }

  ghost predicate Differ(chain: seq<Slot>, i: nat, j: nat)
    requires i < |chain| && j < |chain|
  {
    chain[i].key != chain[j].key
  }

  ghost predicate HasSlot(slots: seq<seq<Slot>>, key: Text)
    requires |slots| > 0
  {
    exists i :: 0 <= i < |slots[Bucket(key, |slots|)]| && slots[Bucket(key, |slots|)][i].key == key
  }

  ghost function TotalLength(slots: seq<seq<Slot>>): nat {
    if slots == [] then 0 else TotalLength(slots[..|slots| - 1]) + |slots[|slots| - 1]|
  }

  /** The buckets hold exactly the map: each key once, in its bucket, and nothing else. */
  ghost predicate Represents(slots: seq<seq<Slot>>, cells: map<Text, Cell>) {
    && |slots| > 0
    && (forall b: nat, i: nat :: b < |slots| && i < |slots[b]| ==> PlacedAt(slots, b, i, cells))
    && (forall b: nat, i: nat, j: nat :: b < |slots| && i < j < |slots[b]| ==> Differ(slots[b], i, j))
    && (forall key {:trigger HasSlot(slots, key)} :: key in cells ==> HasSlot(slots, key))
    && TotalLength(slots) == |cells|
  }

  lemma {:induction false} TotalLengthUpdate(slots: seq<seq<Slot>>, b: nat, chain: seq<Slot>)
    requires b < |slots|
    ensures TotalLength(slots[b := chain]) == TotalLength(slots) - |slots[b]| + |chain|
  {
    var slots' := slots[b := chain];
    if b == |slots| - 1 {
      assert slots'[..|slots| - 1] == slots[..|slots| - 1];
    } else {
      assert slots'[..|slots| - 1] == slots[..|slots| - 1][b := chain];
      TotalLengthUpdate(slots[..|slots| - 1], b, chain);
    }
  }

  lemma {:induction false} NoSlots(slots: seq<seq<Slot>>)
    requires forall b :: 0 <= b < |slots| ==> slots[b] == []
    ensures TotalLength(slots) == 0
  {
    if slots != [] { NoSlots(slots[..|slots| - 1]); }
  }

  /** Two places with the same key are the same place. */
  lemma {:induction false} OnePlace(slots: seq<seq<Slot>>, cells: map<Text, Cell>, b: nat, i: nat, c: nat, j: nat)
    requires Represents(slots, cells)
    requires b < |slots| && i < |slots[b]| && c < |slots| && j < |slots[c]|
    requires slots[b][i].key == slots[c][j].key
    ensures b == c && i == j
  {
    assert PlacedAt(slots, b, i, cells) && PlacedAt(slots, c, j, cells);
    assert i < j ==> Differ(slots[b], i, j);
    assert j < i ==> Differ(slots[b], j, i);
  }

  /** Where a walk along the bucket of `key` ends, at the first slot of `key` or at the end. */
  lemma {:induction false} WalkEnds(slots: seq<seq<Slot>>, cells: map<Text, Cell>, key: Text, k: nat)
    requires Represents(slots, cells)
    requires var chain := slots[Bucket(key, |slots|)];
             k <= |chain| && (forall i :: 0 <= i < k ==> chain[i].key != key) && (k < |chain| ==> chain[k].key == key)
    ensures var chain := slots[Bucket(key, |slots|)];
            && (key in cells <==> k < |chain|)
            && (k < |chain| ==> cells[key] == CellOf(chain[k]))
  {
    var b := Bucket(key, |slots|);
    if k < |slots[b]| {
      assert PlacedAt(slots, b, k, cells);
    } else {
      assert key in cells ==> HasSlot(slots, key);
    }
  }

  ghost predicate KeysDiffer(chain: seq<Slot>) {
    forall i: nat, j: nat :: i < j < |chain| ==> Differ(chain, i, j)
  }

  lemma {:induction false} BucketKeysDiffer(slots: seq<seq<Slot>>, cells: map<Text, Cell>, b: nat)
    requires Represents(slots, cells) && b < |slots|
    ensures KeysDiffer(slots[b])
  {
  }

  lemma {:induction false} Overwritten(slots: seq<seq<Slot>>, cells: map<Text, Cell>, b: nat, k: nat, s: Slot)
    requires Represents(slots, cells) && b < |slots| && k < |slots[b]| && slots[b][k].key == s.key
    ensures Represents(slots[b := slots[b][k := s]], cells[s.key := CellOf(s)])
    ensures s.key in cells && |cells[s.key := CellOf(s)]| == |cells|
  {
    var slots', cells' := slots[b := slots[b][k := s]], cells[s.key := CellOf(s)];
    TotalLengthUpdate(slots, b, slots[b][k := s]);
    assert PlacedAt(slots, b, k, cells);
    PutCard(cells, s.key, CellOf(s));
    forall c: nat, i: nat | c < |slots'| && i < |slots'[c]|
      ensures PlacedAt(slots', c, i, cells')
    {
      assert PlacedAt(slots, c, i, cells);
      if slots[c][i].key == s.key { OnePlace(slots, cells, c, i, b, k); }
    }
    forall c: nat, i: nat, j: nat | c < |slots'| && i < j < |slots'[c]|
      ensures Differ(slots'[c], i, j)
    {
      assert Differ(slots[c], i, j);
    }
    forall key | key in cells'
      ensures HasSlot(slots', key)
    {
      assert HasSlot(slots, key);
      var c := Bucket(key, |slots|);
      var i :| 0 <= i < |slots[c]| && slots[c][i].key == key;
      assert slots'[c][i].key == key;
    }
  }

  lemma {:induction false} Inserted(slots: seq<seq<Slot>>, cells: map<Text, Cell>, s: Slot)
    requires Represents(slots, cells) && s.key !in cells
    ensures var b := Bucket(s.key, |slots|);
            Represents(slots[b := [s] + slots[b]], cells[s.key := CellOf(s)])
    ensures |cells[s.key := CellOf(s)]| == |cells| + 1
  {
    var b := Bucket(s.key, |slots|);
    var slots', cells' := slots[b := [s] + slots[b]], cells[s.key := CellOf(s)];
    TotalLengthUpdate(slots, b, [s] + slots[b]);
    PutCard(cells, s.key, CellOf(s));
    forall c: nat, i: nat | c < |slots'| && i < |slots'[c]|
      ensures PlacedAt(slots', c, i, cells')
    {
      if c != b { assert PlacedAt(slots, c, i, cells); }
      else if i > 0 { assert PlacedAt(slots, c, i - 1, cells); }
    }
    forall c: nat, i: nat, j: nat | c < |slots'| && i < j < |slots'[c]|
      ensures Differ(slots'[c], i, j)
    {
      if c != b { assert Differ(slots[c], i, j); }
      else if i > 0 { assert Differ(slots[c], i - 1, j - 1); }
      else { assert PlacedAt(slots, c, j - 1, cells); }
    }
    forall key | key in cells'
      ensures HasSlot(slots', key)
    {
      if key == s.key {
        assert slots'[b][0].key == key;
      } else {
        assert HasSlot(slots, key);
        var c := Bucket(key, |slots|);
        var i :| 0 <= i < |slots[c]| && slots[c][i].key == key;
        assert slots'[c][if c == b then i + 1 else i].key == key;
      }
    }
  }

  lemma {:induction false} Removed(slots: seq<seq<Slot>>, cells: map<Text, Cell>, b: nat, k: nat)
    requires Represents(slots, cells) && b < |slots| && k < |slots[b]|
    ensures Represents(slots[b := slots[b][..k] + slots[b][k + 1..]], cells - {slots[b][k].key})
    ensures slots[b][k].key in cells && |cells - {slots[b][k].key}| == |cells| - 1
  {
    var gone, chain := slots[b][k].key, slots[b][..k] + slots[b][k + 1..];
    var slots', cells' := slots[b := chain], cells - {gone};
    TotalLengthUpdate(slots, b, chain);
    assert PlacedAt(slots, b, k, cells);
    DelCard(cells, gone);
    forall c: nat, i: nat | c < |slots'| && i < |slots'[c]|
      ensures PlacedAt(slots', c, i, cells')
    {
      var was := if c == b && i >= k then i + 1 else i;
      assert slots'[c][i] == slots[c][was];
      assert PlacedAt(slots, c, was, cells);
      if slots[c][was].key == gone { OnePlace(slots, cells, c, was, b, k); }
    }
    forall c: nat, i: nat, j: nat | c < |slots'| && i < j < |slots'[c]|
      ensures Differ(slots'[c], i, j)
    {
      var wasI, wasJ := if c == b && i >= k then i + 1 else i, if c == b && j >= k then j + 1 else j;
      assert slots'[c][i] == slots[c][wasI] && slots'[c][j] == slots[c][wasJ];
      assert Differ(slots[c], wasI, wasJ);
    }
    forall key | key in cells'
      ensures HasSlot(slots', key)
    {
      assert HasSlot(slots, key);
      var c := Bucket(key, |slots|);
      var i :| 0 <= i < |slots[c]| && slots[c][i].key == key;
      var now := if c == b && i > k then i - 1 else i;
      assert slots'[c][now].key == key;
    }
  }

  /** The first `k` slots of a chain are not stale. */
  ghost predicate Clean(chain: seq<Slot>, k: nat, now: nat) {
    k <= |chain| && forall i :: 0 <= i < k ==> !Stale(CellOf(chain[i]), now)
  }

  ghost predicate CleanAt(slots: seq<seq<Slot>>, b: nat, now: nat)
    requires b < |slots|
  {
    Clean(slots[b], |slots[b]|, now)
  }

  /** From `before` to `cells` only stale entries were lost, and nothing else changed. */
  ghost predicate LostStale(before: map<Text, Cell>, cells: map<Text, Cell>, now: nat) {
    forall k :: if k in cells then k in before && before[k] == cells[k]
                else k in before ==> Stale(before[k], now)
  }

  /** The walk takes slot `k` out, or goes past it. */
  lemma {:induction false} CleanStep(chain: seq<Slot>, k: nat, now: nat, before: map<Text, Cell>, cells: map<Text,
                                     Cell>)
    requires Clean(chain, k, now) && k < |chain| && LostStale(before, cells, now)
    requires chain[k].key in cells && cells[chain[k].key] == CellOf(chain[k])
    ensures if Stale(CellOf(chain[k]), now)
            then Clean(chain[..k] + chain[k + 1..], k, now) && LostStale(before, cells - {chain[k].key}, now)
            else Clean(chain, k + 1, now)
  {
  }

  /** When every bucket is clean, what is left is what the sweep must leave. */
  lemma {:induction false} SweptAll(slots: seq<seq<Slot>>, before: map<Text, Cell>, cells: map<Text, Cell>, now: nat)
    requires Represents(slots, cells) && LostStale(before, cells, now)
    requires forall b: nat :: b < |slots| ==> CleanAt(slots, b, now)
    ensures cells == Swept(before, now)
  {
    forall key | key in cells
      ensures !Stale(cells[key], now)
    {
      assert HasSlot(slots, key);
      var b := Bucket(key, |slots|);
      var i :| 0 <= i < |slots[b]| && slots[b][i].key == key;
      assert PlacedAt(slots, b, i, cells) && CleanAt(slots, b, now);
    }
  }
}
