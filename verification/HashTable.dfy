/** The chained hash table of Project2/Proj02-starter/hash.c: an array of singly linked chains that
    holds the timed map of KvModel. */
module HashTable {
  import opened KvModel
  import opened HashSlots

  class Entry {
    var key: Text
    var value: Text
    var next: Entry?
    var expiresAt: nat

    constructor (key: Text, value: Text, expiresAt: nat, next: Entry?)
      ensures this.key == key && this.value == value && this.expiresAt == expiresAt && this.next == next
    {
      this.key, this.value, this.expiresAt, this.next := key, value, expiresAt, next;
    }
  }

  ghost function NodeAt(chain: seq<Entry>, i: nat): Entry? {
    if i < |chain| then chain[i] else null
  }

  /** Node `i` says what its slot says and points to the next node. */
  ghost predicate NodeIs(chain: seq<Entry>, slots: seq<Slot>, i: nat)
    requires i < |chain| == |slots|
    reads chain[i]
  {
    var e := chain[i];
    Slot(e.key, e.value, e.expiresAt) == slots[i] && e.next == NodeAt(chain, i + 1)
  }

  /** `head` starts exactly the nodes of `chain`, which end in null: no cycle, no sharing. */
  ghost predicate Chain(head: Entry?, chain: seq<Entry>, slots: seq<Slot>)
    reads chain
  {
    && |chain| == |slots| && head == NodeAt(chain, 0)
    && forall i: nat :: i < |chain| ==> NodeIs(chain, slots, i)
  }

  /** The walk along one chain: the first node of `key` and the one before it. */
  method Walk(head: Entry?, key: Text, ghost chain: seq<Entry>, ghost slots: seq<Slot>)
    returns (prev: Entry?, curr: Entry?, ghost k: nat)
    requires Chain(head, chain, slots)
    ensures k <= |chain| && curr == NodeAt(chain, k) && prev == (if k == 0 then null else chain[k - 1])
    ensures forall i :: 0 <= i < k ==> slots[i].key != key
    ensures curr != null ==> k < |chain| && Slot(curr.key, curr.value, curr.expiresAt) == slots[k] && curr.key == key
  {
    prev, curr, k := null, head, 0;
    while curr != null && curr.key != key
      invariant k <= |chain| && curr == NodeAt(chain, k) && prev == if k == 0 then null else chain[k - 1]
      invariant forall i :: 0 <= i < k ==> slots[i].key != key
      decreases |chain| - k
    {
      assert NodeIs(chain, slots, k);
      prev, curr, k := curr, curr.next, k + 1;
    }
    if curr != null { assert NodeIs(chain, slots, k); }
  }

  /** Nodes with different keys are different nodes. */
  lemma {:induction false} NodesDiffer(head: Entry?, chain: seq<Entry>, slots: seq<Slot>, i: nat, j: nat)
    requires Chain(head, chain, slots) && KeysDiffer(slots) && i < |chain| && j < |chain| && chain[i] == chain[j]
    ensures i == j
  {
    assert NodeIs(chain, slots, i) && NodeIs(chain, slots, j);
    assert i < j ==> Differ(slots, i, j);
    assert j < i ==> Differ(slots, j, i);
  }

  method OverwriteNode(head: Entry?, curr: Entry, value: Text, expiresAt: nat,
                       ghost chain: seq<Entry>, ghost slots: seq<Slot>, ghost k: nat)
    requires Chain(head, chain, slots) && KeysDiffer(slots) && k < |chain| && curr == chain[k]
    modifies curr`value, curr`expiresAt
    ensures Chain(head, chain, slots[k := Slot(slots[k].key, value, expiresAt)])
  {
    forall i: nat | i < |chain|
      ensures NodeIs(chain, slots, i) && (chain[i] == curr ==> i == k)
    {
      if chain[i] == curr { NodesDiffer(head, chain, slots, i, k); }
    }
    curr.value := value;
    curr.expiresAt := expiresAt;
    ghost var slots' := slots[k := Slot(slots[k].key, value, expiresAt)];
    forall i: nat | i < |chain|
      ensures NodeIs(chain, slots', i)
    {
      assert old(NodeIs(chain, slots, i));
    }
  }

  /** `prev->next = curr->next`, or the same on the bucket itself when `curr` is first; the result is
      the new head. */
  method UnlinkNode(head: Entry?, prev: Entry?, curr: Entry,
                    ghost chain: seq<Entry>, ghost slots: seq<Slot>, ghost k: nat) returns (head': Entry?)
    requires Chain(head, chain, slots) && KeysDiffer(slots) && k < |chain| && curr == chain[k]
    requires prev == if k == 0 then null else chain[k - 1]
    modifies (if prev == null then {} else {prev})`next
    ensures Chain(head', chain[..k] + chain[k + 1..], slots[..k] + slots[k + 1..])
    ensures k > 0 ==> head' == head
    ensures old(curr.next) == NodeAt(chain, k + 1)
  {
    forall i: nat | i < |chain|
      ensures NodeIs(chain, slots, i) && (k > 0 && chain[i] == prev ==> i == k - 1)
    {
      if k > 0 && chain[i] == prev { NodesDiffer(head, chain, slots, i, k - 1); }
    }
    ghost var chain', slots' := chain[..k] + chain[k + 1..], slots[..k] + slots[k + 1..];
    assert NodeIs(chain, slots, k);
    if prev != null {
      prev.next := curr.next;
      head' := head;
    } else {
      head' := curr.next;
    }
    forall i: nat | i < |chain'|
      ensures NodeIs(chain', slots', i)
    {
      var was := if i < k then i else i + 1;
      assert old(NodeIs(chain, slots, was));
      assert chain'[i] == chain[was] && slots'[i] == slots[was];
    }
  }

  method PushNode(head: Entry?, node: Entry, ghost chain: seq<Entry>, ghost slots: seq<Slot>)
    requires Chain(head, chain, slots) && node.next == head
    ensures Chain(node, [node] + chain, [Slot(node.key, node.value, node.expiresAt)] + slots)
  {
    ghost var chain', slots' := [node] + chain, [Slot(node.key, node.value, node.expiresAt)] + slots;
    forall i: nat | i < |chain'|
      ensures NodeIs(chain', slots', i)
    {
      if i > 0 { assert NodeIs(chain, slots, i - 1); }
    }
  }

  ghost predicate OwnsAt(chains: seq<seq<Entry>>, repr: set<Entry>, b: nat, i: nat)
    requires b < |chains| && i < |chains[b]|
  {
    chains[b][i] in repr
  }

  ghost predicate Owned(chains: seq<seq<Entry>>, repr: set<Entry>) {
    forall b: nat, i: nat :: b < |chains| && i < |chains[b]| ==> OwnsAt(chains, repr, b, i)
  }

  lemma {:induction false} OwnsAll(chains: seq<seq<Entry>>, repr: set<Entry>, b: nat)
    requires Owned(chains, repr) && b < |chains|
    ensures forall e :: e in chains[b] ==> e in repr
  {
    forall e | e in chains[b]
      ensures e in repr
    {
      var i :| 0 <= i < |chains[b]| && chains[b][i] == e;
      assert OwnsAt(chains, repr, b, i);
    }
  }

  lemma {:induction false} OwnedPush(chains: seq<seq<Entry>>, repr: set<Entry>, b: nat, node: Entry)
    requires Owned(chains, repr) && b < |chains|
    ensures Owned(chains[b := [node] + chains[b]], repr + {node})
  {
    var chains' := chains[b := [node] + chains[b]];
    forall c: nat, i: nat | c < |chains'| && i < |chains'[c]|
      ensures OwnsAt(chains', repr + {node}, c, i)
    {
      if c != b { assert OwnsAt(chains, repr, c, i); } else if i > 0 { assert OwnsAt(chains, repr, c, i - 1); }
    }
  }

  lemma {:induction false} OwnedCut(chains: seq<seq<Entry>>, repr: set<Entry>, b: nat, k: nat)
    requires Owned(chains, repr) && b < |chains| && k < |chains[b]|
    ensures Owned(chains[b := chains[b][..k] + chains[b][k + 1..]], repr)
  {
    var chains' := chains[b := chains[b][..k] + chains[b][k + 1..]];
    forall c: nat, i: nat | c < |chains'| && i < |chains'[c]|
      ensures OwnsAt(chains', repr, c, i)
    {
      assert OwnsAt(chains, repr, c, if c == b && i >= k then i + 1 else i);
    }
  }

  ghost predicate HangsAt(buckets: array<Entry?>, chains: seq<seq<Entry>>, slots: seq<seq<Slot>>, b: nat)
    requires b < buckets.Length == |chains| == |slots|
    reads buckets, chains[b]
  {
    Chain(buckets[b], chains[b], slots[b])
  }

  /** Every bucket starts its chain, over nodes of `repr`. */
  ghost predicate Hangs(buckets: array<Entry?>, chains: seq<seq<Entry>>, slots: seq<seq<Slot>>, repr: set<Entry>)
    reads buckets, repr
  {
    && buckets.Length == |chains| == |slots|
    && Owned(chains, repr)
    && (forall b: nat :: b < |chains| ==> (OwnsAll(chains, repr, b); HangsAt(buckets, chains, slots, b)))
  }

  method OverwriteIn(buckets: array<Entry?>, b: nat, curr: Entry, value: Text, expiresAt: nat, ghost k: nat,
                     ghost chains: seq<seq<Entry>>, ghost slots: seq<seq<Slot>>, ghost repr: set<Entry>)
    requires Hangs(buckets, chains, slots, repr) && b < |chains| && k < |chains[b]| && curr == chains[b][k]
    requires k < |slots[b]|
    requires KeysDiffer(slots[b]) && forall c: nat :: c < |chains| && c != b ==> curr !in chains[c]
    modifies curr`value, curr`expiresAt
    ensures Hangs(buckets, chains, slots[b := slots[b][k := Slot(slots[b][k].key, value, expiresAt)]], repr)
  {
    assert HangsAt(buckets, chains, slots, b);
    forall c: nat | c < |chains| && c != b
      ensures HangsAt(buckets, chains, slots, c)
    {
    }
    OverwriteNode(buckets[b], curr, value, expiresAt, chains[b], slots[b], k);
    ghost var slots' := slots[b := slots[b][k := Slot(slots[b][k].key, value, expiresAt)]];
    forall c: nat | c < |chains|
      ensures HangsAt(buckets, chains, slots', c)
    {
      assert c != b ==> old(HangsAt(buckets, chains, slots, c));
    }
  }

  method PushIn(buckets: array<Entry?>, b: nat, key: Text, value: Text, expiresAt: nat,
                ghost chains: seq<seq<Entry>>, ghost slots: seq<seq<Slot>>, ghost repr: set<Entry>)
    returns (node: Entry)
    requires Hangs(buckets, chains, slots, repr) && b < |chains|
    modifies buckets
    ensures fresh(node)
    ensures Hangs(buckets, chains[b := [node] + chains[b]], slots[b := [Slot(key, value, expiresAt)] + slots[b]],
                  repr + {node})
  {
    assert HangsAt(buckets, chains, slots, b);
    node := new Entry(key, value, expiresAt, buckets[b]);
    PushNode(buckets[b], node, chains[b], slots[b]);
    OwnedPush(chains, repr, b, node);
    ghost var chains', slots' := chains[b := [node] + chains[b]], slots[b := [Slot(key, value, expiresAt)] + slots[b]];
    buckets[b] := node;
    forall c: nat | c < |chains'|
      ensures HangsAt(buckets, chains', slots', c)
    {
      assert c != b ==> old(HangsAt(buckets, chains, slots, c));
    }
  }

  method UnlinkIn(buckets: array<Entry?>, b: nat, prev: Entry?, curr: Entry, ghost k: nat,
                  ghost chains: seq<seq<Entry>>, ghost slots: seq<seq<Slot>>, ghost repr: set<Entry>)
    requires Hangs(buckets, chains, slots, repr) && b < |chains| && k < |chains[b]| && curr == chains[b][k]
    requires k < |slots[b]|
    requires prev == if k == 0 then null else chains[b][k - 1]
    requires KeysDiffer(slots[b]) && forall c: nat :: c < |chains| && c != b ==> prev == null || prev !in chains[c]
    modifies buckets, (if prev == null then {} else {prev})`next
    ensures Hangs(buckets, chains[b := chains[b][..k] + chains[b][k + 1..]],
                  slots[b := slots[b][..k] + slots[b][k + 1..]], repr)
    ensures old(curr.next) == NodeAt(chains[b], k + 1)
  {
    assert HangsAt(buckets, chains, slots, b);
    OwnedCut(chains, repr, b, k);
    var head := UnlinkNode(buckets[b], prev, curr, chains[b], slots[b], k);
    buckets[b] := head;
    ghost var chains' := chains[b := chains[b][..k] + chains[b][k + 1..]];
    ghost var slots' := slots[b := slots[b][..k] + slots[b][k + 1..]];
    forall c: nat | c < |chains'|
      ensures HangsAt(buckets, chains', slots', c)
    {
      assert c != b ==> old(HangsAt(buckets, chains, slots, c));
    }
  }

  class Table {
    const buckets: array<Entry?>
    var keys: int
    var hits: int
    var misses: int
    var puts: int
    var dels: int

    ghost var chains: seq<seq<Entry>>
    ghost var slots: seq<seq<Slot>>
    ghost var cells: map<Text, Cell>
    ghost var repr: set<Entry>
    /** The calls so far, each with the clock it read; a DEL reads none. */
    ghost var history: seq<Call>

    ghost predicate Valid()
      reads `chains, `slots, `cells, `repr, `keys, buckets, repr
    {
      Hangs(buckets, chains, slots, repr) && Represents(slots, cells) && keys == |cells|
    }

    ghost function View(): Db
      reads this
    {
      Db(cells, keys, hits, misses, puts, dels)
    }

    /** Contents and counters are those of the calls so far. */
    ghost predicate Replayed()
      reads this
    {
      View() == After(Empty(), history, |history|)
    }

    constructor (numBuckets: nat)
      requires numBuckets > 0
      ensures Valid() && View() == Empty() && buckets.Length == numBuckets
      ensures Replayed() && history == []
      ensures fresh(buckets) && repr == {}
    {
      buckets := new Entry?[numBuckets](_ => null);
      keys, hits, misses, puts, dels := 0, 0, 0, 0, 0;
      chains, slots := seq(numBuckets, _ => []), seq(numBuckets, _ => []);
      cells, repr, history := map[], {}, [];
      new;
      NoSlots(slots);
    }

    /** A node of one bucket is in no other. */
    lemma {:induction false} Apart(b: nat, i: nat, c: nat)
      requires Valid() && b < |chains| && i < |chains[b]| && c < |chains| && c != b
      ensures chains[b][i] !in chains[c]
    {
      if j: nat :| j < |chains[c]| && chains[c][j] == chains[b][i] {
        assert HangsAt(buckets, chains, slots, b) && HangsAt(buckets, chains, slots, c);
        assert NodeIs(chains[b], slots[b], i) && NodeIs(chains[c], slots[c], j);
        OnePlace(slots, cells, b, i, c, j);
      }
    }

    method Search(key: Text) returns (prev: Entry?, curr: Entry?, idx: nat, ghost k: nat)
      requires Valid()
      ensures idx == Bucket(key, |slots|) && k <= |chains[idx]| == |slots[idx]|
      ensures curr == NodeAt(chains[idx], k) && prev == (if k == 0 then null else chains[idx][k - 1])
      ensures curr != null <==> key in cells
      ensures curr != null ==> k < |chains[idx]| && slots[idx][k].key == key
      ensures curr != null ==> curr.key == key && cells[key] == Cell(curr.value, curr.expiresAt)
      ensures curr != null ==> curr in repr
    {
      var hash := HashFunction(key);
      idx := hash % buckets.Length;
      assert HangsAt(buckets, chains, slots, idx);
      prev, curr, k := Walk(buckets[idx], key, chains[idx], slots[idx]);
      WalkEnds(slots, cells, key, k);
      if curr != null { assert OwnsAt(chains, repr, idx, k); }
    }

    /** The value of the last PUT of the key while its time to live has not run out, counted as a
        hit; otherwise nothing, counted as a miss. */
    method Get(key: Text, now: nat) returns (found: Option<Text>)
      requires Valid() && Replayed() && |key| <= 256
      modifies `hits, `misses, `history
      ensures Valid() && Replayed() && history == old(history) + [Call(GetOp(key), now)]
      ensures View() == KvModel.Get(old(View()), key, now)
      ensures Ordered(history) ==> GetsLast(old(history), key, now, found)
      ensures hits == old(hits) + (if found.Some? then 1 else 0) && misses == old(misses) + if found.Some? then 0 else 1
    {
      AfterSnoc(Empty(), history, Call(GetOp(key), now));
      if Ordered(history + [Call(GetOp(key), now)]) { FindIsLast(history, key, now); }
      found := Lookup(key, now);
      history := history + [Call(GetOp(key), now)];
    }

    method Lookup(key: Text, now: nat) returns (found: Option<Text>)
      requires Valid() && |key| <= MAX_KEY_LEN
      modifies `hits, `misses
      ensures Valid()
      ensures View() == KvModel.Get(old(View()), key, now)
      ensures found == Find(cells, key, now)
    {
      var prev, curr, idx, k := Search(key);
      if curr != null {
        if curr.expiresAt != 0 && now >= curr.expiresAt {
          misses := misses + 1;
          return None;
        }
        hits := hits + 1;
        return Some(curr.value);
      }
      misses := misses + 1;
      found := None;
    }

    /** A key that is present keeps its node; value and expiry are overwritten. */
    method Overwrite(curr: Entry, idx: nat, ghost k: nat, value: Text, expiresAt: nat)
      requires Valid() && idx < |chains| && k < |chains[idx]| && curr == chains[idx][k]
      modifies `cells, `slots, curr`value, curr`expiresAt
      ensures Valid()
      ensures old(curr.key) in old(cells)
      ensures cells == old(cells)[old(curr.key) := Cell(value, expiresAt)]
    {
      assert HangsAt(buckets, chains, slots, idx) && NodeIs(chains[idx], slots[idx], k);
      ghost var s := Slot(curr.key, value, expiresAt);
      BucketKeysDiffer(slots, cells, idx);
      Overwritten(slots, cells, idx, k, s);
      forall c: nat | c < |chains| && c != idx
        ensures curr !in chains[c]
      {
        Apart(idx, k, c);
      }
      OverwriteIn(buckets, idx, curr, value, expiresAt, k, chains, slots, repr);
      slots := slots[idx := slots[idx][k := s]];
      cells := cells[s.key := CellOf(s)];
    }

    /** A new key gets a node at the head of its bucket. */
    method Insert(key: Text, value: Text, expiresAt: nat, idx: nat)
      requires Valid() && key !in cells && idx == Bucket(key, |slots|)
      modifies `cells, `slots, `chains, `repr, `keys, buckets
      ensures Valid() && fresh(repr - old(repr))
      ensures cells == old(cells)[key := Cell(value, expiresAt)] && keys == old(keys) + 1
    {
      ghost var s := Slot(key, value, expiresAt);
      Inserted(slots, cells, s);
      var node := PushIn(buckets, idx, key, value, expiresAt, chains, slots, repr);
      chains := chains[idx := [node] + chains[idx]];
      slots := slots[idx := [s] + slots[idx]];
      cells := cells[key := CellOf(s)];
      repr := repr + {node};
      keys := keys + 1;
    }

    /** The entry is there afterwards, cut to 256 characters and with the second it expires at, or
        0; the calls so far grow by this one. */
    method Put(key: Text, val: Text, ttl: int, now: nat)
      requires Valid() && Replayed() && |key| <= 256
      modifies this, buckets, repr
      ensures Valid() && fresh(repr - old(repr))
      ensures Replayed() && history == old(history) + [Call(PutOp(key, val, ttl), now)]
      ensures View() == KvModel.Put(old(View()), key, val, ttl, now)
      ensures var kept, expires := if |val| <= 256 then val else val[..256], if ttl > 0 then now + ttl else 0;
              cells == old(cells)[key := Cell(kept, expires)]
    {
      AfterSnoc(Empty(), history, Call(PutOp(key, val, ttl), now));
      Store(key, val, ttl, now);
      history := history + [Call(PutOp(key, val, ttl), now)];
    }

    method Store(key: Text, val: Text, ttl: int, now: nat)
      requires Valid() && |key| <= MAX_KEY_LEN
      modifies `cells, `slots, `chains, `repr, `keys, `puts, buckets, repr
      ensures Valid() && fresh(repr - old(repr))
      ensures View() == KvModel.Put(old(View()), key, val, ttl, now)
    {
      var prev, curr, idx, k := Search(key);
      var expiresAt := if ttl > 0 then now + ttl else 0;
      if curr != null {
        Overwrite(curr, idx, k, Clip(val), expiresAt);
      } else {
        Insert(key, Clip(val), expiresAt, idx);
      }
      puts := puts + 1;
    }

    /** So is the node before it. */
    lemma {:induction false} PrevApart(prev: Entry?, b: nat, k: nat)
      requires Valid() && b < |chains| && k < |chains[b]| && prev == if k == 0 then null else chains[b][k - 1]
      ensures forall c: nat :: c < |chains| && c != b ==> prev == null || prev !in chains[c]
      ensures prev != null ==> prev in repr
    {
      forall c: nat | c < |chains| && c != b
        ensures prev == null || prev !in chains[c]
      {
        if k > 0 { Apart(b, k - 1, c); }
      }
      if k > 0 { assert OwnsAt(chains, repr, b, k - 1); }
    }

    /** Takes one node out of its chain. */
    method Unlink(prev: Entry?, curr: Entry, idx: nat, ghost k: nat)
      requires Valid() && idx < |chains| && k < |chains[idx]| && curr == chains[idx][k]
      requires prev == if k == 0 then null else chains[idx][k - 1]
      modifies `cells, `slots, `chains, `keys, buckets, repr
      ensures Valid()
      ensures old(curr.key) in old(cells)
      ensures cells == old(cells) - {old(curr.key)} && keys == old(keys) - 1
      ensures chains == old(chains)[idx := old(chains)[idx][..k] + old(chains)[idx][k + 1..]]
      ensures |old(slots)[idx]| == |old(chains)[idx]| && |old(slots)| == |old(chains)|
      ensures slots == old(slots)[idx := old(slots)[idx][..k] + old(slots)[idx][k + 1..]]
      ensures old(curr.next) == NodeAt(chains[idx], k)
    {
      assert HangsAt(buckets, chains, slots, idx) && NodeIs(chains[idx], slots[idx], k);
      BucketKeysDiffer(slots, cells, idx);
      Removed(slots, cells, idx, k);
      PrevApart(prev, idx, k);
      UnlinkIn(buckets, idx, prev, curr, k, chains, slots, repr);
      cells := cells - {slots[idx][k].key};
      chains := chains[idx := chains[idx][..k] + chains[idx][k + 1..]];
      slots := slots[idx := slots[idx][..k] + slots[idx][k + 1..]];
      keys := keys - 1;
    }

    /** Finds the key if it was put and no sweep has come after its last second. */
    method Del(key: Text) returns (found: bool)
      requires Valid() && Replayed() && |key| <= 256
      modifies this, buckets, repr
      ensures Valid() && repr == old(repr)
      ensures Replayed() && history == old(history) + [Call(DelOp(key), ClockAt(old(history), |old(history)|))]
      ensures View() == KvModel.Del(old(View()), key)
      ensures found <==> key in old(cells)
      ensures found <==>
                exists s: nat :: LastPut(old(history), |old(history)|, key, s) && Spared(old(history), |old(history)|, s)
    {
      ghost var call := Call(DelOp(key), ClockAt(history, |history|));
      AfterSnoc(Empty(), history, call);
      PresentIsSpared(history, key);
      found := Remove(key);
      history := history + [call];
    }

    method Remove(key: Text) returns (found: bool)
      requires Valid() && |key| <= MAX_KEY_LEN
      modifies `cells, `slots, `chains, `keys, `dels, buckets, repr
      ensures Valid()
      ensures View() == KvModel.Del(old(View()), key)
      ensures found <==> key in old(cells)
    {
      var prev, curr, idx, k := Search(key);
      if curr != null {
        Unlink(prev, curr, idx, k);
        dels := dels + 1;
        return true;
      }
      found := false;
    }

    /** One node on the way of the sweeper: it is unlinked if it is stale, and kept otherwise. */
    method SweepNode(prev: Entry?, curr: Entry, b: nat, ghost k: nat, now: nat, ghost before: map<Text, Cell>)
      returns (prev': Entry?, curr': Entry?, ghost k': nat)
      requires Valid() && b < |slots| && LostStale(before, cells, now)
      requires k < |chains[b]| && curr == chains[b][k] && prev == if k == 0 then null else chains[b][k - 1]
      requires k <= |slots[b]| && Clean(slots[b], k, now)
      modifies `cells, `slots, `chains, `keys, buckets, repr
      ensures Valid() && LostStale(before, cells, now) && |slots| == |old(slots)|
      ensures k' <= |chains[b]| && curr' == NodeAt(chains[b], k')
      ensures prev' == if k' == 0 then null else chains[b][k' - 1]
      ensures k' <= |slots[b]| && Clean(slots[b], k', now)
      ensures |chains[b]| - k' < |old(chains)[b]| - k
      ensures forall c: nat :: c < |slots| && c != b ==> slots[c] == old(slots)[c]
    {
      assert HangsAt(buckets, chains, slots, b) && NodeIs(chains[b], slots[b], k) && PlacedAt(slots, b, k, cells);
      CleanStep(slots[b], k, now, before, cells);
      if curr.expiresAt != 0 && curr.expiresAt < now {
        var next := curr.next;
        Unlink(prev, curr, b, k);
        prev', curr', k' := prev, next, k;
      } else {
        prev', curr', k' := curr, curr.next, k + 1;
      }
    }

    /** The walk of the sweeper along one bucket, unlinking stale nodes as it goes. */
    method SweepBucket(b: nat, now: nat, ghost before: map<Text, Cell>)
      requires Valid() && b < |slots| && LostStale(before, cells, now)
      modifies `cells, `slots, `chains, `keys, buckets, repr
      ensures Valid() && LostStale(before, cells, now) && |slots| == |old(slots)|
      ensures CleanAt(slots, b, now)
      ensures forall c: nat :: c < |slots| && c != b ==> slots[c] == old(slots)[c]
    {
      assert HangsAt(buckets, chains, slots, b);
      var prev: Entry? := null;
      var curr := buckets[b];
      ghost var k: nat := 0;
      while curr != null
        invariant Valid() && LostStale(before, cells, now) && |slots| == |old(slots)|
        invariant k <= |chains[b]| && curr == NodeAt(chains[b], k)
        invariant prev == if k == 0 then null else chains[b][k - 1]
        invariant Clean(slots[b], k, now)
        invariant forall c: nat :: c < |slots| && c != b ==> slots[c] == old(slots)[c]
        decreases |chains[b]| - k
      {
        prev, curr, k := SweepNode(prev, curr, b, k, now, before);
      }
      assert HangsAt(buckets, chains, slots, b);
    }

    /** One pass of the sweeper, in place. */
    method Sweep(now: nat)
      requires Valid() && Replayed()
      modifies this, buckets, repr
      ensures Valid() && repr == old(repr)
      ensures Replayed() && history == old(history) + [Call(SweepOp, now)]
      ensures View() == KvModel.Sweep(old(View()), now)
      ensures forall key :: key in cells <==>
                key in old(cells) && !(old(cells)[key].expires != 0 && old(cells)[key].expires < now)
    {
      AfterSnoc(Empty(), history, Call(SweepOp, now));
      SweepBuckets(now);
      history := history + [Call(SweepOp, now)];
    }

    method SweepBuckets(now: nat)
      requires Valid()
      modifies `cells, `slots, `chains, `keys, buckets, repr
      ensures Valid()
      ensures View() == KvModel.Sweep(old(View()), now)
    {
      ghost var before := cells;
      for i := 0 to buckets.Length
        invariant Valid() && LostStale(before, cells, now)
        invariant |slots| == buckets.Length && forall b: nat :: b < i ==> CleanAt(slots, b, now)
      {
        ghost var was := slots;
        SweepBucket(i, now, before);
        forall b: nat | b <= i
          ensures CleanAt(slots, b, now)
        {
          if b < i { assert CleanAt(was, b, now); }
        }
      }
      SweptAll(slots, before, cells, now);
    }
  }
}
