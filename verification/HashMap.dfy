/** The slot hash map: lookup, insertion, and the iterator over its pairs. */
module HashMap {

  const NUM_SLOTS := 511

  ghost predicate HasKey<K, V>(slot: seq<(K, V)>, key: K) { exists j :: 0 <= j < |slot| && slot[j].0 == key }

  ghost predicate DistinctKeys<K, V>(slot: seq<(K, V)>) {
    forall i, j :: 0 <= i < j < |slot| ==> slot[i].0 != slot[j].0
  }

  /** The pairs of slots `i` and up, in iteration order. */
  function Flatten<K, V>(slots: seq<seq<(K, V)>>, i: nat): seq<(K, V)>
    requires i <= |slots|
    decreases |slots| - i
  {
    if i == |slots| then [] else slots[i] + Flatten(slots, i + 1)
  }

  /** The slot with the pair at position `n`, which is one past its end for a new key. */
  function Put<K, V>(slot: seq<(K, V)>, n: nat, key: K, value: V): seq<(K, V)>
    requires n <= |slot|
  {
    if n == |slot| then slot + [(key, value)] else slot[n := (key, value)]
  }

  /** Every key of the slot belongs there, once, and has its value. */
  ghost predicate SlotHolds<K, V>(hash: K -> nat, contents: map<K, V>, i: int, slot: seq<(K, V)>) {
    && DistinctKeys(slot)
    && forall j :: 0 <= j < |slot| ==>
         hash(slot[j].0) % NUM_SLOTS == i && slot[j].0 in contents && contents[slot[j].0] == slot[j].1
  }

  lemma PutHolds<K, V>(hash: K -> nat, contents: map<K, V>, i: int, slot: seq<(K, V)>, n: nat, key: K, value: V)
    requires SlotHolds(hash, contents, i, slot) && hash(key) % NUM_SLOTS == i && n <= |slot|
    requires if key in contents then n < |slot| && slot[n].0 == key else n == |slot|
    ensures SlotHolds(hash, contents[key := value], i, Put(slot, n, key, value))
  {
  }

  lemma OthersHold<K, V>(hash: K -> nat, contents: map<K, V>, i: int, slot: seq<(K, V)>, key: K, value: V)
    requires SlotHolds(hash, contents, i, slot) && hash(key) % NUM_SLOTS != i
    ensures SlotHolds(hash, contents[key := value], i, slot)
  {
  }

  lemma PutHasKey<K, V>(slot: seq<(K, V)>, n: nat, key: K, value: V, k: K)
    requires n <= |slot| && (k == key || HasKey(slot, k))
    ensures HasKey(Put(slot, n, key, value), k) || (n < |slot| && slot[n].0 != key)
  {
    var after := Put(slot, n, key, value);
    if k == key {
      assert after[n].0 == k;
    } else {
      var j :| 0 <= j < |slot| && slot[j].0 == k;
      assert after[j].0 == k || j == n;
    }
  }

  /** Every slot holds its keys, and every key of the map is in its slot. */
  ghost predicate TableHolds<K, V>(hash: K -> nat, slots: seq<seq<(K, V)>>, contents: map<K, V>) {
    && |slots| == NUM_SLOTS
    && (forall i :: 0 <= i < NUM_SLOTS ==> SlotHolds(hash, contents, i, slots[i]))
    && forall k :: k in contents ==> HasKey(slots[hash(k) % NUM_SLOTS], k)
  }

  lemma PutKeepsTable<K, V>(hash: K -> nat, slots: seq<seq<(K, V)>>, contents: map<K, V>, n: nat, key: K, value: V)
    requires TableHolds(hash, slots, contents) && n <= |slots[hash(key) % NUM_SLOTS]|
    requires var slot := slots[hash(key) % NUM_SLOTS];
             if key in contents then n < |slot| && slot[n].0 == key else n == |slot|
    ensures var i := hash(key) % NUM_SLOTS;
            TableHolds(hash, slots[i := Put(slots[i], n, key, value)], contents[key := value])
  {
    hide DistinctKeys, HasKey, SlotHolds, Put;
    var i := hash(key) % NUM_SLOTS;
    var after, grown := slots[i := Put(slots[i], n, key, value)], contents[key := value];
    forall k | k in grown ensures HasKey(after[hash(k) % NUM_SLOTS], k) {
      if hash(k) % NUM_SLOTS == i { PutHasKey(slots[i], n, key, value, k); }
    }
    forall k | 0 <= k < NUM_SLOTS ensures SlotHolds(hash, grown, k, after[k]) {
      if k == i {
        PutHolds(hash, contents, i, slots[i], n, key, value);
      } else {
        OthersHold(hash, contents, k, slots[k], key, value);
      }
    }
  }

  class UnorderedMap<K(==), V> {
    const hash: K -> nat
    const slots: array<seq<(K, V)>>
    var occupancy: nat
    ghost var contents: map<K, V>

    constructor (hashFunc: K -> nat)
      ensures Valid() && contents == map[] && fresh(slots) && hash == hashFunc
    {
      hash := hashFunc;
      slots := new seq<(K, V)>[NUM_SLOTS](_ => []);
      occupancy, contents := 0, map[];
    }

    function Index(key: K): (i: nat)
      ensures i < NUM_SLOTS
    {
      hash(key) % NUM_SLOTS
    }

    /** Every key is in its own slot once, with its value, and the occupancy is the number of keys. */
    ghost predicate Valid()
      reads this, slots
    {
      slots.Length == NUM_SLOTS && occupancy == |contents| && TableHolds(hash, slots[..], contents)
    }

    ghost predicate SlotIsValid(i: int, slot: seq<(K, V)>)
      reads this
    {
      SlotHolds(hash, contents, i, slot)
    }

    /** Position of the key in its slot; the slot's size if it is not there. */
    method Locate(key: K) returns (i: nat, n: nat)
      requires Valid()
      ensures i == Index(key) && n <= |slots[i]|
      ensures if key in contents then n < |slots[i]| && slots[i][n] == (key, contents[key]) else n == |slots[i]|
    {
      i := Index(key);
      n := 0;
      assert SlotIsValid(i, slots[i]);
      while n < |slots[i]|
        invariant n <= |slots[i]| && forall j :: 0 <= j < n ==> slots[i][j].0 != key
      {
        if slots[i][n].0 == key {
          return;
        }
        n := n + 1;
      }
    }

    method Find(key: K) returns (found: bool, value: seq<V>)
      requires Valid()
      ensures found == (key in contents) && value == if found then [contents[key]] else []
    {
      var i, n := Locate(key);
      found := n < |slots[i]|;
      value := if found then [slots[i][n].1] else [];
    }

    /** Adds the pair, or replaces the value of a key that is there; tells whether the key is new. */
    method Insert(key: K, value: V) returns (added: bool)
      requires Valid()
      modifies this, slots
      ensures Valid() && contents == old(contents)[key := value] && added == (key !in old(contents))
    {
      var i, n := Locate(key);
      PutKeepsTable(hash, slots[..], contents, n, key, value);
      hide TableHolds;
      ghost var before := slots[..];
      added := n == |slots[i]|;
      if added {
        slots[i] := slots[i] + [(key, value)];
        occupancy := occupancy + 1;
      } else {
        slots[i] := slots[i][n := (key, value)];
      }
      contents := contents[key := value];
      assert contents.Keys == old(contents).Keys + {key};
      assert slots[..] == before[i := Put(before[i], n, key, value)];
    }

    // -------------------------------------------------------------- iteration

    /** The pairs still to come when the iterator stands at element `j` of slot `i`. */
    ghost function Remaining(i: nat, j: nat): seq<(K, V)>
      requires i <= slots.Length && (i < slots.Length ==> j <= |slots[i]|)
      reads slots
    {
      if i == slots.Length then [] else slots[i][j..] + Flatten(slots[..], i + 1)
    }

    /** The iterator is past the last slot, or at a pair. */
    ghost predicate AtPair(i: nat, j: nat)
      reads slots
    {
      i <= slots.Length && (i < slots.Length ==> j < |slots[i]|)
    }

    /** The first non-empty slot from `start` on. */
    method NextSlot(start: nat) returns (i: nat)
      requires start <= slots.Length
      ensures AtPair(i, 0) && Remaining(i, 0) == Flatten(slots[..], start)
    {
      i := start;
      while i < slots.Length && |slots[i]| == 0
        invariant start <= i <= slots.Length && Flatten(slots[..], i) == Flatten(slots[..], start)
      {
        i := i + 1;
      }
    }

    method IteratorBegin() returns (i: nat, j: nat)
      ensures AtPair(i, j) && Remaining(i, j) == Flatten(slots[..], 0)
    {
      j := 0;
      i := NextSlot(0);
    }

    /** Moves on by one pair. */
    method IteratorNext(i: nat, j: nat) returns (i': nat, j': nat)
      requires AtPair(i, j) && i < slots.Length
      ensures AtPair(i', j') && Remaining(i, j) == [slots[i][j]] + Remaining(i', j')
    {
      if j + 1 < |slots[i]| {
        i', j' := i, j + 1;
        assert slots[i][j..] == [slots[i][j]] + slots[i][j + 1..];
      } else {
        j' := 0;
        i' := NextSlot(i + 1);
        assert slots[i][j..] == [slots[i][j]];
      }
    }

    /** Every pair the iterator visits, in order. */
    method VisitAll() returns (pairs: seq<(K, V)>)
      requires Valid()
      ensures pairs == Flatten(slots[..], 0)
    {
      pairs := [];
      var i, j := IteratorBegin();
      while i != slots.Length
        invariant AtPair(i, j) && pairs + Remaining(i, j) == Flatten(slots[..], 0)
        decreases |Remaining(i, j)|
      {
        pairs := pairs + [slots[i][j]];
        i, j := IteratorNext(i, j);
      }
    }
  }

  /** Each pair of the map is visited exactly once. */
  lemma VisitsEachPairOnce<K, V>(m: UnorderedMap<K, V>)
    requires m.Valid()
    ensures var pairs := Flatten(m.slots[..], 0);
            && DistinctKeys(pairs) && |pairs| == m.occupancy
            && (forall j :: 0 <= j < |pairs| ==> pairs[j].0 in m.contents && m.contents[pairs[j].0] == pairs[j].1)
            && forall k :: k in m.contents ==> HasKey(pairs, k)
  {
    FlattenFrom(m, 0);
    var pairs := Flatten(m.slots[..], 0);
    assert forall k :: k in m.contents ==> HasKey(pairs, k);
    DistinctKeysCount(pairs, m.contents.Keys);
  }

  lemma JoinKeepsDistinct<K, V>(a: seq<(K, V)>, b: seq<(K, V)>)
    requires DistinctKeys(a) && DistinctKeys(b)
    requires forall i, j :: 0 <= i < |a| && 0 <= j < |b| ==> a[i].0 != b[j].0
    ensures DistinctKeys(a + b)
  {
  }

  lemma {:induction false} FlattenFrom<K, V>(m: UnorderedMap<K, V>, i: nat)
    requires m.Valid() && i <= NUM_SLOTS
    ensures var pairs := Flatten(m.slots[..], i);
            && DistinctKeys(pairs)
            && (forall j :: 0 <= j < |pairs| ==>
               m.Index(pairs[j].0) >= i && pairs[j].0 in m.contents && m.contents[pairs[j].0] == pairs[j].1)
            && forall k :: k in m.contents && m.Index(k) >= i ==> HasKey(pairs, k)
    decreases NUM_SLOTS - i
  {
    if i < NUM_SLOTS {
      FlattenFrom(m, i + 1);
      var slot, rest, pairs := m.slots[i], Flatten(m.slots[..], i + 1), Flatten(m.slots[..], i);
      assert m.SlotIsValid(i, slot);
      JoinKeepsDistinct(slot, rest);
      assert pairs == slot + rest;
      hide Flatten, DistinctKeys;
      forall k | k in m.contents && m.Index(k) >= i ensures HasKey(pairs, k) {
        if m.Index(k) == i {
          var j :| 0 <= j < |slot| && slot[j].0 == k;
          assert pairs[j].0 == k;
        } else {
          var j :| 0 <= j < |rest| && rest[j].0 == k;
          assert pairs[|slot| + j].0 == k;
        }
      }
    }
  }

  /** As many pairs with different keys as there are keys among them. */
  lemma {:induction false} DistinctKeysCount<K, V>(pairs: seq<(K, V)>, keys: set<K>)
    requires DistinctKeys(pairs) && (forall j :: 0 <= j < |pairs| ==> pairs[j].0 in keys)
             && forall k :: k in keys ==> HasKey(pairs, k)
    ensures |pairs| == |keys|
  {
    if pairs == [] {
      assert keys == {};
    } else {
      var last := |pairs| - 1;
      var front, others := pairs[..last], keys - {pairs[last].0};
      forall k | k in others ensures HasKey(front, k) {
        var j :| 0 <= j < |pairs| && pairs[j].0 == k;
        assert front[j].0 == k;
      }
      DistinctKeysCount(front, others);
    }
  }
}
