/** The hive: keys to packed value lists, kept in the entry itself while they are small, or to growing lists. */
module Hive {
  import opened Basics
  import opened HivePack
  import opened HashMap

  const SMALL := 64

  /**
   * A key's entry: `size` is negative for a pack of that many bytes inside `storage`, positive for one in allocated
   * memory, whose address is then the first word of `storage`. A list's entry is its vector.
   */
  datatype Entry = KeyEntry(size: int, storage: seq<byte>) | ListEntry(items: seq<HiveValue>)

  function Address(storage: seq<byte>): nat
    requires |storage| >= 8
  {
    FromBytes(storage[..8])
  }

  /** The pack fits where it is kept. */
  ghost predicate Fits(e: Entry, heap: map<nat, seq<byte>>) {
    e.KeyEntry? ==>
      && |e.storage| == SMALL && -e.size <= SMALL
      && (e.size > 0 ==>
         0 < Address(e.storage) < WORD && Address(e.storage) in heap && e.size <= |heap[Address(e.storage)]|)
  }

  /** The pack of a key entry, in place or in allocated memory. */
  ghost function PackOf(e: Entry, heap: map<nat, seq<byte>>): seq<byte>
    requires Fits(e, heap) && e.KeyEntry?
  {
    if e.size <= 0 then e.storage[..-e.size] else heap[Address(e.storage)][..e.size]
  }

  /** The entry stands for this value list. */
  ghost predicate StandsFor(e: Entry, heap: map<nat, seq<byte>>, list: seq<HiveValue>) {
    Fits(e, heap) && AreWords(list) && if e.ListEntry? then e.items == list else PackOf(e, heap) == Encode(list)
  }

  /** The entry's pack is in this piece of allocated memory. */
  ghost predicate Owns(e: Entry, address: nat) {
    e.KeyEntry? && e.size > 0 && |e.storage| == SMALL && Address(e.storage) == address
  }

  /** Writes the pack over the first bytes of a buffer. */
  function Overwrite(buffer: seq<byte>, pack: seq<byte>): seq<byte>
    requires |pack| <= |buffer|
  {
    pack + buffer[|pack|..]
  }

  lemma PointerRoundTrip(storage: seq<byte>, address: nat)
    requires |storage| == SMALL && address < WORD
    ensures |ToBytes(address, 8)| == 8 && Address(Overwrite(storage, ToBytes(address, 8))) == address
  {
    assert Overwrite(storage, ToBytes(address, 8))[..8] == ToBytes(address, 8);
    WordRoundTrip(address);
  }

  // ---------------------------------------------------------------- what the entries and the memory have to agree on

  /** Each entry stands for its list, and no two own the same memory. */
  ghost predicate Consistent(entries: map<string, Entry>, heap: map<nat, seq<byte>>,
          lists: map<string, seq<HiveValue>>) {
    && entries.Keys == lists.Keys
    && (forall k :: k in lists ==> StandsFor(entries[k], heap, lists[k]))
    && forall k, k', a :: k in lists && k' in lists && k != k' && Owns(entries[k], a) ==> !Owns(entries[k'], a)
  }

  /** The memory that entries of other keys own is as it was. */
  ghost predicate OthersKept(entries: map<string, Entry>, key: string, before: map<nat, seq<byte>>,
          after: map<nat, seq<byte>>) {
    forall k, a :: k in entries && k != key && Owns(entries[k], a) && a in before ==>
        a in after && after[a] == before[a]
  }

  /** Only this key's entry, if any, owns the address. */
  ghost predicate Available(entries: map<string, Entry>, key: string, address: nat) {
    0 < address < WORD && forall k :: k in entries && k != key ==> !Owns(entries[k], address)
  }

  /** Rewriting one entry, and at most its own memory, keeps the rest. */
  lemma RewriteKeepsConsistent(entries: map<string, Entry>, heap: map<nat, seq<byte>>,
          lists: map<string, seq<HiveValue>>, key: string, entry: Entry, after: map<nat, seq<byte>>,
          list: seq<HiveValue>)
    requires Consistent(entries, heap, lists) && StandsFor(entry, after, list) && OthersKept(entries, key, heap, after)
    requires forall a :: Owns(entry, a) ==> Available(entries, key, a)
    ensures Consistent(entries[key := entry], after, lists[key := list])
  {
    var entries', lists' := entries[key := entry], lists[key := list];
    forall k | k in lists' ensures StandsFor(entries'[k], after, lists'[k]) {
      if k != key && entries[k].KeyEntry? && entries[k].size > 0 {
        assert Owns(entries[k], Address(entries[k].storage));
      }
    }
  }

  lemma UnusedIsAvailable(entries: map<string, Entry>, heap: map<nat, seq<byte>>, lists: map<string, seq<HiveValue>>,
          key: string, address: nat)
    requires Consistent(entries, heap, lists) && 0 < address < WORD
    requires address !in heap || (key in lists && Owns(entries[key], address))
    ensures Available(entries, key, address)
  {
    forall k | k in entries && k != key ensures !Owns(entries[k], address) {
      assert StandsFor(entries[k], heap, lists[k]);
    }
  }

  lemma OthersStay(entries: map<string, Entry>, key: string, block: nat, address: nat, before: map<nat, seq<byte>>,
          after: map<nat, seq<byte>>)
    requires Available(entries, key, block) && Available(entries, key, address)
    requires forall a :: a in before && a != block && a != address ==> a in after && after[a] == before[a]
    ensures OthersKept(entries, key, before, after)
  {
  }

  lemma EncodeFirst(values: seq<HiveValue>)
    requires values != []
    ensures Encode(values) == ([Tag(values[0].kind)] + ToBytes(values[0].word, 8)) + Encode(values[1..])
  {
  }

  lemma EncodeNone(values: seq<HiveValue>)
    requires values == []
    ensures Encode(values) == []
  {
  }

  lemma WrittenThrough(before: seq<byte>, p: nat, tag: byte, word: seq<byte>)
    requires |word| == 8 && p + 9 <= |before|
    ensures var after := before[p := tag][..p + 1] + word + before[p := tag][p + 9..];
            after[..p + 9] == before[..p] + ([tag] + word) && after[p + 9..] == before[p + 9..]
  {
  }

  class HiveStore {
    const keys: UnorderedMap<string, Entry>
    // allocated memory, by address
    var heap: map<nat, seq<byte>>
    ghost var lists: map<string, seq<HiveValue>>

    constructor (hash: string -> nat)
      ensures Valid() && lists == map[] && fresh(keys) && fresh(keys.slots)
    {
      keys := new UnorderedMap<string, Entry>(hash);
      heap, lists := map[], map[];
    }

    /** Under each key is the list last put there. */
    ghost predicate Valid()
      reads this, keys, keys.slots
    {
      keys.Valid() && Consistent(keys.contents, heap, lists)
    }

    ghost predicate IsList(key: string)
      reads keys
    {
      key in keys.contents && keys.contents[key].ListEntry?
    }

    /** Bytes needed for the values. */
    method PackSize(values: seq<HiveValue>) returns (size: nat)
      ensures size == |Encode(values)| == 9 * |values|
    {
      size := 0;
      for i := 0 to |values|
        invariant size == 9 * i
      {
        size := size + 1;
        size := size + 8;
      }
    }

    /** Writes the values to a buffer, tag and word each. */
    method ParseParameterPack(values: seq<HiveValue>, buffer: seq<byte>) returns (pack: seq<byte>)
      requires |Encode(values)| <= |buffer|
      ensures pack == Overwrite(buffer, Encode(values))
    {
      hide ToBytes, Tag, Encode;
      pack := buffer;
      var p := 0;
      assert values[0..] == values;
      for i := 0 to |values|
        invariant p == 9 * i && |pack| == |buffer| && pack[..p] + Encode(values[i..]) == Encode(values)
                  && pack[p..] == buffer[p..]
      {
        ghost var before := pack;
        EncodeFirst(values[i..]);
        assert values[i..][1..] == values[i + 1..];
        pack := pack[p := Tag(values[i].kind)];
        p := p + 1;
        var word := ToBytes(values[i].word, 8);
        pack := pack[..p] + word + pack[p + 8..];
        p := p + 8;
        WrittenThrough(before, p - 9, Tag(values[i].kind), word);
        assert before[..p - 9] + (([Tag(values[i].kind)] + word) + Encode(values[i + 1..]))
               == pack[..p] + Encode(values[i + 1..]);
        assert pack[p..] == before[p - 9..][9..] == buffer[p..];
      }
      EncodeNone(values[|values|..]);
    }

    /** Puts the pack into the entry itself, which marks it by a negative size. */
    method WriteInPlace(storage: seq<byte>, values: seq<HiveValue>) returns (entry: Entry)
      requires AreWords(values) && |storage| == SMALL && |Encode(values)| <= SMALL
      ensures StandsFor(entry, heap, values) && forall a :: !Owns(entry, a)
      ensures entry.KeyEntry? && entry.size == -9 * |values|
    {
      var size: int := PackSize(values);
      var filled := ParseParameterPack(values, storage);
      entry := KeyEntry(-size, filled);
      assert filled[..size] == Encode(values);
    }

    /** Puts the pack into allocated memory that the entry points to. */
    method WriteAllocated(storage: seq<byte>, address: nat, values: seq<HiveValue>) returns (entry: Entry)
      requires AreWords(values) && |storage| == SMALL && address in heap && 0 < address < WORD
               && |Encode(values)| <= |heap[address]|
      modifies this`heap
      ensures heap.Keys == old(heap).Keys && forall a :: a in heap && a != address ==> heap[a] == old(heap)[a]
      ensures StandsFor(entry, heap, values) && forall a :: Owns(entry, a) ==> a == address
      ensures entry.KeyEntry? && entry.size == 9 * |values|
    {
      var size: int := PackSize(values);
      var filled := ParseParameterPack(values, heap[address]);
      PointerRoundTrip(storage, address);
      entry := KeyEntry(size, Overwrite(storage, ToBytes(address, 8)));
      heap := heap[address := filled];
      assert filled[..size] == Encode(values);
    }

    /** The allocator hands out `size` bytes at `address`. */
    method Allocate(address: nat, size: nat)
      requires address !in heap
      modifies this`heap
      ensures heap.Keys == old(heap).Keys + {address} && |heap[address]| == size
      ensures forall a :: a in old(heap) ==> heap[a] == old(heap)[a]
    {
      heap := heap[address := seq(size, _ => 0)];
    }

    /** The allocator moves the bytes at `from` to `address` (which may be `from`), in a piece of `size` bytes. */
    method Reallocate(from: nat, address: nat, size: nat)
      requires from in heap && (address == from || address !in heap)
      modifies this`heap
      ensures heap.Keys == old(heap).Keys - {from} + {address} && |heap[address]| == size
      ensures forall a :: a in old(heap) && a != from ==> heap[a] == old(heap)[a]
    {
      var kept := if |heap[from]| < size then heap[from] else heap[from][..size];
      heap := (heap - {from})[address := kept + seq(size - |kept|, _ => 0)];
    }

    /**
     * The entry of a key may be given a new pack, and `address` is where the allocator would put it: an unused address,
     * or, when memory is resized, possibly the address it has.
     */
    ghost predicate CanRewrite(key: string, entry: Entry, values: seq<HiveValue>, address: nat)
      reads this, keys, keys.slots
    {
      && Valid() && AreWords(values) && key in lists && entry == keys.contents[key] && entry.KeyEntry?
         && 0 < address < WORD
      && (address !in heap || (Owns(entry, address) && |Encode(values)| > entry.size))
    }

    lemma RewritableStorage(key: string, entry: Entry, values: seq<HiveValue>, address: nat)
      requires CanRewrite(key, entry, values, address)
      ensures entry.KeyEntry? && AreWords(values) && |entry.storage| == SMALL && -entry.size <= SMALL
      ensures 0 < address < WORD && Available(keys.contents, key, address)
      ensures entry.size <= 0 ==> address !in heap
      ensures entry.size > 0 ==>
                var block := Address(entry.storage);
                && 0 < block < WORD && block in heap && entry.size <= |heap[block]|
                && (address in heap ==> address == block) && Available(keys.contents, key, block)
    {
      assert StandsFor(entry, heap, lists[key]);
      UnusedIsAvailable(keys.contents, heap, lists, key, address);
      if entry.size > 0 {
        assert Owns(entry, Address(entry.storage));
        UnusedIsAvailable(keys.contents, heap, lists, key, Address(entry.storage));
      }
    }

    /** Finds room for the new pack of a key entry and writes it there. */
    method Rewrite(key: string, entry: Entry, values: seq<HiveValue>, address: nat) returns (updated: Entry)
      requires CanRewrite(key, entry, values, address)
      modifies this`heap
      ensures StandsFor(updated, heap, values) && OthersKept(keys.contents, key, old(heap), heap)
      ensures forall a :: Owns(updated, a) ==> Available(keys.contents, key, a)
      ensures updated.KeyEntry?
      ensures updated.size == if entry.size > 0 || |values| > 7 then 9 * |values| else -9 * |values|
      ensures entry.size <= 0 && |values| <= 7 ==> heap == old(heap)
    {
      hide CanRewrite, StandsFor, Owns, Available;
      RewritableStorage(key, entry, values, address);
      var packSize := PackSize(values);
      var realSize := if entry.size < 0 then -entry.size else entry.size;
      if entry.size > 0 {
        updated := RewriteAllocated(key, entry, values, address);
      } else if realSize < packSize && packSize > SMALL {
        Allocate(address, packSize);
        updated := WriteAllocated(entry.storage, address, values);
      } else {
        updated := WriteInPlace(entry.storage, values);
      }
    }

    /** The same for an entry whose pack is in allocated memory, which may have to grow. */
    method RewriteAllocated(key: string, entry: Entry, values: seq<HiveValue>, address: nat) returns (updated: Entry)
      requires CanRewrite(key, entry, values, address) && entry.size > 0
      modifies this`heap
      ensures StandsFor(updated, heap, values) && OthersKept(keys.contents, key, old(heap), heap)
      ensures forall a :: Owns(updated, a) ==> Available(keys.contents, key, a)
      ensures updated.KeyEntry? && updated.size == 9 * |values|
    {
      hide CanRewrite, StandsFor, Owns, Available, OthersKept, Address, Encode;
      RewritableStorage(key, entry, values, address);
      var packSize := PackSize(values);
      var block := Address(entry.storage);
      ghost var was := block;
      if entry.size < packSize {
        Reallocate(block, address, packSize);
        block := address;
      }
      updated := WriteAllocated(entry.storage, block, values);
      OthersStay(keys.contents, key, was, address, old(heap), heap);
    }

    /** Stores the pack of a key that is not there yet. */
    method WriteNew(key: string, values: seq<HiveValue>, address: nat) returns (entry: Entry)
      requires Valid() && AreWords(values) && key !in lists && 0 < address < WORD && address !in heap
      modifies this`heap
      ensures StandsFor(entry, heap, values) && OthersKept(keys.contents, key, old(heap), heap)
      ensures forall a :: Owns(entry, a) ==> Available(keys.contents, key, a)
      ensures entry.KeyEntry? && entry.size == if |values| > 7 then 9 * |values| else -9 * |values|
      ensures |values| <= 7 ==> heap == old(heap)
    {
      UnusedIsAvailable(keys.contents, heap, lists, key, address);
      var storage := seq(SMALL, _ => 0);
      var packSize := PackSize(values);
      if packSize > SMALL {
        Allocate(address, packSize);
        entry := WriteAllocated(storage, address, values);
      } else {
        entry := WriteInPlace(storage, values);
      }
    }

    /**
     * Sets the list of a key that is not a growing list. `address` is where the allocator would put memory, should any
     * be asked for: an unused address, or, when memory is resized, possibly the address it has.
     */
    method Set(key: string, values: seq<HiveValue>, address: nat)
      requires Valid() && AreWords(values) && !IsList(key) && 0 < address < WORD
      requires address !in heap
               || (key in lists && Owns(keys.contents[key], address) && |Encode(values)| > keys.contents[key].size)
      modifies this`lists, this`heap, keys, keys.slots
      ensures Valid() && lists == old(lists)[key := values]
      ensures var outside := |values| > 7 || (key in old(keys.contents) && old(keys.contents[key]).size > 0);
              && key in keys.contents && keys.contents[key].KeyEntry?
              && keys.contents[key].size == (if outside then 9 * |values| else -9 * |values|)
              && (!outside ==> heap == old(heap))
    {
      var found, existing := keys.Find(key);
      var entry;
      if found {
        assert existing[0].KeyEntry?;
        entry := Rewrite(key, existing[0], values, address);
      } else {
        entry := WriteNew(key, values, address);
      }
      StoreEntry(key, entry, values, old(heap));
    }

    /** Puts a finished entry into the map. */
    method StoreEntry(key: string, entry: Entry, ghost list: seq<HiveValue>, ghost before: map<nat, seq<byte>>)
      requires keys.Valid() && Consistent(keys.contents, before, lists)
      requires StandsFor(entry, heap, list) && OthersKept(keys.contents, key, before, heap)
      requires forall a :: Owns(entry, a) ==> Available(keys.contents, key, a)
      modifies this`lists, keys, keys.slots
      ensures Valid() && lists == old(lists)[key := list]
      ensures keys.contents == old(keys.contents)[key := entry]
    {
      RewriteKeepsConsistent(keys.contents, before, lists, key, entry, heap, list);
      ghost var entries, updated := keys.contents[key := entry], lists[key := list];
      var _ := keys.Insert(key, entry);
      lists := updated;
      assert keys.contents == entries;
    }

    /** Appends the values of a key to `out`. */
    method Get(key: string, out: seq<HiveValue>) returns (found: bool, values: seq<HiveValue>)
      requires Valid() && !IsList(key)
      ensures found == (key in lists) && values == if found then out + lists[key] else out
    {
      values := out;
      var existing;
      found, existing := keys.Find(key);
      if found {
        var entry := existing[0];
        assert StandsFor(entry, heap, lists[key]);
        var pack := if entry.size < 0 then entry.storage[..-entry.size]
                    else if entry.size == 0 then [] else heap[Address(entry.storage)][..entry.size];
        values := Unpack(pack, lists[key], out);
      }
    }

    /** Reads values off a pack until it is used up. */
    method Unpack(pack: seq<byte>, ghost list: seq<HiveValue>, out: seq<HiveValue>) returns (values: seq<HiveValue>)
      requires pack == Encode(list) && AreWords(list)
      ensures values == out + list
    {
      hide ToBytes, FromBytes;
      values := out;
      var p, packSize := 0, |pack|;
      ghost var i := 0;
      while packSize != 0
        invariant 0 <= i <= |list| && p == 9 * i && packSize == |pack| - p
        invariant values == out + list[..i] && pack[p..] == Encode(list[i..])
      {
        ghost var rest := pack[p..];
        WordRoundTrip(list[i].word);
        assert rest == [Tag(list[i].kind)] + ToBytes(list[i].word, 8) + Encode(list[i + 1..]);
        assert list[i..][1..] == list[i + 1..];
        assert rest[1..9] == ToBytes(list[i].word, 8) && rest[9..] == Encode(list[i + 1..]);
        var tag := pack[p];
        p, packSize := p + 1, packSize - 1;
        assert pack[p..p + 8] == rest[1..9];
        values := values + [HiveValue(KindOf(tag), FromBytes(pack[p..p + 8]))];
        p, packSize := p + 8, packSize - 8;
        i := i + 1;
      }
    }

    method AppendAll(items: seq<HiveValue>, values: seq<HiveValue>) returns (all: seq<HiveValue>)
      ensures all == items + values
    {
      all := items;
      for i := 0 to |values|
        invariant all == items + values[..i]
      {
        all := all + [values[i]];
      }
    }

    /** Creates a list, or appends to it. */
    method Push(key: string, values: seq<HiveValue>)
      requires Valid() && AreWords(values) && (key in lists ==> IsList(key))
      modifies this`lists, keys, keys.slots
      ensures Valid() && lists == old(lists)[key := (if key in old(lists) then old(lists)[key] else []) + values]
    {
      var found, existing := keys.Find(key);
      assert found ==> StandsFor(existing[0], heap, lists[key]);
      ghost var list := (if key in lists then lists[key] else []) + values;
      var items := if found then existing[0].items else [];
      items := AppendAll(items, values);
      StoreEntry(key, ListEntry(items), list, heap);
    }

    /** The values under a key, whichever kind of entry it has. */
    method ValuesOf(key: string, entry: Entry) returns (values: seq<HiveValue>)
      requires Valid() && key in lists && keys.contents[key] == entry
      ensures values == lists[key]
    {
      assert StandsFor(entry, heap, lists[key]);
      match entry
      case KeyEntry(_, _) =>
        var _, got := Get(key, []);
        values := got;
      case ListEntry(items) =>
        values := items;
    }

    /** The values of every key, in the order the iterator meets them. */
    method VisitValues() returns (visits: seq<(string, seq<HiveValue>)>)
      requires Valid()
      ensures DistinctKeys(visits) && |visits| == |lists|
      ensures forall j :: 0 <= j < |visits| ==> visits[j].0 in lists && visits[j].1 == lists[visits[j].0]
    {
      VisitsEachPairOnce(keys);
      assert |lists.Keys| == |keys.contents.Keys|;
      var pairs := keys.VisitAll();
      visits := VisitPairs(pairs);
    }

    method VisitPairs(pairs: seq<(string, Entry)>) returns (visits: seq<(string, seq<HiveValue>)>)
      requires Valid() && forall j :: 0 <= j < |pairs| ==>
               pairs[j].0 in lists && keys.contents[pairs[j].0] == pairs[j].1
      ensures |visits| == |pairs|
      ensures forall j :: 0 <= j < |visits| ==> visits[j].0 == pairs[j].0 && visits[j].1 == lists[visits[j].0]
    {
      hide *;
      visits := [];
      for i := 0 to |pairs|
        invariant |visits| == i && forall j :: 0 <= j < i ==>
                  visits[j].0 == pairs[j].0 && visits[j].1 == lists[visits[j].0]
      {
        var values := ValuesOf(pairs[i].0, pairs[i].1);
        visits := visits + [(pairs[i].0, values)];
      }
    }
  }
}
