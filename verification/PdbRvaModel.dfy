/** The index from addresses to symbol names that is read off the trie. */
module PdbRvaModel {
  import opened PdbTokens
  import opened PdbTrie

  /** An address with the location at which its symbol's name is stored. */
  datatype Pair = Pair(rva: nat, name: nat)

  // ---- reading the trie ----

  function Own(symbol: Symbol, name: nat): seq<Pair> {
    if symbol == EMPTY_SYMBOL then [] else [Pair(symbol.rva, name)]
  }

  function Flat(parts: seq<seq<Pair>>): seq<Pair> { if parts == [] then [] else parts[0] + Flat(parts[1..]) }

  /** The symbols of a node and all below it, parents first. `store` is where a name is kept. */
  function Collect(node: Trie, store: string -> nat): seq<Pair>
    decreases node, 1
  {
    Own(node.symbol, store(node.origin)) + Flat(Parts(node, store))
  }

  function Parts(node: Trie, store: string -> nat): seq<seq<Pair>>
    decreases node, 0
  {
    seq(|node.children|, i requires 0 <= i < |node.children| => Collect(node.children[i], store))
  }

  /** What is held at one path: its symbol, if it has one. */
  function Held(node: Trie, path: seq<string>, store: string -> nat): seq<Pair> {
    Own(SymbolAt(node, path), store(OriginAt(node, path)))
  }

  /** How often a pair occurs. */
  function Times(pairs: seq<Pair>, p: Pair): nat { multiset(pairs)[p] }

  lemma TimesInParts(a: seq<Pair>, b: seq<Pair>, p: Pair)
    ensures Times(a + b, p) == Times(a, p) + Times(b, p)
  {
  }

  lemma {:induction false} FlatAfterUpdate(parts: seq<seq<Pair>>, c: nat, part: seq<Pair>, p: Pair)
    requires c < |parts|
    ensures Times(Flat(parts[c := part]), p) + Times(parts[c], p) == Times(Flat(parts), p) + Times(part, p)
  {
    TimesInParts(parts[0], Flat(parts[1..]), p);
    TimesInParts(parts[c := part][0], Flat(parts[c := part][1..]), p);
    if c > 0 {
      FlatAfterUpdate(parts[1..], c - 1, part, p);
      assert parts[c := part][1..] == parts[1..][c - 1 := part];
    } else {
      assert parts[c := part][1..] == parts[1..];
    }
  }

  lemma {:induction false} FlatAfterAppend(parts: seq<seq<Pair>>, part: seq<Pair>)
    ensures Flat(parts + [part]) == Flat(parts) + part
  {
    if parts != [] {
      FlatAfterAppend(parts[1..], part);
      assert (parts + [part])[1..] == parts[1..] + [part];
    }
  }

  lemma {:induction false} ChainCollects(tokens: seq<string>, origin: string, data: Symbol, store: string -> nat)
    requires tokens != [] && data != EMPTY_SYMBOL
    ensures Collect(Chain(tokens, origin, data), store) == [Pair(data.rva, store(origin))]
  {
    var chain := Chain(tokens, origin, data);
    if |tokens| > 1 {
      ChainCollects(tokens[1..], origin, data, store);
      var only := [Pair(data.rva, store(origin))];
      assert Parts(chain, store) == [only];
      assert Flat([only]) == only + Flat([only][1..]) == only;
    } else {
      assert Parts(chain, store) == [];
    }
  }

  /** What is collected has changed only by what is held at one path. */
  predicate ChangesHeld(before: Trie, after: Trie, path: seq<string>, store: string -> nat, p: Pair) {
    Times(Collect(after, store), p) + Times(Held(before, path, store), p)
    == Times(Collect(before, store), p) + Times(Held(after, path, store), p)
  }

  lemma {:induction false} ChildChangesHeld(before: Trie, after: Trie, path: seq<string>, c: nat, child: Trie,
          store: string -> nat, p: Pair)
    requires path != [] && c < |before.children| && c == Matching(before.children, path[0])
    requires child.prefix == before.children[c].prefix && after == before.(children := before.children[c := child])
    requires ChangesHeld(before.children[c], child, path[1..], store, p)
    ensures ChangesHeld(before, after, path, store, p)
  {
    MatchingAfterUpdate(before.children, c, child, path[0]);
    hide Collect, Times, Held, Matching;
    HeldBelow(before, path, store);
    HeldBelow(after, path, store);
    CollectAfterUpdate(before, c, child, store, p);
  }

  lemma HeldBelow(node: Trie, path: seq<string>, store: string -> nat)
    requires path != [] && Matching(node.children, path[0]) < |node.children|
    ensures Held(node, path, store) == Held(node.children[Matching(node.children, path[0])], path[1..], store)
  {
  }

  lemma CollectAfterUpdate(node: Trie, c: nat, child: Trie, store: string -> nat, p: Pair)
    requires c < |node.children|
    ensures Times(Collect(node.(children := node.children[c := child]), store), p)
            + Times(Collect(node.children[c], store), p)
         == Times(Collect(node, store), p) + Times(Collect(child, store), p)
  {
    var after := node.(children := node.children[c := child]);
    var parts, part := Parts(node, store), Collect(child, store);
    assert Parts(after, store) == parts[c := part];
    FlatAfterUpdate(parts, c, part, p);
    OwnAndBelow(node, store, p);
    OwnAndBelow(after, store, p);
  }

  lemma {:induction false} OwnAndBelow(node: Trie, store: string -> nat, p: Pair)
    ensures Times(Collect(node, store), p)
         == Times(Own(node.symbol, store(node.origin)), p) + Times(Flat(Parts(node, store)), p)
  {
  }

  lemma {:induction false} BranchChangesHeld(before: Trie, after: Trie, path: seq<string>, origin: string,
          data: Symbol, store: string -> nat, p: Pair)
    requires path != [] && data != EMPTY_SYMBOL && Matching(before.children, path[0]) == |before.children|
    requires after == before.(children := before.children + [Chain(path, origin, data)])
    ensures ChangesHeld(before, after, path, store, p)
  {
    var chain := Chain(path, origin, data);
    ChainCollects(path, origin, data, store);
    assert Parts(after, store) == Parts(before, store) + [Collect(chain, store)];
    FlatAfterAppend(Parts(before, store), Collect(chain, store));
    ChainNodes(path, origin, data, path);
    MatchingAfterAppend(before.children, chain, path[0]);
    assert NodeAt(after, path) == NodeAt(chain, path[1..]);
    OwnAndBelow(before, store, p);
    OwnAndBelow(after, store, p);
    TimesInParts(Flat(Parts(before, store)), Collect(chain, store), p);
  }

  /** An insertion changes what is collected only by what is held at its own path. */
  lemma {:induction false} StoreCollects(node: Trie, tokens: seq<string>, origin: string, data: Symbol,
          store: string -> nat, p: Pair)
    requires data != EMPTY_SYMBOL
    ensures ChangesHeld(node, Store(node, tokens, origin, data), tokens, store, p)
    decreases |tokens|
  {
    var after := Store(node, tokens, origin, data);
    if tokens == [] {
      assert Parts(after, store) == Parts(node, store);
      OwnAndBelow(node, store, p);
      OwnAndBelow(after, store, p);
    } else {
      var c := Matching(node.children, tokens[0]);
      if c < |node.children| {
        StoreCollects(node.children[c], tokens[1..], origin, data, store, p);
        StoreChangesOnePath(node.children[c], tokens[1..], origin, data, []);
        ChildChangesHeld(node, after, tokens, c, Store(node.children[c], tokens[1..], origin, data), store, p);
      } else {
        BranchChangesHeld(node, after, tokens, origin, data, store, p);
      }
    }
  }

  // ---- whole runs ----

  predicate NoDuplicates(entries: seq<Entry>) {
    forall i, j :: 0 <= i < j < |entries| ==> entries[i].name != entries[j].name
  }

  /** The pair each entry contributes: its own address, under the name its node is reported by. */
  function Reported(entries: seq<Entry>, root: Trie, store: string -> nat): seq<Pair> {
    seq(|entries|, i requires 0 <= i < |entries| => Pair(entries[i].symbol.rva,
        store(OriginAt(root, Tokens(entries[i].name)))))
  }

  /** Without repeated names every symbol is collected exactly once. */
  lemma {:induction false} EverySymbolOnce(entries: seq<Entry>, store: string -> nat, p: Pair)
    requires Storable(entries) && NoDuplicates(entries)
    ensures Times(Collect(Build(entries), store), p) == Times(Reported(entries, Build(entries), store), p)
  {
    if entries == [] {
      assert Collect(Build(entries), store) == [];
    } else {
      var before, last := entries[..|entries| - 1], entries[|entries| - 1];
      EverySymbolOnce(before, store, p);
      StoreCollects(Build(before), Tokens(last.name), last.name, last.symbol, store, p);
      ReportedGrows(entries, store);
      TimesInParts(Reported(before, Build(before), store), Held(Build(entries), Tokens(last.name), store), p);
    }
  }

  lemma {:induction false} ReportedGrows(entries: seq<Entry>, store: string -> nat)
    requires entries != [] && Storable(entries) && NoDuplicates(entries)
    ensures Held(Build(entries[..|entries| - 1]), Tokens(entries[|entries| - 1].name), store) == []
    ensures Reported(entries, Build(entries), store)
         == Reported(entries[..|entries| - 1], Build(entries[..|entries| - 1]), store)
            + Held(Build(entries), Tokens(entries[|entries| - 1].name), store)
  {
    NewIsNotHeld(entries);
    ReportedStaysReported(entries, store);
    var all, n := Reported(entries, Build(entries), store), |entries| - 1;
    assert all == all[..n] + [all[n]];
  }

  lemma {:induction false} NewIsNotHeld(entries: seq<Entry>)
    requires entries != [] && Storable(entries) && NoDuplicates(entries)
    ensures var last := entries[|entries| - 1];
            && SymbolAt(Build(entries[..|entries| - 1]), Tokens(last.name)) == EMPTY_SYMBOL
            && SymbolAt(Build(entries), Tokens(last.name)) == last.symbol
  {
    var before, last := entries[..|entries| - 1], entries[|entries| - 1];
    var path := Tokens(last.name);
    hide Build, SymbolAt, Tokens, EndsAt;
    SymbolsAreTheNames(before, path);
    NotAmongEarlier(entries);
    NewNameIsStored(before, last);
    assert before + [last] == entries;
  }

  lemma NotAmongEarlier(entries: seq<Entry>)
    requires entries != [] && NoDuplicates(entries)
    ensures !EndsAt(entries[..|entries| - 1], Tokens(entries[|entries| - 1].name))
  {
    var before, last := entries[..|entries| - 1], entries[|entries| - 1];
    if EndsAt(before, Tokens(last.name)) {
      var i :| 0 <= i < |before| && Tokens(last.name) == Tokens(before[i].name);
      SameTokensSameName(last.name, before[i].name);
      assert false;
    }
  }

  lemma {:induction false} ReportedStaysReported(entries: seq<Entry>, store: string -> nat)
    requires entries != [] && Storable(entries)
    ensures var before := entries[..|entries| - 1];
            Reported(entries, Build(entries), store)[..|before|] == Reported(before, Build(before), store)
  {
    var before, last := entries[..|entries| - 1], entries[|entries| - 1];
    forall i | 0 <= i < |before|
      ensures OriginAt(Build(entries), Tokens(entries[i].name)) == OriginAt(Build(before), Tokens(before[i].name))
    {
      var path := Tokens(before[i].name);
      SymbolsAreTheNames(before, path);
      assert EndsAt(before, path);
      StoreChangesOnePath(Build(before), Tokens(last.name), last.name, last.symbol, path);
    }
  }

  /** The index is filled exactly if no name is repeated; every repetition leaves an entry unset. */
  lemma {:induction false} IndexIsFilledIff(entries: seq<Entry>, store: string -> nat)
    requires Storable(entries)
    ensures |Collect(Build(entries), store)| <= |entries|
    ensures |Collect(Build(entries), store)| == |entries| <==> NoDuplicates(entries)
  {
    if entries == [] {
      assert Collect(Build(entries), store) == [];
    } else {
      var before, last := entries[..|entries| - 1], entries[|entries| - 1];
      var path := Tokens(last.name);
      IndexIsFilledIff(before, store);
      CollectedGrows(Build(before), path, last.name, last.symbol, store);
      SymbolsAreTheNames(before, path);
      SymbolsAreTheNames(entries, path);
      assert EndsAt(entries, path);
      LastIsNewIff(entries);
    }
  }

  lemma {:induction false} CollectedGrows(node: Trie, tokens: seq<string>, origin: string, data: Symbol,
          store: string -> nat)
    requires data != EMPTY_SYMBOL
    ensures |Collect(Store(node, tokens, origin, data), store)| + |Held(node, tokens, store)|
         == |Collect(node, store)| + |Held(Store(node, tokens, origin, data), tokens, store)|
  {
    var after := Store(node, tokens, origin, data);
    var a := Collect(after, store) + Held(node, tokens, store);
    var b := Collect(node, store) + Held(after, tokens, store);
    forall p: Pair ensures Times(a, p) == Times(b, p) {
      StoreCollects(node, tokens, origin, data, store, p);
      TimesInParts(Collect(after, store), Held(node, tokens, store), p);
      TimesInParts(Collect(node, store), Held(after, tokens, store), p);
    }
    SameTimesSameLength(a, b);
  }

  lemma SameTimesSameLength(a: seq<Pair>, b: seq<Pair>)
    requires forall p: Pair :: Times(a, p) == Times(b, p)
    ensures multiset(a) == multiset(b) && |a| == |b|
  {
    forall p: Pair ensures multiset(a)[p] == multiset(b)[p] {
      assert Times(a, p) == Times(b, p);
    }
    assert multiset(a) == multiset(b);
    assert |a| == |multiset(a)| && |b| == |multiset(b)|;
  }

  lemma {:induction false} LastIsNewIff(entries: seq<Entry>)
    requires entries != []
    ensures var before, last := entries[..|entries| - 1], entries[|entries| - 1];
            NoDuplicates(entries) <==> NoDuplicates(before) && !EndsAt(before, Tokens(last.name))
  {
    var before, last := entries[..|entries| - 1], entries[|entries| - 1];
    if EndsAt(before, Tokens(last.name)) {
      var i :| 0 <= i < |before| && Tokens(last.name) == Tokens(before[i].name);
      SameTokensSameName(last.name, before[i].name);
      assert entries[i].name == last.name;
    } else if NoDuplicates(before) {
      forall i, j | 0 <= i < j < |entries| ensures entries[i].name != entries[j].name {
        assert entries[i] == before[i];
        if j < |before| {
          assert before[i].name != before[j].name;
        } else {
          assert Tokens(before[i].name) != Tokens(last.name);
        }
      }
    }
  }

  // ---- sorting ----

  predicate Sorted(pairs: seq<Pair>) { forall i, j :: 0 <= i < j < |pairs| ==> pairs[i].rva <= pairs[j].rva }

  /** Moves a new pair down from the end past every pair with a greater address. */
  function Placed(pairs: seq<Pair>, pair: Pair): (r: seq<Pair>) {
    var n := |pairs|;
    if n == 0 || pairs[n - 1].rva <= pair.rva then pairs + [pair] else Placed(pairs[..n - 1], pair) + [pairs[n - 1]]
  }

  function PlacedAll(pairs: seq<Pair>, more: seq<Pair>): seq<Pair>
    decreases |more|
  {
    if more == [] then pairs else PlacedAll(Placed(pairs, more[0]), more[1..])
  }

  predicate Below(pairs: seq<Pair>, bound: nat) { forall i :: 0 <= i < |pairs| ==> pairs[i].rva <= bound }

  lemma {:induction false} PlacingKeepsBelow(pairs: seq<Pair>, pair: Pair, bound: nat)
    requires Below(pairs, bound) && pair.rva <= bound
    ensures Below(Placed(pairs, pair), bound)
  {
    if pairs != [] && pair.rva < pairs[|pairs| - 1].rva {
      PlacingKeepsBelow(pairs[..|pairs| - 1], pair, bound);
    }
  }

  lemma {:induction false} PlacingSorts(pairs: seq<Pair>, pair: Pair)
    requires Sorted(pairs)
    ensures Sorted(Placed(pairs, pair)) && |Placed(pairs, pair)| == |pairs| + 1
  {
    if pairs != [] && pair.rva < pairs[|pairs| - 1].rva {
      PlacingSorts(pairs[..|pairs| - 1], pair);
      PlacingKeepsBelow(pairs[..|pairs| - 1], pair, pairs[|pairs| - 1].rva);
    }
  }

  lemma {:induction false} PlacingAdds(pairs: seq<Pair>, pair: Pair, p: Pair)
    ensures Times(Placed(pairs, pair), p) == Times(pairs, p) + Times([pair], p)
  {
    var n := |pairs|;
    if n == 0 || pairs[n - 1].rva <= pair.rva {
      TimesInParts(pairs, [pair], p);
    } else {
      PlacingAdds(pairs[..n - 1], pair, p);
      TimesInParts(pairs[..n - 1], [pairs[n - 1]], p);
      assert pairs == pairs[..n - 1] + [pairs[n - 1]];
      TimesInParts(Placed(pairs[..n - 1], pair), [pairs[n - 1]], p);
    }
  }

  /** Placing one pair after another yields the same pairs in order of address. */
  lemma {:induction false} PlacingAllSorts(pairs: seq<Pair>, more: seq<Pair>, p: Pair)
    requires Sorted(pairs)
    ensures Sorted(PlacedAll(pairs, more)) && |PlacedAll(pairs, more)| == |pairs| + |more|
    ensures Times(PlacedAll(pairs, more), p) == Times(pairs, p) + Times(more, p)
    decreases |more|
  {
    if more != [] {
      PlacingSorts(pairs, more[0]);
      PlacingAdds(pairs, more[0], p);
      PlacingAllSorts(Placed(pairs, more[0]), more[1..], p);
      assert more == [more[0]] + more[1..];
      TimesInParts([more[0]], more[1..], p);
    }
  }

  lemma {:induction false} PlacedInParts(pairs: seq<Pair>, a: seq<Pair>, b: seq<Pair>)
    ensures PlacedAll(pairs, a + b) == PlacedAll(PlacedAll(pairs, a), b)
    decreases |a|
  {
    if a == [] {
      assert a + b == b;
    } else {
      assert (a + b)[1..] == a[1..] + b;
      PlacedInParts(Placed(pairs, a[0]), a[1..], b);
    }
  }

  /** The finished index: sorted, with every symbol once, under the name that its node reports. */
  lemma {:induction false} IndexIsComplete(entries: seq<Entry>, store: string -> nat)
    requires Storable(entries) && NoDuplicates(entries)
    ensures var index := PlacedAll([], Collect(Build(entries), store));
            && Sorted(index) && |index| == |entries|
            && multiset(index) == multiset(Reported(entries, Build(entries), store))
  {
    var index, reported := PlacedAll([], Collect(Build(entries), store)), Reported(entries, Build(entries), store);
    IndexIsFilledIff(entries, store);
    PlacingAllSorts([], Collect(Build(entries), store), Pair(0, 0));
    forall p: Pair ensures Times(index, p) == Times(reported, p) {
      PlacingAllSorts([], Collect(Build(entries), store), p);
      EverySymbolOnce(entries, store, p);
    }
    SameTimesSameLength(index, reported);
  }
}
