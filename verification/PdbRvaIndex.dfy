/** Filling the two parallel arrays of the index from addresses to names, and searching them. */
module PdbRvaIndex {
  import opened Arithmetic
  import opened Basics
  import opened PdbTokens
  import opened PdbTrie
  import opened PdbRvaModel
  import opened PdbIndex
  import opened BitArithmetic

  function Zip(rvas: seq<nat>, names: seq<nat>, n: nat): (pairs: seq<Pair>)
    requires n <= |rvas| && n <= |names|
    ensures |pairs| == n && forall i :: 0 <= i < n ==> pairs[i] == Pair(rvas[i], names[i])
  {
    seq(n, i requires 0 <= i < n => Pair(rvas[i], names[i]))
  }

  /** Exchanges an element with the one before it by three exclusive-or steps. */
  method SwapDown(a: array<nat>, i: nat)
    requires 0 < i < a.Length
    modifies a
    ensures a[..] == old(a[..])[i - 1 := old(a[i])][i := old(a[i - 1])]
  {
    XorSwaps(a[i], a[i - 1]);
    a[i] := Xor(a[i], a[i - 1]);
    a[i - 1] := Xor(a[i - 1], a[i]);
    a[i] := Xor(a[i], a[i - 1]);
  }

  /** A pair on its way down: `i` pairs before it, the others moved up by one. */
  function Halfway(was: seq<Pair>, pair: Pair, i: nat): seq<Pair>
    requires i <= |was|
  {
    was[..i] + [pair] + was[i..]
  }

  /** A pair that has passed every greater one, and nothing else, is in its place. */
  lemma {:induction false} HalfwayIsPlaced(was: seq<Pair>, pair: Pair, i: nat)
    requires i <= |was| && (i > 0 ==> was[i - 1].rva <= pair.rva)
    requires forall k :: i <= k < |was| ==> pair.rva < was[k].rva
    ensures Halfway(was, pair, i) == Placed(was, pair)
  {
    if i < |was| {
      HalfwayIsPlaced(was[..|was| - 1], pair, i);
    }
  }

  /** Swaps a pair on its way down with the one before it, in both arrays. */
  method StepDown(rvas: array<nat>, names: array<nat>, i: nat, ghost was: seq<Pair>, ghost pair: Pair)
    requires rvas != names && 0 < i <= |was| < rvas.Length == names.Length
    requires Zip(rvas[..], names[..], |was| + 1) == Halfway(was, pair, i)
    modifies rvas, names
    ensures Zip(rvas[..], names[..], |was| + 1) == Halfway(was, pair, i - 1)
  {
    ghost var z := Zip(rvas[..], names[..], |was| + 1);
    SwapDown(rvas, i);
    SwapDown(names, i);
    assert Zip(rvas[..], names[..], |was| + 1) == z[i - 1 := z[i]][i := z[i - 1]];
    SwapsDown(was, pair, i);
  }

  lemma SwapsDown(was: seq<Pair>, pair: Pair, i: nat)
    requires 0 < i <= |was|
    ensures Halfway(was, pair, i - 1)
            == Halfway(was, pair, i)[i - 1 := Halfway(was, pair, i)[i]][i := Halfway(was, pair, i)[i - 1]]
  {
  }

  /** Moves the last of the pairs down to its place. */
  method MoveDown(rvas: array<nat>, names: array<nat>, n: nat, ghost was: seq<Pair>, ghost pair: Pair)
    requires rvas != names && n == |was| < rvas.Length == names.Length
    requires Zip(rvas[..], names[..], n + 1) == Halfway(was, pair, n)
    modifies rvas, names
    ensures Zip(rvas[..], names[..], n + 1) == Placed(was, pair)
  {
    var i := n;
    while i > 0 && rvas[i] < rvas[i - 1]
      invariant 0 <= i <= n && Zip(rvas[..], names[..], n + 1) == Halfway(was, pair, i)
      invariant forall k :: i <= k < n ==> pair.rva < was[k].rva
    {
      IsHalfway(Zip(rvas[..], names[..], n + 1), was, pair, i);
      StepDown(rvas, names, i, was, pair);
      i := i - 1;
    }
    if i > 0 {
      IsHalfway(Zip(rvas[..], names[..], n + 1), was, pair, i);
    }
    HalfwayIsPlaced(was, pair, i);
  }

  /** Enters a new pair at the end and moves it down to its place, in both arrays at once. */
  method PlaceSymbol(rvas: array<nat>, names: array<nat>, n: nat, pair: Pair)
    requires rvas != names && n < rvas.Length == names.Length
    modifies rvas, names
    ensures Zip(rvas[..], names[..], n + 1) == Placed(old(Zip(rvas[..], names[..], n)), pair)
  {
    ghost var was := Zip(rvas[..], names[..], n);
    rvas[n] := pair.rva;
    names[n] := pair.name;
    assert Zip(rvas[..], names[..], n + 1) == Halfway(was, pair, n);
    MoveDown(rvas, names, n, was, pair);
  }

  lemma IsHalfway(z: seq<Pair>, was: seq<Pair>, pair: Pair, i: nat)
    requires 0 < i <= |was| && z == Halfway(was, pair, i)
    ensures z[i] == pair && z[i - 1] == was[i - 1]
  {
  }

  /** Enters the symbols of a node and of everything below it into the arrays. */
  method EnterNode(node: Trie, store: string -> nat, rvas: array<nat>, names: array<nat>, n: nat) returns (after: nat)
    requires rvas != names && rvas.Length == names.Length && n + |Collect(node, store)| <= rvas.Length
    modifies rvas, names
    ensures after == n + |Collect(node, store)|
    ensures Zip(rvas[..], names[..], after) == PlacedAll(old(Zip(rvas[..], names[..], n)), Collect(node, store))
    decreases node, 1
  {
    after := n;
    ghost var own, parts := Own(node.symbol, store(node.origin)), Parts(node, store);
    ghost var was := Zip(rvas[..], names[..], n);
    if node.symbol != EMPTY_SYMBOL {
      PlaceSymbol(rvas, names, n, Pair(node.symbol.rva, store(node.origin)));
      after := after + 1;
    }
    assert Zip(rvas[..], names[..], after) == PlacedAll(was, own);
    var c := 0;
    assert parts[0..] == parts;
    while c < |node.children|
      invariant c <= |node.children| && after + |Flat(parts[c..])| == n + |own| + |Flat(parts)|
      invariant PlacedAll(Zip(rvas[..], names[..], after), Flat(parts[c..]))
                == PlacedAll(PlacedAll(was, own), Flat(parts))
    {
      ghost var rest := parts[c..];
      assert rest[0] == Collect(node.children[c], store) && rest[1..] == parts[c + 1..];
      PlacedInParts(Zip(rvas[..], names[..], after), rest[0], Flat(rest[1..]));
      after := EnterNode(node.children[c], store, rvas, names, after);
      c := c + 1;
    }
    PlacedInParts(was, own, Flat(parts));
  }

  /** Builds both arrays, one entry for every symbol that was counted while loading. */
  method BuildRvaIndex(root: Trie, count: nat, store: string -> nat) returns (rvas: array<nat>, names: array<nat>)
    requires |Collect(root, store)| <= count
    ensures fresh(rvas) && fresh(names) && rvas != names && rvas.Length == names.Length == count
    ensures Zip(rvas[..], names[..], |Collect(root, store)|) == PlacedAll([], Collect(root, store))
  {
    rvas := new nat[count];
    names := new nat[count];
    assert Zip(rvas[..], names[..], 0) == [];
    var n := EnterNode(root, store, rvas, names, 0);
  }

  // ---- looking an address up ----

  datatype Outcome = NoSymbols | Chosen(index: nat) | OutOfBounds

  /** Whether halving down from `hi`, always to the left, reaches 1, from where the index wraps. */
  predicate WrapsFrom(hi: nat) { if hi < 2 then hi == 1 else WrapsFrom(hi / 2 - 1) }

  /** One more than the number of symbols with last index `hi` is in the last quarter before `Pow2(k + 2)`. */
  predicate InLastQuarter(hi: nat, k: nat) { 3 * Pow2(k) <= hi + 2 < 4 * Pow2(k) }

  lemma QuarterHalves(hi: nat, k: nat)
    requires hi >= 2
    ensures InLastQuarter(hi / 2 - 1, k) <==> InLastQuarter(hi, k + 1)
  {
  }

  /** The halving in closed form. */
  lemma {:induction false} WrapsIff(hi: nat)
    ensures WrapsFrom(hi) <==> exists k: nat :: InLastQuarter(hi, k)
  {
    if hi == 0 {
      assert Pow2(0) == 1;
    } else if hi == 1 {
      assert InLastQuarter(hi, 0);
    } else {
      WrapsIff(hi / 2 - 1);
      if WrapsFrom(hi) {
        var k: nat :| InLastQuarter(hi / 2 - 1, k);
        QuarterHalves(hi, k);
      }
      if k: nat :| InLastQuarter(hi, k) {
        assert k > 0;
        QuarterHalves(hi, k - 1);
      }
    }
  }

  /** The index before another, in words. */
  function Before(mid: nat): nat { if mid == 0 then WORD - 1 else mid - 1 }

  function Middle(lo: nat, hi: nat): nat { (if hi + lo < WORD then hi + lo else hi + lo - WORD) / 2 }

  predicate SortedArray(rvas: array<nat>)
    reads rvas
  {
    forall i, j :: 0 <= i < j < rvas.Length ==> rvas[i] <= rvas[j]
  }

  /**
   * Searches for the symbol an address belongs to: the one at that address, or the last below it.
   * In sorted arrays it finds it exactly if the address is not below every symbol; otherwise the search
   * either settles on the first symbol, which lies above, or its upper bound wraps and it leaves the
   * array. In any arrays it either chooses an entry of them or leaves them.
   */
  method SymbolIndexForAddress(rvas: array<nat>, rva: nat) returns (outcome: Outcome)
    requires rvas.Length <= WORD / 4
    ensures outcome == NoSymbols <==> rvas.Length == 0
    ensures outcome.Chosen? ==> outcome.index < rvas.Length
    ensures SortedArray(rvas) && rvas.Length > 0 && rvas[0] <= rva ==>
              && outcome.Chosen? && rvas[outcome.index] <= rva
              && (rvas[outcome.index] == rva || forall i :: outcome.index < i < rvas.Length ==> rva < rvas[i])
    ensures SortedArray(rvas) && rvas.Length > 0 && rva < rvas[0] ==>
              outcome == if WrapsFrom(rvas.Length - 1) then OutOfBounds else Chosen(0)
  {
    if rvas.Length == 0 {
      return NoSymbols;
    }
    var lo: nat, hi: nat := 0, rvas.Length - 1;
    var mid := Middle(lo, hi);
    while lo < hi
      invariant 0 <= lo <= hi + 1 && hi < rvas.Length && mid == (hi + lo) / 2
      invariant SortedArray(rvas) && rvas[0] <= rva ==>
                  lo <= hi && rvas[lo] <= rva && forall i :: hi < i < rvas.Length ==> rva < rvas[i]
      invariant SortedArray(rvas) && rva < rvas[0] ==> lo == 0 && WrapsFrom(rvas.Length - 1) == WrapsFrom(hi)
      decreases hi - lo
    {
      if rvas[mid] >= rva {
        if rvas[mid] == rva {
          break;
        }
        hi := Before(mid);
      } else {
        if rvas[mid + 1] > rva {
          break;
        }
        lo := mid + 1;
      }
      mid := Middle(lo, hi);
      if lo < hi && mid >= rvas.Length {
        return OutOfBounds; // the next step would read past the end
      }
    }
    return Chosen(mid);
  }

  /** What is chosen is a stored symbol, under its reported name, with no other as near below. */
  lemma {:induction false} ChosenIsNearest(entries: seq<Entry>, store: string -> nat, rva: nat, k: nat) returns (e: nat)
    requires Storable(entries) && NoDuplicates(entries)
    requires k < |PlacedAll([], Collect(Build(entries), store))|
    requires var index := PlacedAll([], Collect(Build(entries), store));
             index[k].rva <= rva && (index[k].rva == rva || forall i :: k < i < |index| ==> rva < index[i].rva)
    ensures e < |entries|
    ensures PlacedAll([], Collect(Build(entries), store))[k]
         == Pair(entries[e].symbol.rva, store(OriginAt(Build(entries), Tokens(entries[e].name))))
    ensures forall j :: 0 <= j < |entries| && entries[j].symbol.rva <= rva ==>
            entries[j].symbol.rva <= entries[e].symbol.rva
  {
    var index, reported := PlacedAll([], Collect(Build(entries), store)), Reported(entries, Build(entries), store);
    IndexIsComplete(entries, store);
    e := NearestOf(index, reported, rva, k);
    forall j | 0 <= j < |entries| && entries[j].symbol.rva <= rva
      ensures entries[j].symbol.rva <= entries[e].symbol.rva
    {
      assert reported[j].rva <= rva;
    }
  }

  /** The same, whatever the order of the pairs the index was made from. */
  lemma NearestOf(index: seq<Pair>, reported: seq<Pair>, rva: nat, k: nat) returns (e: nat)
    requires multiset(index) == multiset(reported) && k < |index|
    requires index[k].rva <= rva && (index[k].rva == rva || forall i :: k < i < |index| ==> rva < index[i].rva)
    requires forall i, j :: 0 <= i < j < |index| ==> index[i].rva <= index[j].rva
    ensures e < |reported| && reported[e] == index[k]
    ensures forall j :: 0 <= j < |reported| && reported[j].rva <= rva ==> reported[j].rva <= index[k].rva
  {
    assert index[k] in multiset(reported);
    e :| 0 <= e < |reported| && reported[e] == index[k];
    forall j | 0 <= j < |reported| && reported[j].rva <= rva ensures reported[j].rva <= index[k].rva {
      assert reported[j] in multiset(index);
      var i :| 0 <= i < |index| && index[i] == reported[j];
    }
  }

  // ---- from the symbols of a file to the name of an address ----

  /** What the arrays hold, seen from the entries they were filled from. */
  ghost predicate Indexes(rvas: seq<nat>, names: seq<nat>, reported: seq<Pair>) {
    && |rvas| == |names| == |reported|
    && Sorted(Zip(rvas, names, |rvas|)) && multiset(Zip(rvas, names, |rvas|)) == multiset(reported)
  }

  /** The first entry of the index is one of those reported, with the least address. */
  lemma FirstIsLeast(index: seq<Pair>, reported: seq<Pair>) returns (e: nat)
    requires multiset(index) == multiset(reported) && index != [] && Sorted(index)
    ensures e < |reported| && reported[e] == index[0]
            && forall j :: 0 <= j < |reported| ==> index[0].rva <= reported[j].rva
  {
    assert index[0] in multiset(reported);
    e :| 0 <= e < |reported| && reported[e] == index[0];
    forall j | 0 <= j < |reported| ensures index[0].rva <= reported[j].rva {
      assert reported[j] in multiset(index);
      var i :| 0 <= i < |index| && index[i] == reported[j];
    }
  }

  /** The arrays of entries without repeated names. */
  method IndexSymbols(entries: seq<Entry>, store: string -> nat) returns (rvas: array<nat>, names: array<nat>)
    requires Storable(Named(entries)) && NoDuplicates(Named(entries))
    ensures fresh(rvas) && fresh(names)
    ensures Indexes(rvas[..], names[..], Reported(Named(entries), Build(Named(entries)), store))
  {
    var root, count := Load(entries);
    IndexIsFilledIff(Named(entries), store);
    IndexIsComplete(Named(entries), store);
    rvas, names := BuildRvaIndex(root, count, store);
  }

  /** How well a symbol answers an address: none other is nearer below, or none lies below and it is the first. */
  ghost predicate Answers(entries: seq<Entry>, e: nat, rva: nat) {
    && e < |entries|
    && if entries[e].symbol.rva <= rva
       then forall j :: 0 <= j < |entries| && entries[j].symbol.rva <= rva ==>
           entries[j].symbol.rva <= entries[e].symbol.rva
       else forall j :: 0 <= j < |entries| ==> entries[e].symbol.rva <= entries[j].symbol.rva
  }

  /**
   * From the symbols of a file and an address to the name that is reported for it. Without repeated names it is
   * that of the nearest symbol at or below the address; if every symbol lies above, it is that of the first one, unless
   * the search leaves the array, which the number of symbols decides.
   */
  method SymbolNameForAddress(entries: seq<Entry>, store: string -> nat, rva: nat)
    returns (outcome: Outcome, name: nat, ghost e: nat)
    requires Storable(Named(entries)) && NoDuplicates(Named(entries)) && |Named(entries)| <= WORD / 4
    ensures outcome == NoSymbols <==> Named(entries) == []
    ensures outcome == OutOfBounds <==>
            && Named(entries) != [] && WrapsFrom(|Named(entries)| - 1)
            && forall j :: 0 <= j < |Named(entries)| ==> rva < Named(entries)[j].symbol.rva
    ensures outcome.Chosen? ==>
              && Answers(Named(entries), e, rva)
              && name == store(OriginAt(Build(Named(entries)), Tokens(Named(entries)[e].name)))
  {
    ghost var named := Named(entries);
    ghost var reported := Reported(named, Build(named), store);
    hide Build, Named, Storable, NoDuplicates, OriginAt, Tokens, WrapsFrom, Answers;
    var rvas, names := IndexSymbols(entries, store);
    ghost var index := Zip(rvas[..], names[..], rvas.Length);
    SortedIndexIsSorted(rvas, index);
    outcome := SymbolIndexForAddress(rvas, rva);
    name, e := 0, 0;
    if outcome.Chosen? {
      name := names[outcome.index];
    }
    if rvas.Length > 0 {
      e := ChosenAnswers(named, reported, index, rvas[..], rva, outcome);
    }
  }

  lemma SortedIndexIsSorted(rvas: array<nat>, index: seq<Pair>)
    requires Sorted(index) && |index| == rvas.Length && forall i :: 0 <= i < |index| ==> index[i].rva == rvas[i]
    ensures SortedArray(rvas)
  {
    forall i, j | 0 <= i < j < rvas.Length ensures rvas[i] <= rvas[j] {
      assert index[i].rva <= index[j].rva;
    }
  }

  /** The outcome of the search, seen from the entries that the index was filled from. */
  lemma ChosenAnswers(named: seq<Entry>, reported: seq<Pair>, index: seq<Pair>, rvas: seq<nat>, rva: nat,
      outcome: Outcome)
    returns (e: nat)
    requires multiset(index) == multiset(reported) && index != [] && Sorted(index) && |rvas| == |index|
    requires forall i :: 0 <= i < |index| ==> index[i].rva == rvas[i]
    requires |reported| == |named| && forall j :: 0 <= j < |named| ==> reported[j].rva == named[j].symbol.rva
    requires outcome.Chosen? ==> outcome.index < |index|
    requires index[0].rva <= rva ==>
               && outcome.Chosen? && rvas[outcome.index] <= rva
               && (rvas[outcome.index] == rva || forall i :: outcome.index < i < |rvas| ==> rva < rvas[i])
    requires rva < index[0].rva ==> outcome == OutOfBounds || outcome == Chosen(0)
    ensures index[0].rva <= rva <==> exists j :: 0 <= j < |named| && named[j].symbol.rva <= rva
    ensures outcome.Chosen? ==> Answers(named, e, rva) && reported[e] == index[outcome.index]
  {
    e := FirstIsLeast(index, reported);
    if index[0].rva <= rva {
      assert named[e].symbol.rva <= rva;
      e := NearestOf(index, reported, rva, outcome.index);
    }
    forall j | 0 <= j < |named| ensures index[0].rva <= named[j].symbol.rva {
      assert reported[j].rva == named[j].symbol.rva;
    }
  }
}
