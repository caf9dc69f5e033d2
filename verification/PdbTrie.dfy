/** The trie of symbol names, keyed by the tokens of each name. */
module PdbTrie {
  import opened PdbTokens

  datatype Symbol = Symbol(rva: nat, section: nat)

  const EMPTY_SYMBOL := Symbol(0, 0)

  /**
   * A node. Its prefix is a slice of the stored name that was being inserted when the node was
   * made; `origin` is that name, which is what scanning backwards from the slice recovers.
   */
  datatype Trie = Node(prefix: string, origin: string, symbol: Symbol, children: seq<Trie>)

  datatype Lookup = Missing | Found(node: Trie)

  datatype Entry = Entry(name: string, symbol: Symbol)

  datatype Match = NoMatch | FullMatch | Inserted

  const EMPTY_ROOT := Node("", "", EMPTY_SYMBOL, [])

  /** The first child with the given prefix, or the number of children if there is none. */
  function Matching(children: seq<Trie>, token: string): (c: nat)
    ensures c <= |children| && (c < |children| ==> children[c].prefix == token)
    ensures forall i :: 0 <= i < c ==> children[i].prefix != token
  {
    if children == [] || children[0].prefix == token then 0 else 1 + Matching(children[1..], token)
  }

  /** Siblings have different prefixes, none of them empty. */
  predicate Distinct(children: seq<Trie>) {
    && (forall i :: 0 <= i < |children| ==> children[i].prefix != "")
    && (forall i, j :: 0 <= i < j < |children| ==> children[i].prefix != children[j].prefix)
  }

  predicate WellFormed(node: Trie) {
    Distinct(node.children) && forall i :: 0 <= i < |node.children| ==> WellFormed(node.children[i])
  }

  /** A new branch for the given tokens, with the symbol at its end. */
  function Chain(tokens: seq<string>, origin: string, data: Symbol): Trie
    requires tokens != []
  {
    if |tokens| == 1 then Node(tokens[0], origin, data, [])
    else Node(tokens[0], origin, EMPTY_SYMBOL, [Chain(tokens[1..], origin, data)])
  }

  /** Stores a symbol under the given tokens below a node; a leaf reached again keeps its symbol. */
  function Store(node: Trie, tokens: seq<string>, origin: string, data: Symbol): Trie
    decreases |tokens|
  {
    if tokens == [] then
      if node.children == [] then node else node.(symbol := data)
    else
      var c := Matching(node.children, tokens[0]);
      if c < |node.children| then
        node.(children := node.children[c := Store(node.children[c], tokens[1..], origin, data)])
      else
        node.(children := node.children + [Chain(tokens, origin, data)])
  }

  function Build(entries: seq<Entry>): Trie {
    if entries == [] then EMPTY_ROOT
    else
      var last := entries[|entries| - 1];
      Store(Build(entries[..|entries| - 1]), Tokens(last.name), last.name, last.symbol)
  }

  /** The node at the end of a path of prefixes. */
  function NodeAt(node: Trie, path: seq<string>): Lookup
    decreases |path|
  {
    if path == [] then Found(node)
    else
      var c := Matching(node.children, path[0]);
      if c < |node.children| then NodeAt(node.children[c], path[1..]) else Missing
  }

  predicate Reaches(node: Trie, path: seq<string>) { NodeAt(node, path).Found? }

  predicate Branches(node: Trie, path: seq<string>) { Reaches(node, path) && NodeAt(node, path).node.children != [] }

  function SymbolAt(node: Trie, path: seq<string>): Symbol {
    if Reaches(node, path) then NodeAt(node, path).node.symbol else EMPTY_SYMBOL
  }

  function OriginAt(node: Trie, path: seq<string>): string {
    if Reaches(node, path) then NodeAt(node, path).node.origin else ""
  }

  // ---- one insertion ----

  /** The matching child is the only index with the defining property. */
  lemma MatchingIs(children: seq<Trie>, token: string, c: nat)
    requires c <= |children| && (c < |children| ==> children[c].prefix == token)
    requires forall i :: 0 <= i < c ==> children[i].prefix != token
    ensures Matching(children, token) == c
  {
  }

  lemma {:induction false} MatchingAfterUpdate(children: seq<Trie>, c: nat, child: Trie, token: string)
    requires c < |children| && child.prefix == children[c].prefix
    ensures Matching(children[c := child], token) == Matching(children, token)
  {
    MatchingIs(children[c := child], token, Matching(children, token));
  }

  lemma {:induction false} MatchingAfterAppend(children: seq<Trie>, child: Trie, token: string)
    ensures Matching(children + [child], token)
         == if Matching(children, token) < |children| || child.prefix == token then Matching(children, token)
            else |children| + 1
  {
    var n := Matching(children, token);
    MatchingIs(children + [child], token, if n < |children| || child.prefix == token then n else |children| + 1);
  }

  lemma {:induction false} ChainNodes(tokens: seq<string>, origin: string, data: Symbol, path: seq<string>)
    requires tokens != [] && path != []
    ensures Chain(tokens, origin, data).prefix == tokens[0]
    ensures Reaches(Chain(tokens, origin, data), path[1..]) <==> path[1..] <= tokens[1..]
    ensures Branches(Chain(tokens, origin, data), path[1..]) <==> path[1..] < tokens[1..]
    ensures SymbolAt(Chain(tokens, origin, data), path[1..]) == if path[1..] == tokens[1..] then data else EMPTY_SYMBOL
    ensures path[1..] <= tokens[1..] ==> OriginAt(Chain(tokens, origin, data), path[1..]) == origin
    decreases |path|
  {
    var rest, ahead := path[1..], tokens[1..];
    if rest != [] && ahead != [] && rest[0] == ahead[0] {
      ChainNodes(ahead, origin, data, rest);
      assert rest == [rest[0]] + rest[1..] && ahead == [ahead[0]] + ahead[1..];
    }
  }

  /** What an insertion leaves at every path. */
  ghost predicate Stored(before: Trie, after: Trie, tokens: seq<string>, origin: string, data: Symbol,
          path: seq<string>) {
    && (Reaches(after, path) <==> Reaches(before, path) || path <= tokens)
    && (Branches(after, path) <==> Branches(before, path) || path < tokens)
    && SymbolAt(after, path)
       == (if path == tokens && (Reaches(before, path) ==> Branches(before, path)) then data
           else SymbolAt(before, path))
    && (Reaches(after, path) ==>
          OriginAt(after, path) == if Reaches(before, path) then OriginAt(before, path) else origin)
  }

  /** An insertion below a child is one below its parent. */
  lemma StoredBelowChild(node: Trie, c: nat, child: Trie, tokens: seq<string>, origin: string, data: Symbol,
          path: seq<string>)
    requires tokens != [] && path != [] && c == Matching(node.children, tokens[0]) < |node.children|
    requires child.prefix == node.children[c].prefix
    requires Stored(node.children[c], child, tokens[1..], origin, data, path[1..])
    ensures Stored(node, node.(children := node.children[c := child]), tokens, origin, data, path)
  {
    assert path == [path[0]] + path[1..] && tokens == [tokens[0]] + tokens[1..];
    MatchingAfterUpdate(node.children, c, child, path[0]);
  }

  /** So is a new branch. */
  lemma StoredInBranch(node: Trie, tokens: seq<string>, origin: string, data: Symbol, path: seq<string>)
    requires tokens != [] && path != [] && Matching(node.children, tokens[0]) == |node.children|
    ensures Stored(node, node.(children := node.children + [Chain(tokens, origin, data)]), tokens, origin, data, path)
  {
    assert path == [path[0]] + path[1..] && tokens == [tokens[0]] + tokens[1..];
    ChainNodes(tokens, origin, data, path);
    MatchingAfterAppend(node.children, Chain(tokens, origin, data), path[0]);
  }

  /** An insertion changes exactly its own path, and a leaf that is reached again keeps its symbol. */
  lemma {:induction false} StoreChangesOnePath(node: Trie, tokens: seq<string>, origin: string, data: Symbol,
          path: seq<string>)
    ensures Stored(node, Store(node, tokens, origin, data), tokens, origin, data, path)
    ensures Store(node, tokens, origin, data).prefix == node.prefix
    decreases |tokens|
  {
    if tokens != [] && path != [] {
      var c := Matching(node.children, tokens[0]);
      if c < |node.children| {
        StoreChangesOnePath(node.children[c], tokens[1..], origin, data, path[1..]);
        StoredBelowChild(node, c, Store(node.children[c], tokens[1..], origin, data), tokens, origin, data, path);
      } else {
        StoredInBranch(node, tokens, origin, data, path);
      }
    } else if tokens != [] {
      var c := Matching(node.children, tokens[0]);
    }
  }

  lemma {:induction false} ChainIsWellFormed(tokens: seq<string>, origin: string, data: Symbol)
    requires tokens != [] && "" !in tokens
    ensures WellFormed(Chain(tokens, origin, data)) && Chain(tokens, origin, data).prefix == tokens[0]
  {
    if |tokens| > 1 {
      ChainIsWellFormed(tokens[1..], origin, data);
    }
  }

  lemma {:induction false} StoreKeepsWellFormed(node: Trie, tokens: seq<string>, origin: string, data: Symbol)
    requires WellFormed(node) && "" !in tokens
    ensures WellFormed(Store(node, tokens, origin, data))
    decreases |tokens|
  {
    if tokens != [] {
      var c := Matching(node.children, tokens[0]);
      if c < |node.children| {
        StoreKeepsWellFormed(node.children[c], tokens[1..], origin, data);
        StoreChangesOnePath(node.children[c], tokens[1..], origin, data, []);
      } else {
        ChainIsWellFormed(tokens, origin, data);
      }
    }
  }

  // ---- whole runs ----

  predicate Storable(entries: seq<Entry>) {
    forall i :: 0 <= i < |entries| ==> entries[i].name != "" && entries[i].symbol != EMPTY_SYMBOL
  }

  /** The entries that have a name. */
  function Named(entries: seq<Entry>): (named: seq<Entry>)
    ensures forall i :: 0 <= i < |named| ==> named[i].name != ""
    ensures (forall i :: 0 <= i < |entries| ==> entries[i].name != "") ==> named == entries
  {
    if entries == [] then []
    else
      var last := entries[|entries| - 1];
      Named(entries[..|entries| - 1]) + if last.name == "" then [] else [last]
  }

  /** The first entry whose tokens begin with the path, or the number of entries. */
  function FirstThrough(entries: seq<Entry>, path: seq<string>): (k: nat)
    ensures k <= |entries| && (k < |entries| ==> path <= Tokens(entries[k].name))
    ensures forall i :: 0 <= i < k ==> !(path <= Tokens(entries[i].name))
  {
    if entries == [] || path <= Tokens(entries[0].name) then 0 else 1 + FirstThrough(entries[1..], path)
  }

  predicate PassesThrough(entries: seq<Entry>, path: seq<string>) {
    exists i :: 0 <= i < |entries| && path < Tokens(entries[i].name)
  }

  predicate EndsAt(entries: seq<Entry>, path: seq<string>) {
    exists i :: 0 <= i < |entries| && path == Tokens(entries[i].name)
  }

  lemma FirstThroughIs(entries: seq<Entry>, path: seq<string>, k: nat)
    requires k <= |entries| && (k < |entries| ==> path <= Tokens(entries[k].name))
    requires forall i :: 0 <= i < k ==> !(path <= Tokens(entries[i].name))
    ensures FirstThrough(entries, path) == k
  {
  }

  /** Siblings keep distinct, non-empty prefixes through every run. */
  lemma {:induction false} EveryRunIsWellFormed(entries: seq<Entry>)
    ensures WellFormed(Build(entries))
  {
    if entries != [] {
      var last := entries[|entries| - 1];
      EveryRunIsWellFormed(entries[..|entries| - 1]);
      TokensAreLossless(last.name);
      StoreKeepsWellFormed(Build(entries[..|entries| - 1]), Tokens(last.name), last.name, last.symbol);
    }
  }

  lemma {:induction false} FirstThroughAfterAppend(entries: seq<Entry>, entry: Entry, path: seq<string>)
    ensures FirstThrough(entries + [entry], path)
         == if FirstThrough(entries, path) < |entries| || path <= Tokens(entry.name) then FirstThrough(entries, path)
            else |entries| + 1
  {
    var n := FirstThrough(entries, path);
    FirstThroughIs(entries + [entry], path, if n < |entries| || path <= Tokens(entry.name) then n else |entries| + 1);
  }

  /**
   * Every node stands for a path that some name goes through, and is named after the first such
   * name; it has children exactly if a name goes on beyond it.
   */
  lemma {:induction false} NodesAreTheNamesPaths(entries: seq<Entry>, path: seq<string>)
    requires path != []
    ensures Reaches(Build(entries), path) <==> FirstThrough(entries, path) < |entries|
    ensures Branches(Build(entries), path) <==> PassesThrough(entries, path)
    ensures Reaches(Build(entries), path) ==>
              OriginAt(Build(entries), path) == entries[FirstThrough(entries, path)].name
  {
    if entries != [] {
      var before, last := entries[..|entries| - 1], entries[|entries| - 1];
      assert entries == before + [last];
      NodesAreTheNamesPaths(before, path);
      StoreChangesOnePath(Build(before), Tokens(last.name), last.name, last.symbol, path);
      FirstThroughAfterAppend(before, last, path);
      PassesThroughAfterAppend(before, last, path);
    }
  }

  lemma {:induction false} PassesThroughAfterAppend(entries: seq<Entry>, entry: Entry, path: seq<string>)
    ensures PassesThrough(entries + [entry], path) <==> PassesThrough(entries, path) || path < Tokens(entry.name)
    ensures EndsAt(entries + [entry], path) <==> EndsAt(entries, path) || path == Tokens(entry.name)
  {
    var all := entries + [entry];
    assert all[|entries|] == entry;
    if PassesThrough(entries, path) {
      var i :| 0 <= i < |entries| && path < Tokens(entries[i].name);
      assert all[i] == entries[i];
    }
    if EndsAt(entries, path) {
      var i :| 0 <= i < |entries| && path == Tokens(entries[i].name);
      assert all[i] == entries[i];
    }
  }

  /** After every run the symbol nodes are exactly the ends of the inserted names' paths. */
  lemma {:induction false} SymbolsAreTheNames(entries: seq<Entry>, path: seq<string>)
    requires Storable(entries)
    ensures SymbolAt(Build(entries), path) != EMPTY_SYMBOL <==> EndsAt(entries, path)
  {
    if entries != [] {
      var before, last := entries[..|entries| - 1], entries[|entries| - 1];
      assert entries == before + [last];
      SymbolsAreTheNames(before, path);
      StoreChangesOnePath(Build(before), Tokens(last.name), last.name, last.symbol, path);
      PassesThroughAfterAppend(before, last, path);
      if path == Tokens(last.name) && Reaches(Build(before), path) && !Branches(Build(before), path) {
        assert path != [];
        LeavesHoldSymbols(before, path);
      }
    }
  }

  /** A path that a name reaches and none goes beyond is where that name ends. */
  lemma {:induction false} LeavesHoldSymbols(entries: seq<Entry>, path: seq<string>)
    requires path != [] && Reaches(Build(entries), path) && !Branches(Build(entries), path)
    ensures EndsAt(entries, path)
  {
    NodesAreTheNamesPaths(entries, path);
    var k := FirstThrough(entries, path);
    assert !(path < Tokens(entries[k].name));
  }

  /** Each inserted name is the concatenation of exactly one path that ends in a symbol node. */
  lemma {:induction false} EachNameIsOnePath(entries: seq<Entry>, k: nat, path: seq<string>)
    requires Storable(entries) && k < |entries|
    ensures Concat(path) == entries[k].name && SymbolAt(Build(entries), path) != EMPTY_SYMBOL
       <==> path == Tokens(entries[k].name)
  {
    SymbolsAreTheNames(entries, path);
    TokensAreLossless(entries[k].name);
    if EndsAt(entries, path) {
      var i :| 0 <= i < |entries| && path == Tokens(entries[i].name);
      TokensAreLossless(entries[i].name);
    }
  }

  /** A name inserted again replaces the symbol exactly if an earlier name goes on beyond it. */
  lemma {:induction false} RepeatReplacesIff(entries: seq<Entry>, k: nat, again: Entry)
    requires Storable(entries) && k < |entries| && again.name == entries[k].name
    requires again.symbol != SymbolAt(Build(entries), Tokens(again.name))
    ensures SymbolAt(Build(entries + [again]), Tokens(again.name)) == again.symbol
       <==> PassesThrough(entries, Tokens(again.name))
  {
    var all, path := entries + [again], Tokens(again.name);
    assert all[..|all| - 1] == entries;
    assert path != [];
    StoreChangesOnePath(Build(entries), path, again.name, again.symbol, path);
    NodesAreTheNamesPaths(entries, path);
    assert FirstThrough(entries, path) <= k;
  }

  /** A new name's symbol is stored under it. */
  lemma {:induction false} NewNameIsStored(entries: seq<Entry>, entry: Entry)
    requires Storable(entries) && entry.name != "" && !EndsAt(entries, Tokens(entry.name))
    ensures SymbolAt(Build(entries + [entry]), Tokens(entry.name)) == entry.symbol
  {
    var all, path := entries + [entry], Tokens(entry.name);
    assert all[..|all| - 1] == entries;
    assert path != [];
    StoreChangesOnePath(Build(entries), path, entry.name, entry.symbol, path);
    if Reaches(Build(entries), path) && !Branches(Build(entries), path) {
      LeavesHoldSymbols(entries, path);
    }
  }

  lemma {:induction false} FirstThroughIsItself(entries: seq<Entry>, k: nat, path: seq<string>)
    requires k < |entries| && path == Tokens(entries[k].name)
    requires forall i :: 0 <= i < k ==> entries[i].name != entries[k].name
    ensures FirstThrough(entries, path) <= k
    ensures FirstThrough(entries, path) == k <==> !PassesThrough(entries[..k], path)
  {
    var f := FirstThrough(entries, path);
    assert f <= k;
    if f < k {
      OtherNameGoesOn(entries[f].name, entries[k].name);
      var earlier := entries[..k];
      assert earlier[f] == entries[f];
      assert PassesThrough(earlier, path);
    } else {
      forall i | 0 <= i < k ensures !(path < Tokens(entries[..k][i].name)) {
        assert entries[..k][i] == entries[i];
      }
    }
  }

  lemma {:induction false} OtherNameGoesOn(longer: string, name: string)
    requires longer != name && Tokens(name) <= Tokens(longer)
    ensures Tokens(name) < Tokens(longer)
  {
    if Tokens(name) == Tokens(longer) {
      SameTokensSameName(name, longer);
    }
  }

  /** A symbol is reported under its own name exactly if no longer name through it came earlier. */
  lemma {:induction false} ReportedUnderOwnNameIff(entries: seq<Entry>, k: nat)
    requires Storable(entries) && k < |entries|
    requires forall i :: 0 <= i < k ==> entries[i].name != entries[k].name
    ensures OriginAt(Build(entries), Tokens(entries[k].name)) == entries[k].name
       <==> !PassesThrough(entries[..k], Tokens(entries[k].name))
  {
    FirstThroughIsItself(entries, k, Tokens(entries[k].name));
    NodesAreTheNamesPaths(entries, Tokens(entries[k].name));
  }

  /** Inserting `FooBar` and then `Foo` makes the second symbol appear under the first name. */
  lemma {:induction false} LaterPrefixIsMisnamed(data: Symbol)
    requires data != EMPTY_SYMBOL
    ensures OriginAt(Build([Entry("FooBar", data), Entry("Foo", data)]), Tokens("Foo")) == "FooBar"
  {
    var entries := [Entry("FooBar", data), Entry("Foo", data)];
    FooTokens();
    NodesAreTheNamesPaths(entries, ["Foo"]);
    assert ["Foo"] <= ["Foo", "Bar"];
    assert FirstThrough(entries, ["Foo"]) == 0;
  }

  lemma FooTokens()
    ensures Tokens("Foo") == ["Foo"] && Tokens("FooBar") == ["Foo", "Bar"]
  {
    OneToken("Foo");
    OneToken("Bar");
    TwoTokens();
  }

  lemma OneToken(word: string)
    requires word == "Foo" || word == "Bar"
    ensures Tokens(word) == [word]
  {
    assert StopFrom(word, 0, true) == StopFrom(word, 1, true) == StopFrom(word, 2, true) == StopFrom(word, 3, true)
           == 3;
    assert TokenLength(word) == 3 && word[..3] == word && word[3..] == "";
  }

  lemma TwoTokens()
    ensures Tokens("FooBar") == ["Foo"] + Tokens("Bar")
  {
    assert StopFrom("FooBar", 0, true) == StopFrom("FooBar", 1, true) == StopFrom("FooBar", 2, true) == 2;
    assert TokenLength("FooBar") == 3 && "FooBar"[..3] == "Foo" && "FooBar"[3..] == "Bar";
  }

  // ---- searching ----

  /** The result of a search that has matched a node's prefix: a leaf ends it, whatever is left over. */
  function Search(node: Trie, tokens: seq<string>): Lookup
    decreases |tokens|
  {
    if node.children == [] || tokens == [] then Found(node)
    else
      var c := Matching(node.children, tokens[0]);
      if c < |node.children| then Search(node.children[c], tokens[1..]) else Missing
  }

  /** The prefix of the tokens at which a search stops. */
  function StopsAt(node: Trie, tokens: seq<string>): (n: nat)
    ensures n <= |tokens|
    decreases |tokens|
  {
    if node.children == [] || tokens == [] then 0
    else
      var c := Matching(node.children, tokens[0]);
      if c < |node.children| then 1 + StopsAt(node.children[c], tokens[1..]) else 0
  }

  lemma {:induction false} SearchStops(node: Trie, tokens: seq<string>)
    ensures var n := StopsAt(node, tokens);
            && Reaches(node, tokens[..n])
            && (Search(node, tokens).Found? <==> n == |tokens| || !Branches(node, tokens[..n]))
            && (Search(node, tokens).Found? ==> Search(node, tokens) == NodeAt(node, tokens[..n]))
            && (n < |tokens| ==> !Reaches(node, tokens[..n + 1]) && !Reaches(node, tokens))
    decreases |tokens|
  {
    hide Matching;
    if node.children != [] && tokens != [] {
      var c := Matching(node.children, tokens[0]);
      if c < |node.children| {
        SearchStops(node.children[c], tokens[1..]);
        var n := StopsAt(node.children[c], tokens[1..]);
        assert tokens[..n + 1][1..] == tokens[1..][..n];
        if n < |tokens| - 1 {
          assert tokens[..n + 2][1..] == tokens[1..][..n + 1];
        }
      }
    }
  }

  /**
   * A search succeeds exactly if the tokens are a path of the trie or a leaf lies on the way, in
   * which case it is the leaf that is returned.
   */
  lemma {:induction false} SearchSucceedsIff(node: Trie, tokens: seq<string>)
    ensures Search(node, tokens).Found?
       <==> exists n :: 0 <= n <= |tokens| && IsStop(node, tokens, n)
    ensures Search(node, tokens).Found? ==>
              exists n :: 0 <= n <= |tokens| && IsStop(node, tokens, n)
                  && Search(node, tokens) == NodeAt(node, tokens[..n])
  {
    SearchStops(node, tokens);
    var s := StopsAt(node, tokens);
    if Search(node, tokens).Found? {
      assert tokens[..|tokens|] == tokens;
      assert IsStop(node, tokens, s);
    } else if n: nat :| n <= |tokens| && IsStop(node, tokens, n) {
      if n > s {
        assert tokens[..n][..s + 1] == tokens[..s + 1];
        ReachesShorter(node, tokens[..n], s + 1);
        assert false;
      } else if n < s {
        assert tokens[..s][..n] == tokens[..n];
        ReachesLonger(node, tokens[..s], n);
        assert false;
      }
    }
  }

  predicate IsStop(node: Trie, tokens: seq<string>, n: nat)
    requires n <= |tokens|
  {
    Reaches(node, tokens[..n]) && (n == |tokens| || !Branches(node, tokens[..n]))
  }

  lemma {:induction false} ReachesShorter(node: Trie, path: seq<string>, n: nat)
    requires n <= |path| && Reaches(node, path)
    ensures Reaches(node, path[..n])
    decreases n
  {
    if n > 0 {
      ReachesShorter(node.children[Matching(node.children, path[0])], path[1..], n - 1);
      assert path[..n][1..] == path[1..][..n - 1];
    }
  }

  lemma {:induction false} ReachesLonger(node: Trie, path: seq<string>, n: nat)
    requires n < |path| && Reaches(node, path)
    ensures Branches(node, path[..n])
    decreases n
  {
    if n > 0 {
      ReachesLonger(node.children[Matching(node.children, path[0])], path[1..], n - 1);
      assert path[..n][1..] == path[1..][..n - 1];
    }
  }

  /** Searching an inserted name from the root's child finds the node where that name's symbol is. */
  lemma {:induction false} InsertedNameIsFound(entries: seq<Entry>, k: nat)
    requires Storable(entries) && k < |entries|
    ensures var tokens := Tokens(entries[k].name);
            var root := Build(entries);
            var c := Matching(root.children, tokens[0]);
            && c < |root.children| && Reaches(root, tokens)
            && Search(root.children[c], tokens[1..]) == NodeAt(root, tokens)
            && Search(root.children[c], tokens[1..]).node.symbol != EMPTY_SYMBOL
  {
    var tokens := Tokens(entries[k].name);
    var root := Build(entries);
    SymbolsAreTheNames(entries, tokens);
    assert Reaches(root, tokens);
    var child := root.children[Matching(root.children, tokens[0])];
    SearchStops(child, tokens[1..]);
    assert tokens[1..][..|tokens| - 1] == tokens[1..];
  }

  /** A name that goes on beyond an inserted leaf is found there although it was never inserted. */
  lemma {:induction false} LeafSwallowsLonger(entries: seq<Entry>, k: nat, name: string)
    requires Storable(entries) && k < |entries| && !PassesThrough(entries, Tokens(entries[k].name))
    requires Tokens(entries[k].name) < Tokens(name)
    ensures Search(Build(entries), Tokens(name)) == NodeAt(Build(entries), Tokens(entries[k].name))
    ensures !Reaches(Build(entries), Tokens(name))
  {
    SymbolsAreTheNames(entries, Tokens(entries[k].name));
    NodesAreTheNamesPaths(entries, Tokens(entries[k].name));
    LeafEndsSearch(Build(entries), Tokens(entries[k].name), Tokens(name));
  }

  lemma {:induction false} LeafEndsSearch(root: Trie, leaf: seq<string>, tokens: seq<string>)
    requires leaf < tokens && Reaches(root, leaf) && !Branches(root, leaf)
    ensures Search(root, tokens) == NodeAt(root, leaf) && !Reaches(root, tokens)
  {
    var n, s := |leaf|, StopsAt(root, tokens);
    SearchStops(root, tokens);
    assert tokens[..n] == leaf;
    if s > n {
      assert tokens[..s][..n] == leaf;
      ReachesLonger(root, tokens[..s], n);
      assert false;
    } else if s < n {
      assert leaf[..s + 1] == tokens[..s + 1];
      ReachesShorter(root, leaf, s + 1);
      assert false;
    }
  }

  /** The name goes on beyond an inserted one that no other goes on beyond. */
  predicate Swallows(entries: seq<Entry>, i: nat, name: string)
    requires i < |entries|
  {
    Tokens(entries[i].name) < Tokens(name) && !PassesThrough(entries, Tokens(entries[i].name))
  }

  /**
   * Searching any name among inserted ones: it is answered with its own node exactly if some inserted name goes
   * through it, and with a node that is not its own exactly if it goes on beyond an inserted name that is a leaf; that
   * leaf's symbol is the answer then.
   */
  lemma SearchAnswersIff(entries: seq<Entry>, name: string)
    requires Storable(entries) && entries != [] && name != ""
    ensures var root, tokens := Build(entries), Tokens(name);
            && (Search(root, tokens).Found? && Search(root, tokens) == NodeAt(root, tokens)
                <==> exists i :: 0 <= i < |entries| && tokens <= Tokens(entries[i].name))
            && (Search(root, tokens).Found? && Search(root, tokens) != NodeAt(root, tokens)
                <==> exists i :: 0 <= i < |entries| && Swallows(entries, i, name))
            && forall i :: 0 <= i < |entries| && Swallows(entries, i, name) ==>
                 Search(root, tokens) == NodeAt(root, Tokens(entries[i].name))
                     && SymbolAt(root, Tokens(entries[i].name)) != EMPTY_SYMBOL
  {
    var root, tokens := Build(entries), Tokens(name);
    OwnNodeIff(entries, tokens);
    hide Build, Tokens, NodeAt, Search, Storable;
    if Search(root, tokens).Found? && !Reaches(root, tokens) {
      var i := LeafOnTheWay(entries, tokens);
      assert Swallows(entries, i, name);
    }
    forall i | 0 <= i < |entries| && Swallows(entries, i, name)
      ensures !Reaches(root, tokens) && Search(root, tokens) == NodeAt(root, Tokens(entries[i].name))
      ensures SymbolAt(root, Tokens(entries[i].name)) != EMPTY_SYMBOL
    {
      LeafSwallowsLonger(entries, i, name);
      SymbolsAreTheNames(entries, Tokens(entries[i].name));
    }
  }

  lemma OwnNodeIff(entries: seq<Entry>, tokens: seq<string>)
    requires tokens != []
    ensures var root := Build(entries);
            && (Reaches(root, tokens) <==> exists i :: 0 <= i < |entries| && tokens <= Tokens(entries[i].name))
            && (Reaches(root, tokens) ==> Search(root, tokens) == NodeAt(root, tokens))
  {
    SearchStops(Build(entries), tokens);
    NodesAreTheNamesPaths(entries, tokens);
    assert tokens[..|tokens|] == tokens;
  }

  lemma LeafOnTheWay(entries: seq<Entry>, tokens: seq<string>) returns (i: nat)
    requires Storable(entries) && entries != [] && !Reaches(Build(entries), tokens)
             && Search(Build(entries), tokens).Found?
    ensures i < |entries| && Tokens(entries[i].name) < tokens && !PassesThrough(entries, Tokens(entries[i].name))
  {
    var root := Build(entries);
    var n := StopsAt(root, tokens);
    SearchStops(root, tokens);
    assert tokens[..|tokens|] == tokens && (n == 0 ==> tokens[..n] == []);
    RootBranches(entries);
    LeavesHoldSymbols(entries, tokens[..n]);
    NodesAreTheNamesPaths(entries, tokens[..n]);
    i :| 0 <= i < |entries| && tokens[..n] == Tokens(entries[i].name);
  }

  lemma RootBranches(entries: seq<Entry>)
    requires Storable(entries) && entries != []
    ensures Branches(Build(entries), [])
  {
    SymbolsAreTheNames(entries, Tokens(entries[0].name));
    var path := Tokens(entries[0].name);
    assert path[..0] == [];
    ReachesLonger(Build(entries), path, 0);
  }
}
