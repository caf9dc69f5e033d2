/** Inserting names into the trie, and searching it, one node at a time. */
module PdbIndex {
  import opened PdbTokens
  import opened PdbTrie

  /** Stores the symbol below a node, in a new branch for the tokens of the body. */
  method AddFromNode(node: Trie, body: string, origin: string, data: Symbol) returns (updated: Trie)
    ensures updated == if body == "" then node.(symbol := data)
                       else node.(children := node.children + [Chain(Tokens(body), origin, data)])
    decreases |body|
  {
    if body == "" {
      return node.(symbol := data);
    }
    var token, rest := NextToken(body);
    assert Tokens(body)[1..] == Tokens(rest);
    var child := AddFromNode(Node(token, origin, EMPTY_SYMBOL, []), rest, origin, data);
    assert child == Chain([token] + Tokens(rest), origin, data);
    updated := node.(children := node.children + [child]);
  }

  /**
   * Inserts below a child whose prefix matches, and leaves any other child alone. The children are
   * nodes stored in the parent's vector, so the updated one takes the place of the old.
   */
  method InsertChild(node: Trie, prefix: string, body: string, origin: string, data: Symbol)
    returns (result: Match, updated: Trie)
    requires node.prefix != "" && WellFormed(node)
    ensures (result == NoMatch) == (node.prefix != prefix)
    ensures updated == if node.prefix == prefix then Store(node, Tokens(body), origin, data) else node
    ensures (result == Inserted) == (node.prefix == prefix && !Reaches(node, Tokens(body)))
    decreases |body|, 1
  {
    if prefix == "" || node.prefix != prefix {
      return NoMatch, node;
    }
    if node.children == [] {
      if body == "" {
        return FullMatch, node;
      }
      updated := AddFromNode(node, body, origin, data);
      return Inserted, updated;
    }
    var next, rest := NextToken(body);
    if next == "" {
      return FullMatch, node.(symbol := data);
    }
    result, updated := InsertBelow(node, next, rest, origin, data);
    assert Tokens(body)[1..] == Tokens(rest);
  }

  /** Tries every child in turn, and adds a new one if none of them matches. */
  method InsertBelow(node: Trie, next: string, rest: string, origin: string, data: Symbol)
    returns (result: Match, updated: Trie)
    requires next != "" && WellFormed(node)
    ensures updated == Store(node, [next] + Tokens(rest), origin, data)
    ensures result == if Reaches(node, [next] + Tokens(rest)) then FullMatch else Inserted
    decreases |rest|, 2
  {
    ghost var tokens := [next] + Tokens(rest);
    assert tokens[1..] == Tokens(rest);
    var c := 0;
    while c < |node.children|
      invariant c <= Matching(node.children, next)
    {
      var r, replaced := InsertChild(node.children[c], next, rest, origin, data);
      if r != NoMatch {
        return r, node.(children := node.children[c := replaced]);
      }
      c := c + 1;
    }
    var added := AddFromNode(Node(next, origin, EMPTY_SYMBOL, []), rest, origin, data);
    assert added == Chain(tokens, origin, data);
    return Inserted, node.(children := node.children + [added]);
  }

  /** Inserts a name at the root, whose own prefix is empty. */
  method Insert(root: Trie, prefix: string, body: string, data: Symbol) returns (result: Match, updated: Trie)
    requires WellFormed(root) && root.prefix == "" && root.symbol == EMPTY_SYMBOL
    requires prefix != "" && Tokens(prefix + body) == [prefix] + Tokens(body)
    ensures updated == Store(root, Tokens(prefix + body), prefix + body, data)
    ensures result == if Reaches(root, Tokens(prefix + body)) then FullMatch else Inserted
  {
    if root.children == [] {
      updated := AddFromNode(root.(symbol := EMPTY_SYMBOL), prefix + body, prefix + body, data);
      return Inserted, updated;
    }
    result, updated := InsertBelow(root, prefix, body, prefix + body, data);
  }

  lemma NextIsLoaded(entries: seq<Entry>, i: nat)
    requires i < |entries|
    ensures var loaded, after := Named(entries[..i]), Named(entries[..i + 1]);
            if entries[i].name == "" then after == loaded
            else |after| == |loaded| + 1
                 && Build(after) == Store(Build(loaded), Tokens(entries[i].name), entries[i].name, entries[i].symbol)
  {
    assert entries[..i + 1][..i] == entries[..i];
    var loaded := Named(entries[..i]);
    assert (loaded + [entries[i]])[..|loaded|] == loaded;
  }

  /**
   * Builds the index from the symbols of a file, counting every one that was stored; those without a name are skipped.
   */
  method Load(entries: seq<Entry>) returns (root: Trie, count: nat)
    ensures root == Build(Named(entries))
    ensures count == |Named(entries)|
  {
    root, count := EMPTY_ROOT, 0;
    for i := 0 to |entries|
      invariant root == Build(Named(entries[..i])) && root.prefix == "" && root.symbol == EMPTY_SYMBOL
      invariant count == |Named(entries[..i])|
    {
      ghost var loaded := Named(entries[..i]);
      EveryRunIsWellFormed(loaded);
      NextIsLoaded(entries, i);
      hide Build, Named, WellFormed, Tokens;
      var prefix, body := NextToken(entries[i].name);
      if prefix != "" {
        var result;
        StoreChangesOnePath(root, Tokens(entries[i].name), entries[i].name, entries[i].symbol, []);
        result, root := Insert(root, prefix, body, entries[i].symbol);
        if result != NoMatch {
          count := count + 1;
        }
      }
    }
    assert entries[..|entries|] == entries;
  }

  /** Searches below a child whose prefix matches. */
  method MatchSearch(node: Trie, prefix: string, body: string) returns (leaf: Lookup)
    requires node.prefix != "" && WellFormed(node)
    ensures leaf == if node.prefix == prefix then Search(node, Tokens(body)) else Missing
    decreases |body|, 1
  {
    if prefix == "" || node.prefix != prefix {
      return Missing;
    }
    if node.children == [] {
      return Found(node);
    }
    var next, rest := NextToken(body);
    if next == "" {
      return Found(node);
    }
    assert Tokens(body)[1..] == Tokens(rest);
    leaf := SearchBelow(node, next, rest);
  }

  method SearchBelow(node: Trie, next: string, rest: string) returns (leaf: Lookup)
    requires next != "" && WellFormed(node) && node.children != []
    ensures leaf == Search(node, [next] + Tokens(rest))
    decreases |rest|, 2
  {
    ghost var m := Matching(node.children, next);
    assert ([next] + Tokens(rest))[1..] == Tokens(rest);
    var c := 0;
    while c < |node.children|
      invariant c <= |node.children|
      invariant m < c ==> Search(node.children[m], Tokens(rest)) == Missing
    {
      leaf := MatchSearch(node.children[c], next, rest);
      if leaf != Missing {
        assert c == m;
        return leaf;
      }
      c := c + 1;
    }
    return Missing;
  }
}
