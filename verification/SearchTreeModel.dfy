/** The search tree as a value: insertion with its rotations, what it stores, and when it stays balanced. */
module SearchTreeModel {
  import opened Basics

  /** `height` is the cached height; `slot` is the node's index in the array of values. */
  datatype Tree = Leaf | Node(left: Tree, key: nat, height: nat, slot: nat, right: Tree)

  // ---------------------------------------------------------------- the operations

  function CachedHeight(t: Tree): nat { if t.Leaf? then 0 else t.height }

  function MaxOf(a: nat, b: nat): nat { if a > b then a else b }

  function Recalculated(t: Tree): Tree
    requires t.Node?
  {
    t.(height := MaxOf(CachedHeight(t.left), CachedHeight(t.right)) + 1)
  }

  /** The left child comes up; only the old root's height is recalculated. */
  function RotateLeft(t: Tree): Tree
    requires t.Node? && t.left.Node?
  {
    t.left.(right := Recalculated(t.(left := t.left.right)))
  }

  /** The right child comes up; only the old root's height is recalculated. */
  function RotateRight(t: Tree): Tree
    requires t.Node? && t.right.Node?
  {
    t.right.(left := Recalculated(t.(right := t.right.left)))
  }

  function Rebalanced(t: Tree): Tree
    requires t.Node?
  {
    var r := Recalculated(t);
    var delta := CachedHeight(t.left) - CachedHeight(t.right);
    if delta > 1 then RotateLeft(r) else if delta < -1 then RotateRight(r) else r
  }

  /** None when the key is already there. */
  function Insert(t: Tree, key: nat, slot: nat): Option<Tree> {
    match t
    case Leaf => Some(Node(Leaf, key, 1, slot, Leaf))
    case Node(left, k, _, _, right) =>
      if key == k then None
      else if key > k then
        var r := Insert(right, key, slot);
        if r.None? then None else Some(Rebalanced(t.(right := r.value)))
      else
        var l := Insert(left, key, slot);
        if l.None? then None else Some(Rebalanced(t.(left := l.value)))
  }

  function Find(t: Tree, key: nat): Option<nat> {
    match t
    case Leaf => None
    case Node(left, k, _, slot, right) =>
      if k == key then Some(slot) else if key < k then Find(left, key) else Find(right, key)
  }

  // ---------------------------------------------------------------- what the tree stores

  /** Key and slot of every node, in the order of the sorted traversal. */
  function Entries(t: Tree): seq<(nat, nat)> {
    match t
    case Leaf => []
    case Node(left, key, _, slot, right) => Entries(left) + [(key, slot)] + Entries(right)
  }

  ghost predicate Increasing(entries: seq<(nat, nat)>) {
    forall i, j :: 0 <= i < j < |entries| ==> entries[i].0 < entries[j].0
  }

  /** The entries with one more put where its key belongs. */
  function Placed(entries: seq<(nat, nat)>, key: nat, slot: nat): seq<(nat, nat)> {
    if entries == [] || key < entries[0].0 then [(key, slot)] + entries
    else [entries[0]] + Placed(entries[1..], key, slot)
  }

  ghost predicate HasKey(entries: seq<(nat, nat)>, key: nat) { exists i :: 0 <= i < |entries| && entries[i].0 == key }

  lemma RecalculationKeepsEntries(t: Tree)
    requires t.Node?
    ensures var r := Recalculated(t); r.Node? && r.left == t.left && r.right == t.right && Entries(r) == Entries(t)
  {
  }

  lemma RotationKeepsEntries(t: Tree)
    requires t.Node?
    ensures t.left.Node? ==> Entries(RotateLeft(t)) == Entries(t)
    ensures t.right.Node? ==> Entries(RotateRight(t)) == Entries(t)
    ensures Entries(Rebalanced(t)) == Entries(t)
  {
    hide Entries, RotateLeft, RotateRight, Recalculated;
    RecalculationKeepsEntries(t);
    var r := Recalculated(t);
    if t.left.Node? {
      RotatesLeft(t);
      RotatesLeft(r);
    }
    if t.right.Node? {
      RotatesRight(t);
      RotatesRight(r);
    }
  }

  lemma ConcatRegroups(a: seq<(nat, nat)>, x: (nat, nat), b: seq<(nat, nat)>, y: (nat, nat), c: seq<(nat, nat)>)
    ensures a + [x] + b + [y] + c == a + [x] + (b + [y] + c)
  {
  }

  lemma RotatesLeft(t: Tree)
    requires t.Node? && t.left.Node?
    ensures Entries(RotateLeft(t)) == Entries(t)
  {
    var p := t.left;
    ConcatRegroups(Entries(p.left), (p.key, p.slot), Entries(p.right), (t.key, t.slot), Entries(t.right));
  }

  lemma RotatesRight(t: Tree)
    requires t.Node? && t.right.Node?
    ensures Entries(RotateRight(t)) == Entries(t)
  {
    var p := t.right;
    ConcatRegroups(Entries(t.left), (t.key, t.slot), Entries(p.left), (p.key, p.slot), Entries(p.right));
  }

  lemma PlacedFirst(entries: seq<(nat, nat)>, key: nat, slot: nat)
    requires entries == [] || key < entries[0].0
    ensures Placed(entries, key, slot) == [(key, slot)] + entries
  {
  }

  lemma {:induction false} PlacedLeft(a: seq<(nat, nat)>, e: (nat, nat), b: seq<(nat, nat)>, key: nat, slot: nat)
    requires key < e.0
    ensures Placed(a + [e] + b, key, slot) == Placed(a, key, slot) + [e] + b
  {
    if a == [] {
      assert a + [e] + b == [e] + b;
    } else if key >= a[0].0 {
      PlacedLeft(a[1..], e, b, key, slot);
      assert (a + [e] + b)[1..] == a[1..] + [e] + b;
    } else {
      hide Placed;
      PlacedFirst(a, key, slot);
      PlacedFirst(a + [e] + b, key, slot);
    }
  }

  lemma {:induction false} PlacedRight(a: seq<(nat, nat)>, e: (nat, nat), b: seq<(nat, nat)>, key: nat, slot: nat)
    requires key > e.0 && forall i :: 0 <= i < |a| ==> a[i].0 < key
    ensures Placed(a + [e] + b, key, slot) == a + [e] + Placed(b, key, slot)
  {
    if a == [] {
      assert a + [e] + b == [e] + b;
      assert ([e] + b)[1..] == b;
    } else {
      PlacedRight(a[1..], e, b, key, slot);
      assert (a + [e] + b)[1..] == a[1..] + [e] + b;
    }
  }

  lemma {:induction false} PlacedKeepsIncreasing(entries: seq<(nat, nat)>, key: nat, slot: nat)
    requires Increasing(entries) && !HasKey(entries, key)
    ensures Increasing(Placed(entries, key, slot)) && |Placed(entries, key, slot)| == |entries| + 1
    ensures var first := Placed(entries, key, slot)[0].0; first == key || (entries != [] && first == entries[0].0)
    ensures entries == [] || Placed(entries, key, slot)[0].0 <= entries[0].0
  {
    if entries != [] && key >= entries[0].0 {
      var rest := entries[1..];
      assert entries[0].0 != key;
      forall i | 0 <= i < |rest| ensures rest[i].0 != key { assert entries[i + 1] == rest[i]; }
      PlacedKeepsIncreasing(rest, key, slot);
      var placed := Placed(rest, key, slot);
      assert entries[0].0 < placed[0].0;
    }
  }

  /** Where the root and the two halves sit in the traversal. */
  lemma EntriesAt(t: Tree)
    requires t.Node?
    ensures var n := |Entries(t.left)|;
            && |Entries(t)| == n + 1 + |Entries(t.right)| && Entries(t)[n] == (t.key, t.slot)
            && Entries(t)[..n] == Entries(t.left) && Entries(t)[n + 1..] == Entries(t.right)
  {
  }

  lemma IncreasingSplit(entries: seq<(nat, nat)>, n: nat)
    requires n < |entries| && Increasing(entries)
    ensures Increasing(entries[..n]) && Increasing(entries[n + 1..])
    ensures forall i :: 0 <= i < n ==> entries[..n][i].0 < entries[n].0
    ensures var right := entries[n + 1..]; forall i :: 0 <= i < |right| ==> entries[n].0 < right[i].0
  {
  }

  /** The halves of an increasing traversal, around the root. */
  lemma EntriesSplit(t: Tree)
    requires t.Node? && Increasing(Entries(t))
    ensures Increasing(Entries(t.left)) && Increasing(Entries(t.right))
    ensures forall i :: 0 <= i < |Entries(t.left)| ==> Entries(t.left)[i].0 < t.key
    ensures forall i :: 0 <= i < |Entries(t.right)| ==> t.key < Entries(t.right)[i].0
  {
    EntriesAt(t);
    IncreasingSplit(Entries(t), |Entries(t.left)|);
  }

  lemma HasKeySplit(t: Tree, key: nat)
    requires t.Node?
    ensures HasKey(Entries(t), key) <==> HasKey(Entries(t.left), key) || t.key == key || HasKey(Entries(t.right), key)
  {
    EntriesAt(t);
    HasKeyAround(Entries(t), |Entries(t.left)|, key);
  }

  lemma HasKeyAround(entries: seq<(nat, nat)>, n: nat, key: nat)
    requires n < |entries|
    ensures HasKey(entries, key) <==> HasKey(entries[..n], key) || entries[n].0 == key || HasKey(entries[n + 1..], key)
  {
    if i :| 0 <= i < |entries| && entries[i].0 == key && i != n {
      assert if i < n then entries[..n][i].0 == key else entries[n + 1..][i - n - 1].0 == key;
    }
    if i :| 0 <= i < n && entries[..n][i].0 == key { assert entries[i].0 == key; }
    var right := entries[n + 1..];
    if i :| 0 <= i < |right| && right[i].0 == key { assert entries[n + 1 + i].0 == key; }
  }

  /**
   * Insertion fails exactly on a key that is there, and otherwise puts one entry in its sorted place, whatever it
   * rotates.
   */
  lemma {:induction false} InsertPlaces(t: Tree, key: nat, slot: nat)
    requires Increasing(Entries(t))
    ensures Insert(t, key, slot).None? <==> HasKey(Entries(t), key)
    ensures Insert(t, key, slot).Some? ==> Entries(Insert(t, key, slot).value) == Placed(Entries(t), key, slot)
  {
    if t.Node? {
      EntriesSplit(t);
      HasKeySplit(t, key);
      var e := (t.key, t.slot);
      if key > t.key {
        InsertPlaces(t.right, key, slot);
        var r := Insert(t.right, key, slot);
        if r.Some? {
          RotationKeepsEntries(t.(right := r.value));
          PlacedRight(Entries(t.left), e, Entries(t.right), key, slot);
        }
      } else if key < t.key {
        InsertPlaces(t.left, key, slot);
        var l := Insert(t.left, key, slot);
        if l.Some? {
          RotationKeepsEntries(t.(left := l.value));
          PlacedLeft(Entries(t.left), e, Entries(t.right), key, slot);
        }
      }
    }
  }

  /** A search finds exactly the entries of the traversal. */
  lemma {:induction false} FindIsMembership(t: Tree, key: nat, slot: nat)
    requires Increasing(Entries(t))
    ensures Find(t, key) == Some(slot) <==> (key, slot) in Entries(t)
    ensures Find(t, key) == None <==> !HasKey(Entries(t), key)
  {
    if t.Node? {
      EntriesSplit(t);
      HasKeySplit(t, key);
      FindIsMembership(t.left, key, slot);
      FindIsMembership(t.right, key, slot);
    }
  }

  // ---------------------------------------------------------------- balance

  function TrueHeight(t: Tree): nat {
    if t.Leaf? then 0 else 1 + MaxOf(TrueHeight(t.left), TrueHeight(t.right))
  }

  /** Every cached height is the true one and no node's subtrees differ by more than one. */
  predicate Balanced(t: Tree) {
    t.Node? ==>
      && Balanced(t.left) && Balanced(t.right) && t.height == TrueHeight(t)
      && -1 <= TrueHeight(t.left) - TrueHeight(t.right) <= 1
  }

  /**
   * Whether inserting the key makes a balanced tree higher: every node on the way to the key's place leans neither
   * way.
   */
  predicate Grows(t: Tree, key: nat) {
    t.Node? ==> TrueHeight(t.left) == TrueHeight(t.right) && Grows(if key > t.key then t.right else t.left, key)
  }

  /**
   * Whether the key goes into the inner grandchild below a node that already leans its way: the case that would
   * need a double rotation.
   */
  predicate ZigZags(t: Tree, key: nat) {
    t.Node? &&
      var (toward, other) := if key > t.key then (t.right, t.left) else (t.left, t.right);
      || ZigZags(toward, key)
      || (Grows(toward, key) && TrueHeight(toward) > TrueHeight(other) && toward.Node?
          && (key > t.key) != (key > toward.key))
  }

  lemma {:induction false} GrowingNeverZigZags(t: Tree, key: nat)
    ensures !(Grows(t, key) && ZigZags(t, key))
  {
    if t.Node? { GrowingNeverZigZags(if key > t.key then t.right else t.left, key); }
  }

  /**
   * Inserting into a balanced tree changes the root's cached height exactly when the tree grows; a growing node is
   * not rotated.
   */
  lemma {:induction false} InsertGrows(t: Tree, key: nat, slot: nat)
    requires Balanced(t) && Insert(t, key, slot).Some?
    ensures var r := Insert(t, key, slot).value;
            && CachedHeight(r) == TrueHeight(t) + (if Grows(t, key) then 1 else 0)
            && (t.Node? && Grows(t, key) ==>
                  r == if key > t.key then t.(right := Insert(t.right, key, slot).value, height := t.height + 1)
                       else t.(left := Insert(t.left, key, slot).value, height := t.height + 1))
  {
    if t.Node? {
      InsertGrows(if key > t.key then t.right else t.left, key, slot);
    }
  }

  function Toward(t: Tree, key: nat): Tree
    requires t.Node?
  {
    if key > t.key then t.right else t.left
  }

  /**
   * The higher right subtree `p` has grown through its child `g`: the rotation restores balance exactly when `g`
   * is the outer child.
   */
  lemma RightRotationBalancesOuter(t: Tree, g: Tree)
    requires Balanced(t) && t.Node? && TrueHeight(t.right) == TrueHeight(t.left) + 1
    requires TrueHeight(t.right.left) == TrueHeight(t.right.right) && Balanced(g)
             && TrueHeight(g) == TrueHeight(t.right)
    ensures Balanced(Rebalanced(t.(right := t.right.(right := g, height := t.right.height + 1))))
    ensures !Balanced(Rebalanced(t.(right := t.right.(left := g, height := t.right.height + 1))))
  {
    var p := t.right;
    var down := Recalculated(t.(right := p.left));
    assert Balanced(down) && TrueHeight(down) == p.height;
    assert Rebalanced(t.(right := p.(right := g, height := p.height + 1)))
           == Node(down, p.key, p.height + 1, p.slot, g);
    var low := Recalculated(t.(right := g));
    assert TrueHeight(low) == p.height + 1;
    assert Rebalanced(t.(right := p.(left := g, height := p.height + 1)))
           == Node(low, p.key, p.height + 1, p.slot, p.right);
  }

  lemma LeftRotationBalancesOuter(t: Tree, g: Tree)
    requires Balanced(t) && t.Node? && TrueHeight(t.left) == TrueHeight(t.right) + 1
    requires TrueHeight(t.left.left) == TrueHeight(t.left.right) && Balanced(g) && TrueHeight(g) == TrueHeight(t.left)
    ensures Balanced(Rebalanced(t.(left := t.left.(left := g, height := t.left.height + 1))))
    ensures !Balanced(Rebalanced(t.(left := t.left.(right := g, height := t.left.height + 1))))
  {
    var p := t.left;
    var down := Recalculated(t.(left := p.right));
    assert Balanced(down) && TrueHeight(down) == p.height;
    assert Rebalanced(t.(left := p.(left := g, height := p.height + 1))) == Node(g, p.key, p.height + 1, p.slot, down);
    var low := Recalculated(t.(left := g));
    assert TrueHeight(low) == p.height + 1;
    assert Rebalanced(t.(left := p.(right := g, height := p.height + 1)))
           == Node(p.left, p.key, p.height + 1, p.slot, low);
  }

  /** A balanced tree stays balanced if and only if the insertion does not zig-zag. */
  lemma {:induction false} InsertKeepsBalanceIff(t: Tree, key: nat, slot: nat)
    requires Balanced(t) && Insert(t, key, slot).Some?
    ensures Balanced(Insert(t, key, slot).value) <==> !ZigZags(t, key)
  {
    hide Rebalanced, CachedHeight;
    if t.Node? {
      var (toward, other) := if key > t.key then (t.right, t.left) else (t.left, t.right);
      InsertKeepsBalanceIff(toward, key, slot);
      InsertGrows(toward, key, slot);
      GrowingNeverZigZags(toward, key);
      if Grows(toward, key) && TrueHeight(toward) > TrueHeight(other) {
        GrownSubtree(toward, key, slot);
        var g := Insert(Toward(toward, key), key, slot).value;
        if key > t.key { RightRotationBalancesOuter(t, g); } else { LeftRotationBalancesOuter(t, g); }
      } else {
        UnrotatedIff(t, Insert(toward, key, slot).value, key > t.key);
      }
    }
  }

  /** A subtree replaced by one of a height near that of the other is not rotated, and decides about the balance. */
  lemma UnrotatedIff(t: Tree, c: Tree, right: bool)
    requires Balanced(t) && t.Node?
    requires -1 <= CachedHeight(c) - TrueHeight(if right then t.left else t.right) <= 1
    ensures Balanced(Rebalanced(if right then t.(right := c) else t.(left := c))) <==> Balanced(c)
  {
    var other := if right then t.left else t.right;
    assert CachedHeight(other) == TrueHeight(other);
    assert Balanced(c) ==> CachedHeight(c) == TrueHeight(c);
  }

  /** A subtree that grows keeps its root, and its grown child is balanced and as high as the subtree was. */
  lemma GrownSubtree(p: Tree, key: nat, slot: nat)
    requires Balanced(p) && p.Node? && Grows(p, key) && Insert(p, key, slot).Some?
             && Balanced(Insert(p, key, slot).value)
    ensures Insert(Toward(p, key), key, slot).Some?
    ensures var g := Insert(Toward(p, key), key, slot).value;
            && Balanced(g) && TrueHeight(g) == TrueHeight(p)
            && Insert(p, key, slot).value
               == if key > p.key then p.(right := g, height := p.height + 1) else p.(left := g, height := p.height + 1)
  {
    InsertGrows(p, key, slot);
    InsertGrows(Toward(p, key), key, slot);
  }

  /** A key beyond all others never zig-zags. */
  lemma {:induction false} OutermostNeverZigZags(t: Tree, key: nat, above: bool)
    requires forall i :: 0 <= i < |Entries(t)| ==> (key > Entries(t)[i].0) == above && key != Entries(t)[i].0
    ensures !ZigZags(t, key)
    ensures t.Node? ==> (key > t.key) == above
  {
    if t.Node? {
      EntriesAt(t);
      var n := |Entries(t.left)|;
      assert (key > Entries(t)[n].0) == above;
      var toward := if key > t.key then t.right else t.left;
      forall i | 0 <= i < |Entries(toward)|
        ensures (key > Entries(toward)[i].0) == above && key != Entries(toward)[i].0
      {
        assert Entries(toward)[i] == Entries(t)[if key > t.key then n + 1 + i else i];
      }
      OutermostNeverZigZags(toward, key, above);
    }
  }

  // ---------------------------------------------------------------- sequences of insertions

  /** The tree and its array of values after inserting the items in turn. */
  function InsertAll<V>(items: seq<(nat, V)>): (Tree, seq<V>) {
    if items == [] then (Leaf, [])
    else
      var (t, data) := InsertAll(items[..|items| - 1]);
      var (key, value) := items[|items| - 1];
      var r := Insert(t, key, |data|);
      if r.None? then (t, data) else (r.value, data + [value])
  }

  ghost predicate Inserted<V>(items: seq<(nat, V)>, key: nat) { exists i :: 0 <= i < |items| && items[i].0 == key }

  lemma InsertedStep<V>(items: seq<(nat, V)>, key: nat)
    requires items != []
    ensures Inserted(items, key) <==> Inserted(items[..|items| - 1], key) || items[|items| - 1].0 == key
  {
    var front := items[..|items| - 1];
    if i :| 0 <= i < |items| && items[i].0 == key && i < |items| - 1 { assert front[i].0 == key; }
    if i :| 0 <= i < |front| && front[i].0 == key { assert items[i].0 == key; }
  }

  /**
   * For every sequence of insertions: the traversal is strictly increasing, holds exactly the keys inserted, and there
   * is one stored value for each of its nodes.
   */
  lemma {:induction false} InsertAllStores<V>(items: seq<(nat, V)>)
    ensures var (t, data) := InsertAll(items);
            && Increasing(Entries(t)) && |Entries(t)| == |data|
            && (forall i :: 0 <= i < |Entries(t)| ==> Entries(t)[i].1 < |data|)
            && forall k :: HasKey(Entries(t), k) <==> Inserted(items, k)
  {
    if items != [] {
      var (last, value) := items[|items| - 1];
      var front := items[..|items| - 1];
      InsertAllStores(front);
      var (t, data) := InsertAll(front);
      InsertPlaces(t, last, |data|);
      var r := Insert(t, last, |data|);
      if r.Some? {
        PlacedKeepsIncreasing(Entries(t), last, |data|);
        PlacedKeepsSlots(Entries(t), last, |data|);
      }
      forall k ensures HasKey(Entries(InsertAll(items).0), k) <==> Inserted(items, k) {
        PlacedHasKey(Entries(t), last, |data|, k);
        InsertedStep(items, k);
      }
    }
  }

  lemma {:induction false} PlacedKeepsSlots(entries: seq<(nat, nat)>, key: nat, slot: nat)
    requires forall i :: 0 <= i < |entries| ==> entries[i].1 < slot
    ensures forall i :: 0 <= i < |Placed(entries, key, slot)| ==> Placed(entries, key, slot)[i].1 <= slot
  {
    if entries != [] && key >= entries[0].0 { PlacedKeepsSlots(entries[1..], key, slot); }
  }

  /** A later insertion does not disturb what a search for another key finds. */
  lemma InsertKeepsOthers(t: Tree, key: nat, slot: nat, other: nat)
    requires Increasing(Entries(t)) && Insert(t, key, slot).Some?
    ensures Find(Insert(t, key, slot).value, other) == if other == key then Some(slot) else Find(t, other)
  {
    InsertPlaces(t, key, slot);
    PlacedKeepsIncreasing(Entries(t), key, slot);
    var r := Insert(t, key, slot).value;
    FindIsMembership(r, key, slot);
    PlacedMembers(Entries(t), key, slot, (key, slot));
    if other != key {
      PlacedHasKey(Entries(t), key, slot, other);
      FindIsMembership(t, other, 0);
      FindIsMembership(r, other, 0);
      if Find(t, other).Some? {
        FindIsMembership(t, other, Find(t, other).value);
        FindIsMembership(r, other, Find(t, other).value);
        PlacedMembers(Entries(t), key, slot, (other, Find(t, other).value));
      }
    }
  }

  lemma {:induction false} PlacedMembers(entries: seq<(nat, nat)>, key: nat, slot: nat, e: (nat, nat))
    ensures e in Placed(entries, key, slot) <==> e == (key, slot) || e in entries
  {
    if entries != [] && key >= entries[0].0 {
      PlacedMembers(entries[1..], key, slot, e);
      assert entries == [entries[0]] + entries[1..];
    }
  }

  /** For every sequence of insertions, a search for a key finds the value it was first inserted with. */
  lemma {:induction false} FindReturnsFirst<V>(items: seq<(nat, V)>, i: nat)
    requires i < |items| && forall j :: 0 <= j < i ==> items[j].0 != items[i].0
    ensures var (t, data) := InsertAll(items);
            var found := Find(t, items[i].0);
            found.Some? && found.value < |data| && data[found.value] == items[i].1
  {
    var front := items[..|items| - 1];
    var (last, value) := items[|items| - 1];
    var (t, data) := InsertAll(front);
    InsertAllStores(front);
    InsertPlaces(t, last, |data|);
    if i < |items| - 1 {
      FindReturnsFirst(front, i);
      assert Inserted(front, items[i].0) by { assert front[i] == items[i]; }
      if Insert(t, last, |data|).Some? { InsertKeepsOthers(t, last, |data|, items[i].0); }
    } else {
      assert !Inserted(front, last) by { assert forall j :: 0 <= j < |front| ==> front[j] == items[j]; }
      InsertKeepsOthers(t, last, |data|, last);
    }
  }

  lemma {:induction false} PlacedHasKey(entries: seq<(nat, nat)>, key: nat, slot: nat, k: nat)
    ensures HasKey(Placed(entries, key, slot), k) <==> HasKey(entries, k) || k == key
  {
    var placed := Placed(entries, key, slot);
    if entries == [] || key < entries[0].0 {
      assert placed[0].0 == key;
      assert forall i :: 0 <= i < |entries| ==> placed[i + 1] == entries[i];
    } else {
      PlacedHasKey(entries[1..], key, slot, k);
      var rest := Placed(entries[1..], key, slot);
      assert forall i :: 0 <= i < |rest| ==> placed[i + 1] == rest[i];
      assert forall i :: 0 <= i < |entries[1..]| ==> entries[i + 1] == entries[1..][i];
      assert placed[0] == entries[0];
    }
  }

  /** Strictly ascending (or strictly descending) keys keep every cached height true and every node balanced. */
  lemma {:induction false} MonotoneRunsStayBalanced<V>(items: seq<(nat, V)>, ascending: bool)
    requires forall i, j :: 0 <= i < j < |items| ==> (items[j].0 > items[i].0) == ascending && items[i].0 != items[j].0
    ensures var (t, data) := InsertAll(items); |data| == |items| && Balanced(t)
  {
    if items != [] {
      var last := items[|items| - 1].0;
      var front := items[..|items| - 1];
      MonotoneRunsStayBalanced(front, ascending);
      InsertAllStores(front);
      var (t, data) := InsertAll(front);
      forall i | 0 <= i < |Entries(t)| ensures (last > Entries(t)[i].0) == ascending && last != Entries(t)[i].0 {
        assert HasKey(Entries(t), Entries(t)[i].0);
        var j :| 0 <= j < |front| && front[j].0 == Entries(t)[i].0;
        assert items[j] == front[j];
      }
      InsertPlaces(t, last, |data|);
      OutermostNeverZigZags(t, last, ascending);
      InsertKeepsBalanceIff(t, last, |data|);
    }
  }

  function Fib(n: nat): nat { if n < 2 then n else Fib(n - 1) + Fib(n - 2) }

  lemma {:induction false} FibMonotone(n: nat)
    ensures Fib(n) <= Fib(n + 1)
  {
    if n >= 2 { FibMonotone(n - 1); FibMonotone(n - 2); }
  }

  lemma FibOfChildren(l: nat, r: nat)
    requires -1 <= l - r <= 1
    ensures Fib(l + 2) + Fib(r + 2) >= Fib(MaxOf(l, r) + 3)
  {
    var m := MaxOf(l, r);
    FibMonotone(m + 1);
    assert l == m || l + 1 == m;
    assert r == m || r + 1 == m;
  }

  /** A balanced tree of height h holds at least Fib(h + 2) - 1 keys. */
  lemma {:induction false} BalancedIsFull(t: Tree)
    requires Balanced(t)
    ensures |Entries(t)| + 1 >= Fib(CachedHeight(t) + 2)
  {
    if t.Node? {
      BalancedIsFull(t.left);
      BalancedIsFull(t.right);
      FibOfChildren(TrueHeight(t.left), TrueHeight(t.right));
    }
  }

  /** Inserting 3, 1, 2 leaves a root that leans by two and whose cached height is not its true one. */
  lemma ZigZagUnbalances<V>(a: V, b: V, c: V)
    ensures var t := InsertAll([(3, a), (1, b), (2, c)]).0;
            t.Node? && t.key == 1 && t.height == 2 && TrueHeight(t) == 3 && t.left == Leaf && !Balanced(t)
  {
    var one: seq<(nat, V)>, two: seq<(nat, V)>, items: seq<(nat, V)> := [(3, a)], [(3, a), (1, b)],
        [(3, a), (1, b), (2, c)];
    assert items[..2] == two && two[..1] == one && one[..0] == one[1..];
    assert InsertAll(one).0 == Node(Leaf, 3, 1, 0, Leaf) && |InsertAll(one).1| == 1;
    assert InsertAll(two).0 == Node(Node(Leaf, 1, 1, 1, Leaf), 3, 2, 0, Leaf) && |InsertAll(two).1| == 2;
    var t := InsertAll(items).0;
    assert t == Node(Leaf, 1, 2, 1, Node(Node(Leaf, 2, 1, 2, Leaf), 3, 2, 0, Leaf));
  }
}
