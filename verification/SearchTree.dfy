/** The search tree as linked nodes, with its values in a separate array. */
module SearchTree {
  import opened Basics
  import opened SearchTreeModel

  class TreeNode {
    var left: TreeNode?
    var right: TreeNode?
    const key: nat
    var height: nat
    var valueIndex: nat
    ghost var Repr: set<TreeNode>
    ghost var model: Tree

    constructor (k: nat, index: nat)
      ensures Valid() && fresh(Repr) && Repr == {this} && model == Node(Leaf, k, 1, index, Leaf)
    {
      height, left, right, key, valueIndex := 1, null, null, k, index;
      Repr := {this};
      model := Node(Leaf, k, 1, index, Leaf);
    }

    ghost predicate Valid()
      reads this, Repr
      ensures Valid() ==> this in Repr && model.Node?
    {
      && this in Repr
      && (left != null ==> left in Repr && left.Repr <= Repr && this !in left.Repr && left.Valid())
      && (right != null ==> right in Repr && right.Repr <= Repr && this !in right.Repr && right.Valid())
      && (left != null && right != null ==> left.Repr !! right.Repr)
      && model == Node(ModelOf(left), key, height, valueIndex, ModelOf(right))
    }

    function HeightDelta(): int
      reads this, left, right
    {
      (if left != null then left.height else 0) - (if right != null then right.height else 0)
    }

    method RecalculateHeight()
      requires Valid()
      modifies this`height, this`model
      ensures Valid() && model == Recalculated(old(model))
    {
      var lh := if left != null then left.height else 0;
      var rh := if right != null then right.height else 0;
      height := (if lh > rh then lh else rh) + 1;
      model := model.(height := height);
    }
  }

  ghost function ModelOf(node: TreeNode?): Tree
    reads node
  {
    if node == null then Leaf else node.model
  }

  ghost function ReprOf(node: TreeNode?): set<TreeNode>
    reads node
  {
    if node == null then {} else node.Repr
  }

  /** The left child becomes the root of the subtree. */
  method RotateNodeLeft(node: TreeNode) returns (pivot: TreeNode)
    requires node.Valid() && node.left != null
    modifies node, node.left
    ensures pivot.Valid() && pivot.Repr == old(node.Repr) && pivot.model == RotateLeft(old(node.model))
  {
    pivot := node.left;
    ghost var all := node.Repr;
    var t := pivot.right;
    pivot.right := node;
    node.left := t;
    node.Repr := {node} + ReprOf(t) + ReprOf(node.right);
    node.model := node.model.(left := ModelOf(t));
    node.RecalculateHeight();
    pivot.Repr := all;
    pivot.model := pivot.model.(right := node.model);
  }

  /** The right child becomes the root of the subtree. */
  method RotateNodeRight(node: TreeNode) returns (pivot: TreeNode)
    requires node.Valid() && node.right != null
    modifies node, node.right
    ensures pivot.Valid() && pivot.Repr == old(node.Repr) && pivot.model == RotateRight(old(node.model))
  {
    pivot := node.right;
    ghost var all := node.Repr;
    var t := pivot.left;
    pivot.left := node;
    node.right := t;
    node.Repr := {node} + ReprOf(node.left) + ReprOf(t);
    node.model := node.model.(right := ModelOf(t));
    node.RecalculateHeight();
    pivot.Repr := all;
    pivot.model := pivot.model.(left := node.model);
  }

  /** Recalculates the height of a node whose child has changed, and rotates if it now leans by two. */
  method Rebalance(node: TreeNode) returns (root: TreeNode)
    requires node.Valid()
    modifies node.Repr
    ensures root.Valid() && root.Repr == old(node.Repr) && root.model == Rebalanced(old(node.model))
  {
    node.RecalculateHeight();
    var delta := node.HeightDelta();
    if delta > 1 {
      root := RotateNodeLeft(node);
    } else if delta < -1 {
      root := RotateNodeRight(node);
    } else {
      root := node;
    }
  }

  /** Hangs a grown subtree below a node on the right, and rebalances it. */
  method AttachRight(parent: TreeNode, t: TreeNode) returns (root: TreeNode)
    requires t.Valid() && parent !in t.Repr
    requires parent.left != null ==> parent.left.Valid() && parent !in parent.left.Repr && parent.left.Repr !! t.Repr
    modifies parent, ReprOf(parent.left), t.Repr
    ensures root.Valid() && root.Repr == {parent} + old(ReprOf(parent.left)) + old(t.Repr)
    ensures root.model == Rebalanced(old(Node(ModelOf(parent.left), parent.key, parent.height, parent.valueIndex,
            t.model)))
  {
    parent.right := t;
    parent.Repr := {parent} + ReprOf(parent.left) + t.Repr;
    parent.model := Node(ModelOf(parent.left), parent.key, parent.height, parent.valueIndex, t.model);
    root := Rebalance(parent);
  }

  /** The same on the left. */
  method AttachLeft(parent: TreeNode, t: TreeNode) returns (root: TreeNode)
    requires t.Valid() && parent !in t.Repr
    requires parent.right != null ==>
             parent.right.Valid() && parent !in parent.right.Repr && parent.right.Repr !! t.Repr
    modifies parent, ReprOf(parent.right), t.Repr
    ensures root.Valid() && root.Repr == {parent} + old(ReprOf(parent.right)) + old(t.Repr)
    ensures root.model == Rebalanced(old(Node(t.model, parent.key, parent.height, parent.valueIndex,
            ModelOf(parent.right))))
  {
    parent.left := t;
    parent.Repr := {parent} + t.Repr + ReprOf(parent.right);
    parent.model := Node(t.model, parent.key, parent.height, parent.valueIndex, ModelOf(parent.right));
    root := Rebalance(parent);
  }

  /** Every node's value index is below `n`. */
  ghost predicate IndexesBelow(t: Tree, n: nat) {
    t.Node? ==> t.slot < n && IndexesBelow(t.left, n) && IndexesBelow(t.right, n)
  }

  lemma {:induction false} IndexesInEntries(t: Tree, n: nat)
    ensures IndexesBelow(t, n) <==> forall i :: 0 <= i < |Entries(t)| ==> Entries(t)[i].1 < n
  {
    if t.Node? {
      IndexesInEntries(t.left, n);
      IndexesInEntries(t.right, n);
      EntriesAt(t);
      var m := |Entries(t.left)|;
      assert forall i :: 0 <= i < m ==> Entries(t)[i] == Entries(t.left)[i];
      assert forall i :: 0 <= i < |Entries(t.right)| ==> Entries(t)[m + 1 + i] == Entries(t.right)[i];
    }
  }

  class BinarySearchTree<V> {
    // false in a tree of keys only
    const hasValues: bool
    var root: TreeNode?
    var data: seq<V>
    var nodeCount: nat

    constructor (storesValues: bool)
      ensures Valid() && root == null && data == [] && hasValues == storesValues
    {
      hasValues := storesValues;
      root, data, nodeCount := null, [], 0;
    }

    ghost predicate Valid()
      reads this, root, ReprOf(root)
    {
      && (root != null ==> root.Valid())
      && var entries := Entries(ModelOf(root));
         && Increasing(entries) && nodeCount == |entries|
         && (hasValues ==> |data| == nodeCount && IndexesBelow(ModelOf(root), |data|))
    }

    /** Returns null, changing nothing, if the key is in the subtree already; otherwise the subtree's new root. */
    method InsertImpl(parent: TreeNode?, key: nat, value: V) returns (r: TreeNode?)
      requires parent != null ==> parent.Valid()
      modifies this`data, ReprOf(parent)
      ensures match Insert(old(ModelOf(parent)), key, if hasValues then |old(data)| else 0)
              case None =>
                && r == null && data == old(data)
                && forall n :: n in old(ReprOf(parent)) ==> unchanged(n)
              case Some(t) =>
                && r != null && r.Valid() && r.model == t && fresh(r.Repr - old(ReprOf(parent)))
                && data == if hasValues then old(data) + [value] else old(data)
      decreases ReprOf(parent)
    {
      hide Rebalanced;
      if parent == null {
        var index := 0;
        if hasValues {
          data := data + [value];
          index := |data| - 1;
        }
        r := new TreeNode(key, index);
        return;
      }
      if key == parent.key {
        return null;
      }
      if key > parent.key {
        var t := InsertImpl(parent.right, key, value);
        if t == null {
          return null;
        }
        r := AttachRight(parent, t);
      } else {
        var t := InsertImpl(parent.left, key, value);
        if t == null {
          return null;
        }
        r := AttachLeft(parent, t);
      }
    }

    /** Adds the key with its value, unless the key is there already. */
    method InsertKey(key: nat, value: V) returns (inserted: bool)
      requires Valid()
      modifies this, ReprOf(root)
      ensures Valid() && inserted == !HasKey(old(Entries(ModelOf(root))), key)
      ensures nodeCount == old(nodeCount) + if inserted then 1 else 0
      ensures var r := Insert(old(ModelOf(root)), key, if hasValues then |old(data)| else 0);
              inserted == r.Some? && ModelOf(root) == if r.Some? then r.value else old(ModelOf(root))
      ensures Entries(ModelOf(root)) ==
              if inserted then Placed(old(Entries(ModelOf(root))), key, if hasValues then |old(data)| else 0)
              else old(Entries(ModelOf(root)))
      ensures data == if inserted && hasValues then old(data) + [value] else old(data)
    {
      ghost var before := ModelOf(root);
      ghost var slot := if hasValues then |data| else 0;
      InsertPlaces(before, key, slot);
      hide Placed, HasKey, Increasing, Insert, Entries, IndexesBelow;
      var node := InsertImpl(root, key, value);
      if node != null {
        PlacedKeepsIncreasing(Entries(before), key, slot);
        if hasValues {
          IndexesInEntries(before, slot);
          PlacedKeepsSlots(Entries(before), key, slot);
          IndexesInEntries(node.model, slot + 1);
        }
        root := node;
        nodeCount := nodeCount + 1;
      }
      inserted := node != null;
    }

    /** Finds the node of a key and, if the tree stores values, its value. */
    method FindKey(key: nat) returns (found: bool, value: Option<V>)
      requires Valid()
      ensures found == HasKey(Entries(ModelOf(root)), key)
      ensures found && hasValues ==>
                value.Some?
                && exists slot: nat ::
                     slot < |data| && (key, slot) in Entries(ModelOf(root)) && value.value == data[slot]
      ensures !(found && hasValues) ==> value.None?
    {
      value := None;
      FindIsMembership(ModelOf(root), key, 0);
      found, value := FindImpl(root, key);
      if found && hasValues {
        FindIsMembership(ModelOf(root), key, Find(ModelOf(root), key).value);
      }
    }

    method FindImpl(node: TreeNode?, key: nat) returns (found: bool, value: Option<V>)
      requires node != null ==> node.Valid()
      requires hasValues ==> IndexesBelow(ModelOf(node), |data|)
      ensures found == Find(ModelOf(node), key).Some?
      ensures if found && hasValues
              then Find(ModelOf(node), key).value < |data| && value == Some(data[Find(ModelOf(node), key).value])
              else value == None
      decreases ReprOf(node)
    {
      if node == null {
        return false, None;
      }
      if node.key == key {
        if hasValues {
          return true, Some(data[node.valueIndex]);
        }
        return true, None;
      }
      if key < node.key {
        found, value := FindImpl(node.left, key);
      } else {
        found, value := FindImpl(node.right, key);
      }
    }

    /** Visits the nodes in order of their keys; the visits are returned as key and value index. */
    method SortedTraverse(node: TreeNode) returns (visited: seq<(nat, nat)>)
      requires node.Valid()
      ensures visited == Entries(node.model)
      decreases node.Repr
    {
      visited := [];
      if node.left != null {
        visited := SortedTraverse(node.left);
      }
      visited := visited + [(node.key, node.valueIndex)];
      if node.right != null {
        var rest := SortedTraverse(node.right);
        visited := visited + rest;
      }
    }
  }
}
