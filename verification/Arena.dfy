/** The arena allocator: a doubly linked list of free blocks in order of size. */
module Arena {
  import opened ArenaModel
  import opened Basics

  class Block {
    var size: nat
    var isFree: bool
    var prev: Block?
    var next: Block?

    constructor (size: nat)
      ensures this.size == size && !isFree && prev == null && next == null
    {
      this.size, isFree, prev, next := size, false, null, null;
    }
  }

  /** The neighbour at an index, if there is one. */
  ghost function Neighbour(list: seq<Block>, i: int): Block? { if 0 <= i < |list| then list[i] else null }

  /** A block is at the given index, or there is no block and the index is past the end. */
  ghost predicate AtIndex(list: seq<Block>, b: Block?, k: nat) {
    if b == null then k == |list| else k < |list| && list[k] == b
  }

  ghost predicate Distinct(list: seq<Block>) { forall i, j :: 0 <= i < j < |list| ==> list[i] != list[j] }

  /** The links of one block point to its neighbours. */
  ghost predicate Joined(list: seq<Block>, i: nat)
    requires i < |list|
    reads list`prev, list`next
  {
    list[i].prev == Neighbour(list, i - 1) && list[i].next == Neighbour(list, i + 1)
  }

  /** The same, as if the block at `k` were not there. */
  ghost predicate JoinedPast(list: seq<Block>, k: nat, i: nat)
    requires i < |list|
    reads list`prev, list`next
  {
    && list[i].prev == Neighbour(list, if i == k + 1 then k - 1 else i - 1)
    && list[i].next == Neighbour(list, if i == k - 1 then k + 1 else i + 1)
  }

  /** The same, as if another block stood before the one at `k`. */
  ghost predicate JoinedAround(list: seq<Block>, k: nat, b: Block, i: nat)
    requires i < |list|
    reads list`prev, list`next
  {
    && list[i].prev == (if i == k then b else Neighbour(list, i - 1))
    && list[i].next == (if i == k - 1 then b else Neighbour(list, i + 1))
  }

  /** The links of consecutive blocks point at each other. */
  ghost predicate Linked(head: Block?, list: seq<Block>)
    reads list`prev, list`next
  {
    head == Neighbour(list, 0) && Distinct(list) && forall i :: 0 <= i < |list| ==> Joined(list, i)
  }

  ghost predicate Sized(list: seq<Block>, sizes: seq<nat>)
    reads list`size, list`isFree
  {
    |list| == |sizes| && forall i :: 0 <= i < |list| ==> list[i].size == sizes[i] && list[i].isFree
  }

  lemma DistinctAfterInsert(was: seq<Block>, k: nat, b: Block)
    requires k <= |was| && Distinct(was) && b !in was
    ensures Distinct(Inserted(was, k, b))
  {
    InsertedAt(was, k, b);
  }

  lemma DistinctAfterRemoval(was: seq<Block>, k: nat)
    requires k < |was| && Distinct(was)
    ensures Distinct(Without(was, k))
  {
    WithoutAt(was, k);
  }

  /** The list is linked but for one new block between two neighbours, which already point to it. */
  lemma LinkedAfterInsert(head: Block?, was: seq<Block>, k: nat, b: Block)
    requires k <= |was| && Distinct(was) && b !in was
    requires head == if k == 0 then b else was[0]
    requires forall i :: 0 <= i < |was| ==> JoinedAround(was, k, b, i)
    requires b.prev == Neighbour(was, k - 1) && b.next == Neighbour(was, k)
    ensures Linked(head, Inserted(was, k, b))
  {
    InsertedAt(was, k, b);
    DistinctAfterInsert(was, k, b);
    var now := Inserted(was, k, b);
    forall i | 0 <= i < |now| ensures Joined(now, i) {
      if i < k {
        assert JoinedAround(was, k, b, i);
      } else if i > k {
        assert JoinedAround(was, k, b, i - 1);
      }
    }
  }

  lemma LinkedAfterRemoval(head: Block?, was: seq<Block>, k: nat)
    requires k < |was| && Distinct(was)
    requires head == if k == 0 then Neighbour(was, 1) else was[0]
    requires forall i :: 0 <= i < |was| && i != k ==> JoinedPast(was, k, i)
    ensures Linked(head, Without(was, k))
  {
    WithoutAt(was, k);
    DistinctAfterRemoval(was, k);
    var now := Without(was, k);
    forall i | 0 <= i < |now| ensures Joined(now, i) {
      if i < k {
        assert JoinedPast(was, k, i) && now[i] == was[i];
        assert Neighbour(now, i - 1) == Neighbour(was, i - 1);
        assert Neighbour(now, i + 1) == Neighbour(was, if i == k - 1 then k + 1 else i + 1);
      } else {
        assert JoinedPast(was, k, i + 1) && now[i] == was[i + 1];
        assert Neighbour(now, i - 1) == Neighbour(was, if i == k then k - 1 else i);
        assert Neighbour(now, i + 1) == Neighbour(was, i + 2);
      }
    }
  }

  lemma SizedAfterInsert(was: seq<Block>, sizes: seq<nat>, k: nat, b: Block)
    requires Sized(was, sizes) && k <= |was| && b.isFree
    ensures Sized(Inserted(was, k, b), Inserted(sizes, k, b.size))
  {
    InsertedAt(was, k, b);
    InsertedAt(sizes, k, b.size);
  }

  /** A list of free blocks with a new one put in its place, if there is one. */
  ghost predicate PutBack(others: seq<Block>, sizes: seq<nat>, left: Block?, list: seq<Block>)
    requires |others| == |sizes|
    reads left
  {
    list == if left == null then others else Inserted<Block>(others, FirstAtLeast(sizes, left.size), left)
  }

  function Dropped<T>(s: seq<T>, k: nat): seq<T> { if k < |s| then Without(s, k) else s }

  function SizeOf(b: Block?): nat
    reads b
  {
    if b == null then 0 else b.size
  }

  /** The list has lost the two neighbours, if there are any, and gained `head`; it holds the same blocks otherwise. */
  ghost predicate Coalesced(was: seq<Block>, before: Block?, after: Block?, head: Block, list: seq<Block>) {
    && head in list
    && (forall x :: x in list ==> x == head || (x in was && x != before && x != after))
    && (forall x :: x in was && x != before && x != after ==> x in list)
    && |list| + (if before == null then 0 else 1) + (if after == null then 0 else 1) == |was| + 1
  }

  lemma CoalescedIs(was: seq<Block>, before: Block?, after: Block?, kb: nat, ka: nat, head: Block, list: seq<Block>)
    requires Distinct(was) && AtIndex(was, before, kb)
    requires AtIndex(if before == null then was else Without(was, kb), after, ka)
    requires exists k :: 0 <= k <= |Dropped(Dropped(was, kb), ka)|
                         && list == Inserted(Dropped(Dropped(was, kb), ka), k, head)
    ensures Coalesced(was, before, after, head, list)
  {
    var one := Dropped(was, kb);
    var two := Dropped(one, ka);
    DroppedMembers(was, before, kb);
    DroppedMembers(one, after, ka);
    var k :| 0 <= k <= |two| && list == Inserted(two, k, head);
    MembersAfterInsert(two, k, head);
  }

  lemma DroppedMembers(list: seq<Block>, b: Block?, k: nat)
    requires Distinct(list) && AtIndex(list, b, k)
    ensures Distinct(Dropped(list, k)) && |Dropped(list, k)| + (if b == null then 0 else 1) == |list|
    ensures forall x :: x in Dropped(list, k) <==> x in list && x != b
  {
    if b != null {
      WithoutAt(list, k);
      DistinctAfterRemoval(list, k);
    }
  }

  class Allocator {
    var size: nat
    var freeHead: Block?
    ghost var list: seq<Block>
    ghost var sizes: seq<nat>
    /** Bytes lost between blocks to alignment; they still count in `size`. */
    ghost var slack: nat

    /** The free list is linked, and `sizes` records its sizes. */
    ghost predicate Listed()
      reads this`freeHead, this`list, this`sizes, list
    {
      Linked(freeHead, list) && Sized(list, sizes)
    }

    ghost predicate Valid()
      reads this, list
    {
      Listed() && Balanced(Account())
    }

    /** Takes over all of the memory as one free block. */
    constructor (memory: Block)
      modifies memory
      ensures Valid() && list == [memory] && slack == 0 && size == old(memory.size)
    {
      size := memory.size;
      freeHead := memory;
      list, sizes, slack := [memory], [memory.size], 0;
      new;
      memory.isFree := true;
      memory.prev, memory.next := null, null;
    }

    /** Links a block in before the whole list. */
    method LinkFirst(b: Block)
      requires Linked(freeHead, list) && b !in list
      modifies this`freeHead, this`list, b`prev, b`next, list`prev, list`next
      ensures list == Inserted(old(list), 0, b) && Linked(freeHead, list)
    {
      ghost var was := list;
      var first := freeHead;
      freeHead := b;
      b.prev, b.next := null, first;
      if first != null {
        first.prev := b;
      }
      forall i | 0 <= i < |was| ensures JoinedAround(was, 0, b, i) {
        assert old(Joined(was, i));
      }
      LinkedAfterInsert(freeHead, was, 0, b);
      list := Inserted(list, 0, b);
    }

    /** Links a block in behind another one, at the end or not. */
    method LinkAfter(b: Block, before: Block, ghost k: nat)
      requires Linked(freeHead, list) && b !in list && 0 < k <= |list| && list[k - 1] == before
      modifies this`list, b`prev, b`next, list`prev, list`next
      ensures list == Inserted(old(list), k, b) && Linked(freeHead, list)
    {
      ghost var was := list;
      assert Joined(list, k - 1);
      var after := before.next;
      b.prev, b.next := before, after;
      if after != null {
        after.prev := b;
      }
      before.next := b;
      forall i | 0 <= i < |was| ensures JoinedAround(was, k, b, i) {
        assert old(Joined(was, i));
      }
      LinkedAfterInsert(freeHead, was, k, b);
      list := Inserted(list, k, b);
    }

    /** The last block that is smaller, when the first one is. */
    method LastSmaller(n: nat) returns (before: Block, ghost k: nat)
      requires Listed() && list != [] && sizes[0] < n
      ensures k == FirstAtLeast(sizes, n) > 0 && before == list[FirstAtLeast(sizes, n) - 1]
    {
      assert Joined(list, 0);
      before := freeHead;
      var free := before.next;
      k := 1;
      while free != null && free.size < n
        invariant 0 < k <= |list| && before == list[k - 1] && free == Neighbour(list, k)
        invariant forall i :: 0 <= i < k ==> sizes[i] < n
        decreases |list| - k
      {
        assert Joined(list, k);
        before, free := free, free.next;
        k := k + 1;
      }
      FirstAtLeastIs(sizes, n, k);
    }

    /** Puts a block into the free list, before the first block that is not smaller. */
    method InsertAsFree(b: Block)
      requires Listed() && b !in list && b.isFree
      modifies this`freeHead, this`list, this`sizes, b`prev, b`next, list`prev, list`next
      ensures Listed()
      ensures var k := FirstAtLeast(old(sizes), old(b.size));
              list == Inserted(old(list), k, b) && sizes == Inserted(old(sizes), k, old(b.size))
    {
      ghost var at, was := FirstAtLeast(sizes, b.size), list;
      if freeHead == null || b.size <= freeHead.size {
        FirstAtLeastIs(sizes, b.size, 0);
        LinkFirst(b);
      } else {
        var before;
        ghost var k;
        before, k := LastSmaller(b.size);
        LinkAfter(b, before, k);
      }
      SizedAfterInsert(was, sizes, at, b);
      sizes := Inserted(sizes, at, b.size);
    }

    /** Makes the neighbours of a block point past it. */
    method PointPast(b: Block, ghost k: nat)
      requires k < |list| && list[k] == b && Distinct(list) && forall i :: 0 <= i < |list| ==> Joined(list, i)
      modifies list`prev, list`next
      ensures b.prev == b.next == null
      ensures forall i :: 0 <= i < |list| && i != k ==> JoinedPast(list, k, i)
    {
      assert Joined(list, k);
      var before, after := b.prev, b.next;
      if before != null {
        before.next := after;
      }
      if after != null {
        after.prev := before;
      }
      b.prev, b.next := null, null;
      forall i | 0 <= i < |list| && i != k ensures JoinedPast(list, k, i) {
        assert old(Joined(list, i));
      }
    }

    /** Takes a free block out of the list; its own size may have changed by now. */
    method Disconnect(b: Block, ghost k: nat)
      requires Linked(freeHead, list) && k < |list| == |sizes| && list[k] == b && b.isFree
      modifies this`freeHead, this`list, this`sizes, list`prev, list`next
      ensures list == Without(old(list), k) && sizes == Without(old(sizes), k) && Linked(freeHead, list)
      ensures b.prev == b.next == null
    {
      assert Joined(list, k);
      if freeHead == b {
        freeHead := b.next;
      }
      PointPast(b, k);
      LinkedAfterRemoval(freeHead, list, k);
      list := Without(list, k);
      sizes := Without(sizes, k);
    }
  
    /** The first free block that is large enough, which is also the smallest such. */
    method FirstFit(needed: nat) returns (free: Block?, ghost k: nat)
      requires Valid()
      ensures free == Neighbour(list, FirstAtLeast(sizes, needed)) && k == FirstAtLeast(sizes, needed)
    {
      free := freeHead;
      k := 0;
      while free != null && free.size < needed
        invariant k <= |list| && free == Neighbour(list, k) && forall i :: 0 <= i < k ==> sizes[i] < needed
        decreases |list| - k
      {
        assert Joined(list, k);
        free := free.next;
        k := k + 1;
      }
      FirstAtLeastIs(sizes, needed, k);
    }

    /** Takes a block out of the list, with the sizes of the others kept. */
    method Remove(b: Block, ghost k: nat)
      requires Linked(freeHead, list) && k < |list| == |sizes| && list[k] == b && b.isFree
      requires forall i :: 0 <= i < |list| && i != k ==> list[i].size == sizes[i] && list[i].isFree
      modifies this`freeHead, this`list, this`sizes, list`prev, list`next
      ensures Listed() && list == Without(old(list), k) && sizes == Without(old(sizes), k)
      ensures b !in list && forall x :: x in list ==> x in old(list)
    {
      WithoutAt(list, k);
      WithoutAt(sizes, k);
      MembersAfterRemoval(list, k);
      Disconnect(b, k);
    }

    /** Puts what is left of a block back into the list as a block of its own. */
    method InsertRest(rest: nat, padding: nat) returns (left: Block?)
      requires Listed() && padding < 8 && (rest != 0 ==> rest >= 8)
      modifies this`freeHead, this`list, this`sizes, this`slack, list`prev, list`next
      ensures Listed() && PutBack(old(list), old(sizes), left, list) && (left != null ==> fresh(left))
      ensures sizes == if rest == 0 then old(sizes) else Added(old(sizes), rest - padding)
      ensures slack == old(slack) + if rest == 0 then 0 else padding
    {
      if rest == 0 {
        return null;
      }
      hide Listed, Inserted, FirstAtLeast;
      left := InsertNew(rest - padding);
      slack := slack + padding;
    }

    /** Puts a new free block into the list. */
    method InsertNew(n: nat) returns (b: Block)
      requires Listed()
      modifies this`freeHead, this`list, this`sizes, list`prev, list`next
      ensures Listed() && fresh(b) && b.size == n && sizes == Added(old(sizes), n) && |old(list)| == |old(sizes)|
      ensures list == Inserted(old(list), FirstAtLeast(old(sizes), n), b)
    {
      b := new Block(n);
      b.isFree := true;
      hide Inserted, Linked;
      InsertAsFree(b);
    }

    ghost function Account(): Books
      reads this
    {
      Books(sizes, size, slack)
    }

    /**
     * Allocates from the smallest block that fits, and returns nothing exactly if none does. What is
     * left of the block goes back into the list unless it is too small, `padding` bytes being lost to
     * alignment.
     */
    method Alloc(request: nat, padding: nat) returns (block: Block?, left: Block?)
      requires Valid() && request < WORD && padding < 8
      modifies this, list
      ensures Valid()
      ensures Account() == if request == 0 then old(Account()) else Allocated(old(Account()), Needed(request), padding)
      ensures block != null <==> request > 0 && Served(old(Account()), Needed(request))
      ensures block == null ==> list == old(list)
      ensures block != null ==>
                var k := FirstAtLeast(old(sizes), Needed(request));
                && block == old(list)[k] && !block.isFree && block.size == old(size) - size
                && (left != null ==> fresh(left)) && PutBack(Without(old(list), k), Without(old(sizes), k), left, list)
    {
      if request == 0 {
        return null, null;
      }
      block, left := AllocSome(Needed(request), padding);
    }

    method AllocSome(needed: nat, padding: nat) returns (block: Block?, left: Block?)
      requires Valid() && padding < 8
      modifies this, list
      ensures Valid() && Account() == Allocated(old(Account()), needed, padding)
      ensures block != null <==> Served(old(Account()), needed)
      ensures block == null ==> list == old(list)
      ensures block != null ==>
                var k := FirstAtLeast(old(sizes), needed);
                && block == old(list)[k] && !block.isFree && block.size == old(size) - size
                && (left != null ==> fresh(left)) && PutBack(Without(old(list), k), Without(old(sizes), k), left, list)
    {
      ghost var books := Account();
      if size < needed {
        TooSmallToServe(Account(), needed);
        return null, null;
      }
      ghost var k;
      block, k := FirstFit(needed);
      left := null;
      if block != null {
        var rest := Remainder(block.size, needed);
        left := Give(block, k, rest, padding);
        AllocatedIs(books, needed, padding, k, rest, Account());
      }
    }

    /** Takes a block out of the list and out of the account, but for the rest that is to go back. */
    method TakeOut(block: Block, ghost k: nat, rest: nat)
      requires Valid() && k < |list| && list[k] == block && rest <= block.size
      modifies this`freeHead, this`list, this`sizes, this`size, list
      ensures Listed() && list == Without(old(list), k) && sizes == Without(old(sizes), k)
      ensures !block.isFree && block.size == old(sizes[k]) - rest && size == old(size) - block.size
      ensures forall i :: 0 <= i < |list| ==> list[i] in old(list)
    {
      ElementAtMostSum(sizes, k);
      assert forall i :: 0 <= i < |list| ==> list[i].size == sizes[i] && list[i].isFree;
      hide Linked, Without;
      Remove(block, k);
      block.size, block.isFree := block.size - rest, false;
      size := size - block.size;
    }

    /** Takes a block out of the list and puts back what is left of it as another one. */
    method Give(block: Block, ghost k: nat, rest: nat, padding: nat) returns (left: Block?)
      requires Valid() && padding < 8 && k < |list| && list[k] == block && rest <= block.size
               && (rest != 0 ==> rest >= 8)
      modifies this, list
      ensures Listed()
      ensures sizes == if rest == 0 then Without(old(sizes), k) else Added(Without(old(sizes), k), rest - padding)
      ensures slack == old(slack) + if rest == 0 then 0 else padding
      ensures !block.isFree && block.size == old(sizes[k]) - rest && size == old(size) - block.size
      ensures left != null ==> fresh(left)
      ensures PutBack(Without(old(list), k), Without(old(sizes), k), left, list)
    {
      TakeOut(block, k, rest);
      left := InsertRest(rest, padding);
    }
  
    /** Lets the free block before another one grow over it, and takes it out of the list for now. */
    method MergeBefore(block: Block, before: Block, ghost k: nat)
      requires Listed() && !block.isFree && k < |list| && list[k] == before
      modifies this`freeHead, this`list, this`sizes, before, list`prev, list`next
      ensures Listed() && list == Without(old(list), k) && sizes == Without(old(sizes), k)
      ensures before !in list && before.size == old(sizes[k]) + block.size && before.isFree
      ensures forall i :: 0 <= i < |list| ==> list[i] in old(list)
    {
      before.size := before.size + block.size;
      Remove(before, k);
    }

    /** Lets a block grow over the free block after it, which is taken out of the list. */
    method MergeAfter(head: Block, after: Block, ghost k: nat)
      requires Listed() && head !in list && k < |list| && list[k] == after
      modifies this`freeHead, this`list, this`sizes, head`size, list`prev, list`next
      ensures Listed() && list == Without(old(list), k) && sizes == Without(old(sizes), k)
      ensures head !in list && head.size == old(head.size) + old(sizes[k])
      ensures forall i :: 0 <= i < |list| ==> list[i] in old(list)
    {
      head.size := head.size + after.size;
      Remove(after, k);
    }

    method MergeIfBefore(block: Block, before: Block?) returns (head: Block, ghost k: nat)
      requires Listed() && !block.isFree && (before != null ==> before in list)
      modifies this`freeHead, this`list, this`sizes, block, list
      ensures Listed() && head == (if before == null then block else before) && head !in list
      ensures (sizes, head.size) == Absorbed(old(sizes), old(block.size), k)
      ensures AtIndex(old(list), before, k) && list == if before == null then old(list) else Without(old(list), k)
      ensures head.size == old(block.size) + old(SizeOf(before))
      ensures forall x :: x in old(list) && x != before ==> x.size == old(x.size)
      ensures forall i :: 0 <= i < |list| ==> list[i] in old(list)
    {
      head, k := block, |list|;
      if before != null {
        k :| 0 <= k < |list| && list[k] == before;
        MergeBefore(block, before, k);
        head := before;
      }
    }

    method MergeIfAfter(head: Block, after: Block?) returns (ghost k: nat)
      requires Listed() && head !in list && (after != null ==> after in list)
      modifies this`freeHead, this`list, this`sizes, head`size, list`prev, list`next
      ensures Listed() && head !in list
      ensures (sizes, head.size) == Absorbed(old(sizes), old(head.size), k) && AtIndex(old(list), after, k)
      ensures list == if after == null then old(list) else Without(old(list), k)
      ensures head.size == old(head.size) + old(SizeOf(after))
      ensures forall i :: 0 <= i < |list| ==> list[i] in old(list)
    {
      k := |list|;
      if after != null {
        k :| 0 <= k < |list| && list[k] == after;
        MergeAfter(head, after, k);
      }
    }

    /** Merges a block with the free blocks right before and after it, if any. */
    method MergeNeighbours(block: Block, before: Block?, after: Block?)
      returns (head: Block, ghost kb: nat, ghost ka: nat)
      requires Listed() && !block.isFree
      requires (before != null ==> before in list) && (after != null ==> after in list && after != before)
      modifies this`freeHead, this`list, this`sizes, block, list
      ensures Listed() && head == (if before == null then block else before) && head !in list
      ensures (sizes, head.size) == Merged(old(sizes), old(block.size), kb, ka)
      ensures AtIndex(old(list), before, kb)
              && AtIndex(if before == null then old(list) else Without(old(list), kb), after, ka)
      ensures forall i :: 0 <= i < |list| ==> list[i] in old(list)
      ensures list == Dropped(Dropped(old(list), kb), ka)
      ensures head.size == old(block.size) + old(SizeOf(before)) + old(SizeOf(after))
    {
      hide Listed, Absorbed, Without;
      ghost var was := list;
      head, kb := MergeIfBefore(block, before);
      if before != null {
        MembersAfterRemoval(was, kb);
      }
      ka := MergeIfAfter(head, after);
    }

    /** Puts a block back into the list, merged with the free blocks around it. */
    method Reclaim(block: Block, before: Block?, after: Block?) returns (head: Block, ghost kb: nat, ghost ka: nat)
      requires Listed() && !block.isFree
      requires (before != null ==> before in list) && (after != null ==> after in list && after != before)
      modifies this`freeHead, this`list, this`sizes, block, list
      ensures Listed() && head == (if before == null then block else before) && head in list && head.isFree
      ensures sizes == var (others, m) := Merged(old(sizes), old(block.size), kb, ka); Added(others, m)
      ensures AtIndex(old(list), before, kb)
              && AtIndex(if before == null then old(list) else Without(old(list), kb), after, ka)
      ensures head.size == old(block.size) + old(SizeOf(before)) + old(SizeOf(after))
      ensures exists k :: 0 <= k <= |Dropped(Dropped(old(list), kb), ka)|
                          && list == Inserted(Dropped(Dropped(old(list), kb), ka), k, head)
    {
      hide Merged, Added, AtIndex, Without, Inserted, Dropped;
      head, kb, ka := MergeNeighbours(block, before, after);
      head.isFree := true;
      InsertMerged(head);
    }

    /**
     * Frees a block, merged with the free blocks right before and after it, if any. A block that still
     * carries the mark of an earlier free is left alone. `kb` and `ka` are where the neighbours were.
     */
    method Free(block: Block, marked: bool, before: Block?, after: Block?)
      returns (head: Block, ghost kb: nat, ghost ka: nat)
      requires Valid() && !block.isFree
      requires (before != null ==> before in list) && (after != null ==> after in list && after != before)
      modifies this, block, list
      ensures Valid() && head == (if marked || before == null then block else before)
      ensures marked ==>
                Account() == old(Account()) && list == old(list) && !block.isFree && block.size == old(block.size)
      ensures !marked ==>
                && Account() == Freed(old(Account()), old(block.size), kb, ka) && head.isFree
                && AtIndex(old(list), before, kb)
                && AtIndex(if before == null then old(list) else Without(old(list), kb), after, ka)
                && head.size == old(block.size) + old(SizeOf(before)) + old(SizeOf(after))
                && Coalesced(old(list), before, after, head, list)
    {
      head, kb, ka := block, |list|, |list|;
      if marked {
        return;
      }
      ghost var books, n := Account(), block.size;
      size := size + block.size;
      ghost var was := list;
      head, kb, ka := Reclaim(block, before, after);
      FreedIs(books, n, kb, ka, Account());
      CoalescedIs(was, before, after, kb, ka, head, list);
    }

    method InsertMerged(head: Block)
      requires Listed() && head !in list && head.isFree
      modifies this`freeHead, this`list, this`sizes, head`prev, head`next, list`prev, list`next
      ensures Listed() && sizes == Added(old(sizes), old(head.size)) && head in list && head.size == old(head.size)
      ensures |old(list)| == |old(sizes)|
      ensures list == Inserted(old(list), FirstAtLeast(old(sizes), old(head.size)), head)
    {
      MembersAfterInsert(list, FirstAtLeast(sizes, head.size), head);
      InsertAsFree(head);
    }
  }

  /** The bytes that the arena's own header takes. */
  const ARENA_SIZE := 56

  /** Makes an arena of some bytes of memory, if that is enough for its header and a block. */
  method Create(memory: Block?, bytes: nat) returns (arena: Allocator?)
    modifies if memory == null then {} else {memory}
    ensures arena == null <==> memory == null || bytes <= ARENA_SIZE + OVERHEAD
    ensures arena != null ==>
            fresh(arena) && arena.Valid() && arena.list == [memory] && arena.slack == 0
                && arena.size == bytes - ARENA_SIZE
  {
    if memory == null || bytes <= ARENA_SIZE + OVERHEAD {
      return null;
    }
    memory.size := bytes - ARENA_SIZE;
    arena := new Allocator(memory);
  }

  lemma TooSmallToServe(books: Books, needed: nat)
    requires Balanced(books) && books.size < needed
    ensures !Served(books, needed)
  {
    var k := FirstAtLeast(books.sizes, needed);
    if k < |books.sizes| {
      ElementAtMostSum(books.sizes, k);
    }
  }
}
