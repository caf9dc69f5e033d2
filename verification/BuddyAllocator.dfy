/** The page allocator itself: zone heads, and block headers kept in the first bytes of free pages. */
module BuddyAllocator {
  import opened Arithmetic
  import opened BitArithmetic
  import opened BuddyModel
  import opened BuddyTails
  import opened BuddyRuns

  /** What a free block stores in its first bytes. */
  datatype Header = Header(next: nat, tag: nat)

  lemma AllocateKeepsNoOverlap(zones: Zones, count: nat)
    requires |zones| > 0 && Allocate(zones, count).Pages? && NoOverlap(zones)
    ensures NoOverlap(Allocate(zones, count).zones)
  {
    forall p: nat ensures CountFree(Allocate(zones, count).zones, p) <= 1 {
      assert CountFree(zones, p) <= 1;
      AllocateCounts(zones, count, p);
    }
  }

  /** What an allocation amounts to in each of its cases. */
  lemma AllocateCases(zones: Zones, count: nat)
    requires |zones| > 0 && NoOverlap(zones)
    ensures count == 0 || count > Pow2(|zones| - 1) ==> Allocate(zones, count) == NoPages
    ensures 0 < count <= Pow2(|zones| - 1) ==> CeilLog2(count) < |zones|
    ensures 0 < count <= Pow2(|zones| - 1) ==>
              var order := FirstNonEmpty(zones, CeilLog2(count));
              if order == |zones| then Allocate(zones, count) == NoPages
              else
                && zones[order] != [] && count <= Pow2(order) && Pow2(order) - count < Pow2(order + 1)
                && var ptr := zones[order][0].addr;
                   var after := Distribute(zones[order := zones[order][1..]], order + 1, Pow2(order) - count,
                       ptr + count * PAGE, ptr);
                   Allocate(zones, count) == Pages(ptr, after) && NoOverlap(after)
  {
    if 0 < count <= Pow2(|zones| - 1) {
      CeilLog2AtMost(count, |zones| - 1);
      CeilLog2Holds(count);
      var order := FirstNonEmpty(zones, CeilLog2(count));
      Pow2Monotone(CeilLog2(count), order);
      if order < |zones| { AllocateKeepsNoOverlap(zones, count); }
    }
  }

  /** The given pages are in no free block, and no byte is in two. */
  ghost predicate Room(zones: Zones, page: nat, pages: nat) {
    forall p: nat :: CountFree(zones, p) + Covers(page, pages, p) <= 1
  }

  lemma PoppingMakesRoom(zones: Zones, z: nat, count: nat)
    requires z < |zones| && zones[z] != [] && count <= Pow2(z) && NoOverlap(zones)
    ensures Room(zones[z := zones[z][1..]], zones[z][0].addr + count * PAGE, Pow2(z) - count)
  {
    var popped: Zones := zones[z := zones[z][1..]];
    forall p: nat ensures CountFree(popped, p) + Covers(zones[z][0].addr + count * PAGE, Pow2(z) - count, p) <= 1 {
      assert CountFree(zones, p) <= 1;
      PopCounts(zones, z, p);
    }
  }

  lemma InsertingUsesRoom(zones: Zones, z: nat, page: nat, pages: nat, prev: nat)
    requires z < |zones| && Pow2(z) <= pages && Room(zones, page, pages)
    ensures Unchained(zones, page)
    ensures Room(InsertPages(zones, z, page, prev), page + Pow2(z) * PAGE, pages - Pow2(z))
  {
    assert CountFree(zones, page) + Covers(page, pages, page) <= 1;
    UncoveredIsUnchained(zones, page);
    var after: Zones := InsertPages(zones, z, page, prev);
    forall p: nat ensures CountFree(after, p) + Covers(page + Pow2(z) * PAGE, pages - Pow2(z), p) <= 1 {
      assert CountFree(zones, p) + Covers(page, pages, p) <= 1;
      InsertCounts(zones, z, page, prev, p);
    }
  }

  function AddrAt(chain: seq<Block>, i: nat): nat { if i < |chain| then chain[i].addr else 0 }

  /** Each header links to the next block of the chain, the last one to nothing. */
  ghost predicate Linked(chain: seq<Block>, headers: map<nat, Header>) {
    forall i :: 0 <= i < |chain| ==>
         && chain[i].addr != 0 && chain[i].addr in headers
         && headers[chain[i].addr] == Header(AddrAt(chain, i + 1), chain[i].tag)
  }

  ghost predicate IsBlock(chains: Zones, z: int, i: int) { 0 <= z < |chains| && 0 <= i < |chains[z]| }

  /** No two chained blocks start at the same address. */
  ghost predicate Distinct(chains: Zones) {
    forall z, i, z', i' {:trigger IsBlock(chains, z, i), IsBlock(chains, z', i')} ::
      IsBlock(chains, z, i) && IsBlock(chains, z', i') && chains[z][i].addr == chains[z'][i'].addr ==>
          z == z' && i == i'
  }

  ghost predicate Unchained(chains: Zones, addr: nat) {
    forall z, i :: 0 <= z < |chains| && 0 <= i < |chains[z]| ==> chains[z][i].addr != addr
  }

  lemma UncoveredIsUnchained(chains: Zones, addr: nat)
    requires CountFree(chains, addr) == 0
    ensures Unchained(chains, addr)
  {
    forall z, i | 0 <= z < |chains| && 0 <= i < |chains[z]| ensures chains[z][i].addr != addr {
      CountZonesAtLeast(chains, |chains|, z, addr);
      CountChainAt(chains[z], i, Pow2(z), addr);
    }
  }

  lemma OverlapFreeIsDistinct(chains: Zones)
    requires NoOverlap(chains)
    ensures Distinct(chains)
  {
    forall z, i, z', i' {:trigger IsBlock(chains, z, i), IsBlock(chains, z', i')} |
      IsBlock(chains, z, i) && IsBlock(chains, z', i') && chains[z][i].addr == chains[z'][i'].addr
      ensures z == z' && i == i'
    {
      var p := chains[z][i].addr;
      assert CountFree(chains, p) <= 1;
      if (z, i) != (z', i') { CountTwo(chains, z, i, z', i', p); }
    }
  }

  ghost predicate SingleBelow(chain: seq<Block>, headers: map<nat, Header>, bound: nat) {
    || chain == []
    || (|chain| == 1 && 0 < chain[0].addr < bound && chain[0].addr in headers
        && headers[chain[0].addr] == Header(0, chain[0].tag))
  }

  lemma CreateStep(z: nat, pages: nat, base: nat, last: nat, chains: Zones)
    requires z < |chains|
    ensures Create(z + 1, pages, base, last) + chains[z + 1..] ==
            if pages < Pow2(z) then Create(z, pages, base, last) + chains[z := []][z..]
            else Create(z, pages - Pow2(z), base + Pow2(z) * PAGE, base)
                 + chains[z := [Block(base, Xor(last, base))]][z..]
  {
    assert forall c :: chains[z := c][z..] == [c] + chains[z + 1..];
  }

  lemma CreateIsDistinct(n: nat, pages: nat, base: nat)
    requires pages < Pow2(n)
    ensures Distinct(Create(n, pages, base, 0))
  {
    forall p: nat { CreateCounts(n, pages, base, 0, p); }
    OverlapFreeIsDistinct(Create(n, pages, base, 0));
  }

  function Align4k(addr: nat): (r: nat)
    ensures addr <= r < addr + PAGE && r % PAGE == 0
  {
    (addr + PAGE - 1) / PAGE * PAGE
  }

  class Allocator {
    var zones: array<nat>
    var maxOrder: nat
    // the headers that currently sit in the pages of the pool
    var headers: map<nat, Header>
    ghost var chains: Zones

    ghost predicate Valid()
      reads this, zones
    {
      && zones.Length == maxOrder + 1 == |chains|
      && (forall z :: 0 <= z <= maxOrder ==> zones[z] == AddrAt(chains[z], 0) && Linked(chains[z], headers))
      && Distinct(chains)
    }

    /**
     * The pool is what is left of the memory after alignment and, without a static allocator, after the
     * allocator's own page.
     */
    constructor (poolBase: nat, poolPages: nat, staticAllocator: bool)
      requires poolBase > 0 && poolPages > 2
      ensures Valid() && fresh(zones)
      ensures var base := Align4k(poolBase) + if staticAllocator then 0 else PAGE;
              var aligned := poolPages - if poolBase < Align4k(poolBase) then 1 else 0;
              var pages := aligned - if staticAllocator then 0 else 1;
              && poolBase <= base && base + pages * PAGE <= poolBase + poolPages * PAGE
              && pages > 0 && maxOrder == Log2(pages)
              && chains == Create(maxOrder + 1, pages, base, 0)
    {
      hide *;
      var base: nat := Align4k(poolBase);
      var pages: nat := poolPages;
      if poolBase < base {
        pages := pages - 1;
      }
      if !staticAllocator {
        pages := pages - 1;
      }
      var n := Log2(pages);
      maxOrder := n;
      zones := new nat[n + 1];
      if !staticAllocator {
        base := base + PAGE;
      }
      headers := map[];
      chains := [];
      new;
      Populate(base, pages);
    }

    /** The zones from `z` up are chained, out of blocks below `bound`. */
    ghost predicate ChainedFrom(z: nat, bound: nat)
      reads this, zones
    {
      && zones.Length == maxOrder + 1 == |chains|
      && forall k :: z <= k <= maxOrder ==> zones[k] == AddrAt(chains[k], 0) && SingleBelow(chains[k], headers, bound)
    }

    /** Fills zone `z` of a fresh pool: with one block if enough pages are left, else with none. */
    method ChainFirst(z: nat, base: nat, pages: nat, last: nat) returns (nextBase: nat, nextPages: nat, nextLast: nat)
      requires z <= maxOrder && base > 0 && pages < Pow2(z + 1) && ChainedFrom(z + 1, base)
      modifies this`headers, this`chains, zones
      ensures nextBase > 0 && nextPages < Pow2(z) && ChainedFrom(z, nextBase)
      ensures Create(z, nextPages, nextBase, nextLast) + chains[z..]
              == Create(z + 1, pages, base, last) + old(chains)[z + 1..]
    {
      CreateStep(z, pages, base, last, chains);
      nextBase, nextPages, nextLast := base, pages, last;
      if pages < Pow2(z) {
        zones[z] := 0;
        chains := chains[z := []];
      } else {
        zones[z] := base;
        nextBase, nextPages, nextLast := base + PAGE * Pow2(z), pages - Pow2(z), base;
        headers := headers[base := Header(0, Xor(last, base))];
        chains := chains[z := [Block(base, Xor(last, base))]];
      }
    }

    /** Splits the pool into one block per set bit of its page count and chains each in its zone. */
    method Populate(poolBase: nat, poolPages: nat)
      requires zones.Length == maxOrder + 1 && poolBase > 0 && poolPages < Pow2(maxOrder + 1)
      modifies this`headers, this`chains, zones
      ensures Valid() && chains == Create(maxOrder + 1, poolPages, poolBase, 0)
    {
      var base: nat, pages: nat, last: nat := poolBase, poolPages, 0;
      var z: nat := maxOrder + 1;
      headers := map[];
      chains := seq(maxOrder + 1, _ => []);
      assert ChainedFrom(z, base) && chains[z..] == [];
      hide Valid, ChainedFrom, Distinct, Create;
      while z > 0
        invariant z <= maxOrder + 1 && base > 0 && pages < Pow2(z) && ChainedFrom(z, base)
        invariant Create(z, pages, base, last) + chains[z..] == Create(maxOrder + 1, poolPages, poolBase, 0)
      {
        z := z - 1;
        base, pages, last := ChainFirst(z, base, pages, last);
      }
      assert chains == Create(maxOrder + 1, poolPages, poolBase, 0);
      CreateIsDistinct(maxOrder + 1, poolPages, poolBase);
      AllChained(base);
    }

    lemma AllChained(bound: nat)
      requires ChainedFrom(0, bound) && Distinct(chains)
      ensures Valid()
    {
    }

    /** Appends a block to the chain of its zone. */
    method InsertPages(order: nat, block: nat, prevBlock: nat)
      requires Valid() && order <= maxOrder && block != 0 && Unchained(chains, block)
      modifies this`headers, this`chains, zones
      ensures Valid() && chains == BuddyModel.InsertPages(old(chains), order, block, prevBlock)
    {
      AppendHeader(order, block, prevBlock);
      AppendKeepsLinks(chains, order, block, prevBlock, old(headers), headers);
      chains := BuddyModel.InsertPages(chains, order, block, prevBlock);
      hide Linked, Distinct, Unchained, Appends, Xor;
    }

    /** Writes the header of the new block and links it behind the last one. */
    method AppendHeader(order: nat, block: nat, prevBlock: nat)
      requires Valid() && order <= maxOrder && block != 0
      modifies this`headers, zones
      ensures Appends(chains, order, block, prevBlock, old(headers), headers)
      ensures forall z :: 0 <= z <= maxOrder && z != order ==> zones[z] == old(zones[z])
      ensures zones[order] == if chains[order] == [] then block else old(zones[order])
    {
      ghost var chain := chains[order];
      var header := zones[order];
      assert Linked(chain, headers);
      hide Xor, Distinct;
      if header == 0 {
        zones[order] := block;
        headers := headers[block := Header(0, Xor(block, prevBlock))];
      } else {
        var prev := prevBlock;
        ghost var i: nat := 0;
        while headers[header].next != 0
          invariant 0 <= i < |chain| && header == chain[i].addr && header in headers
          invariant prev == if i == 0 then prevBlock else chain[i - 1].addr
          decreases |chain| - i
        {
          prev := header;
          header := headers[header].next;
          i := i + 1;
        }
        headers := headers[header := headers[header].(next := block)];
        headers := headers[block := Header(0, Xor(block, prev))];
      }
    }

    /** Returns 0 when nothing fits. */
    method Allocate(count: nat) returns (ptr: nat)
      requires Valid() && NoOverlap(chains)
      modifies this`headers, this`chains, zones
      ensures Valid() && NoOverlap(chains)
      ensures match BuddyModel.Allocate(old(chains), count)
              case NoPages => ptr == 0 && chains == old(chains)
              case Pages(block, after) => ptr == block != 0 && chains == after
    {
      assert |chains| == maxOrder + 1;
      hide *;
      AllocateCases(chains, count);
      if count == 0 {
        return 0;
      }
      var maxPages := Pow2(maxOrder);
      if count > maxPages {
        return 0;
      }
      var order := FirstZone(CeilLog2(count));
      if order > maxOrder {
        return 0;
      }
      ptr := Serve(order, count);
    }

    /** Takes the first block of a zone and gives back what the request leaves of it. */
    method Serve(order: nat, count: nat) returns (ptr: nat)
      requires Valid() && order <= maxOrder && chains[order] != [] && 0 < count <= Pow2(order) && NoOverlap(chains)
      modifies this`headers, this`chains, zones
      ensures Valid() && ptr == old(chains)[order][0].addr != 0
      ensures chains == Distribute(old(chains)[order := old(chains)[order][1..]], order + 1, Pow2(order) - count,
              ptr + count * PAGE, ptr)
    {
      assert |chains| == maxOrder + 1;
      ptr := PopFront(order, count);
      hide Valid, Room, Distribute;
      Relocate(order, ptr + count * PAGE, Pow2(order) - count, ptr);
    }

    /** Looks for the first zone at or above `from` that has a block. */
    method FirstZone(from: nat) returns (order: nat)
      requires Valid() && from <= maxOrder
      ensures order == FirstNonEmpty(chains, from)
    {
      order := from;
      while order <= maxOrder
        invariant from <= order <= maxOrder + 1
        invariant FirstNonEmpty(chains, from) == FirstNonEmpty(chains, order)
      {
        assert Linked(chains[order], headers);
        if zones[order] != 0 {
          break;
        }
        order := order + 1;
      }
    }

    /** Takes the first block of a zone; the bytes it covered are free of blocks then. */
    method PopFront(order: nat, ghost count: nat) returns (ptr: nat)
      requires Valid() && order <= maxOrder && chains[order] != [] && count <= Pow2(order)
      requires NoOverlap(chains)
      modifies this`chains, zones
      ensures Valid() && chains == old(chains)[order := old(chains)[order][1..]]
              && ptr == old(chains)[order][0].addr != 0
      ensures Room(chains, ptr + count * PAGE, Pow2(order) - count)
    {
      PoppingMakesRoom(chains, order, count);
      ptr := zones[order];
      assert Linked(chains[order], headers);
      RemovalKeepsLinks(chains, order, 0, headers, headers);
      assert chains[order][..0] + chains[order][1..] == chains[order][1..];
      zones[order] := headers[ptr].next;
      chains := chains[order := chains[order][1..]];
    }

    /** Hands the tail of a block to the zones below it. */
    method Relocate(order: nat, firstPage: nat, pages: nat, ptr: nat)
      requires Valid() && order <= maxOrder && firstPage > 0 && pages < Pow2(order + 1)
      requires Room(chains, firstPage, pages)
      modifies this`headers, this`chains, zones
      ensures Valid() && chains == Distribute(old(chains), order + 1, pages, firstPage, ptr)
    {
      assert |chains| == maxOrder + 1;
      hide Valid, Room, Log2, Unchained;
      var pagesInZone := Pow2(order);
      var rest: nat, prev: nat, page: nat := pages, ptr, firstPage;
      var z: nat := order + 1;
      while z > 0 && rest > 0
        invariant z <= order + 1 && page > 0 && (z > 0 ==> pagesInZone == Pow2(z - 1))
        invariant Valid() && |chains| == maxOrder + 1
        invariant Distribute(old(chains), order + 1, pages, firstPage, ptr) == Distribute(chains, z, rest, page, prev)
        invariant Room(chains, page, rest)
      {
        z := z - 1;
        if pagesInZone <= rest {
          InsertingUsesRoom(chains, z, page, rest, prev);
          InsertPages(z, page, prev);
          rest := rest - pagesInZone;
          prev := page;
          page := page + pagesInZone * PAGE;
        }
        pagesInZone := pagesInZone / 2;
      }
    }

    /** Unlinks the first block of the zone whose tag names `last`; returns 0 if there is none. */
    method AbsorbBuddy(z: nat, last: nat) returns (buddy: nat)
      requires Valid() && z <= maxOrder
      modifies this`headers, this`chains, zones
      ensures Valid()
      ensures var i := FindBuddy(old(chains)[z], last);
              if i == |old(chains)[z]| then buddy == 0 && chains == old(chains)
              else buddy == old(chains)[z][i].addr != 0 && chains == RemoveAt(old(chains), z, i)
    {
      ghost var chain := chains[z];
      buddy := 0;
      if zones[z] != 0 {
        var prevHeader := 0;
        var header := zones[z];
        ghost var i: nat := 0;
        assert Linked(chain, headers);
        while true
          invariant 0 <= i < |chain| && header == chain[i].addr && header in headers
          invariant prevHeader == if i == 0 then 0 else chain[i - 1].addr
          invariant FindBuddy(chain, last) == i + FindBuddy(chain[i..], last)
          decreases |chain| - i
        {
          if Xor(headers[header].tag, last) == header {
            buddy := header;
            if prevHeader == 0 {
              zones[z] := headers[header].next;
            } else {
              headers := headers[prevHeader := headers[prevHeader].(next := headers[header].next)];
            }
            RemovalKeepsLinks(chains, z, i, old(headers), headers);
            chains := RemoveAt(chains, z, i);
            break;
          }
          assert chain[i..][1..] == chain[i + 1..];
          prevHeader := header;
          header := headers[header].next;
          i := i + 1;
          if header == 0 {
            break;
          }
        }
      }
    }

    /** Gives pages back; the count must be the one they were allocated with. */
    method Free(ptr: nat, count: nat)
      requires Valid()
      requires ptr != 0 && count != 0 ==> CeilLog2(count) <= maxOrder && Unchained(chains, ptr)
      modifies this`headers, this`chains, zones
      ensures Valid()
      ensures chains == if ptr == 0 || count == 0 then old(chains) else BuddyModel.Free(old(chains), ptr, count)
    {
      if ptr == 0 || count == 0 {
        return;
      }
      assert |chains| == maxOrder + 1;
      var order := CeilLog2(count);
      CeilLog2Holds(count);
      hide *;
      var relocated: nat := Pow2(order) - count;
      ghost var _, _, w := FreeCases(chains, ptr, count);
      if relocated == 0 {
        InsertPages(order, ptr, 0);
      } else {
        var last := Reassemble(order, relocated, ptr);
        if last != ptr {
          InsertPages(order, ptr, 0);
        }
      }
    }

    /** Unlinks the pieces that the allocation split off, as far as they are found; returns the last one. */
    method Reassemble(order: nat, pagesRelocated: nat, ptr: nat) returns (last: nat)
      requires Valid() && order <= maxOrder && Unchained(chains, ptr)
      modifies this`headers, this`chains, zones
      ensures Valid() && Unchained(chains, ptr)
      ensures var w := Coalesce(old(chains), order + 1, pagesRelocated, ptr); chains == w.zones && last == w.last
    {
      assert |chains| == maxOrder + 1;
      hide *;
      last := ptr;
      var relocated := pagesRelocated;
      var pages := Pow2(order);
      var z: nat := order + 1;
      ghost var walk := Coalesce(chains, order + 1, relocated, ptr);
      while z > 0
        invariant z <= order + 1 && (z > 0 ==> pages == Pow2(z - 1))
        invariant Valid() && |chains| == maxOrder + 1 && Unchained(chains, ptr)
        invariant var w := Coalesce(chains, z, relocated, last); walk.zones == w.zones && walk.last == w.last
      {
        z := z - 1;
        CoalesceStep(chains, z, relocated, last);
        if relocated >= pages {
          ghost var before := chains;
          var buddy := AbsorbBuddy(z, last);
          if buddy == 0 {
            break;
          }
          ghost var i := FindBuddy(before[z], last);
          RemovalKeepsUnchained(before, z, i, ptr);
          last := buddy;
          relocated := relocated - pages;
        }
        if z > 0 { Pow2Halves(z - 1); }
        pages := pages / 2;
      }
      if z == 0 { CoalesceEnds(chains, relocated, last); }
    }
  }

  lemma RemovalKeepsUnchained(chains: Zones, z: nat, i: nat, addr: nat)
    requires z < |chains| && i < |chains[z]| && Unchained(chains, addr)
    ensures Unchained(RemoveAt(chains, z, i), addr)
  {
    var after: Zones := RemoveAt(chains, z, i);
    forall y: nat, j: nat | y < |after| && j < |after[y]| ensures after[y][j].addr != addr {
      assert after[y][j] == if y == z && j >= i then chains[y][j + 1] else chains[y][j];
    }
  }

  /** The headers after appending `block` to chain `z`. */
  ghost predicate Appends(chains: Zones, z: nat, block: nat, prev: nat, before: map<nat, Header>,
          after: map<nat, Header>)
    requires z < |chains|
  {
    var n := |chains[z]|;
    var tag := Appended(chains[z], block, prev)[n].tag;
    after == (if n == 0 then before
        else before[chains[z][n - 1].addr := Header(block, chains[z][n - 1].tag)])[block := Header(0, tag)]
  }

  lemma AppendKeepsLinks(chains: Zones, z: nat, block: nat, prev: nat, before: map<nat, Header>,
          after: map<nat, Header>)
    requires z < |chains| && Distinct(chains) && block != 0 && Unchained(chains, block)
    requires forall y :: 0 <= y < |chains| ==> Linked(chains[y], before)
    requires Appends(chains, z, block, prev, before, after)
    ensures Distinct(InsertPages(chains, z, block, prev))
    ensures var r := InsertPages(chains, z, block, prev); forall y :: 0 <= y < |r| ==> Linked(r[y], after)
  {
    var r := InsertPages(chains, z, block, prev);
    var n := |chains[z]|;
    forall y, i, y', i' {:trigger IsBlock(r, y, i), IsBlock(r, y', i')} |
      IsBlock(r, y, i) && IsBlock(r, y', i') && r[y][i].addr == r[y'][i'].addr ensures y == y' && i == i'
    {
      assert IsBlock(chains, y, i) || (y == z && i == n);
      assert IsBlock(chains, y', i') || (y' == z && i' == n);
    }
    forall y | 0 <= y < |r| ensures Linked(r[y], after) {
      assert Linked(chains[y], before);
      forall i | 0 <= i < |r[y]|
        ensures r[y][i].addr != 0 && r[y][i].addr in after
                && after[r[y][i].addr] == Header(AddrAt(r[y], i + 1), r[y][i].tag)
      {
        if IsBlock(chains, y, i) {
          assert r[y][i] == chains[y][i];
          assert n > 0 ==> IsBlock(chains, z, n - 1);
        }
      }
    }
  }

  /** The headers after unlinking block `i` of chain `z`: its predecessor, if it has one, links past it. */
  ghost predicate Unlinks(chains: Zones, z: nat, i: nat, before: map<nat, Header>, after: map<nat, Header>)
    requires z < |chains| && i < |chains[z]|
  {
    after == if i == 0 then before
        else before[chains[z][i - 1].addr := Header(AddrAt(chains[z], i + 1), chains[z][i - 1].tag)]
  }

  lemma RemovalKeepsDistinct(chains: Zones, z: nat, i: nat)
    requires z < |chains| && i < |chains[z]| && Distinct(chains)
    ensures Distinct(RemoveAt(chains, z, i))
  {
    var r: Zones := RemoveAt(chains, z, i);
    forall y, j, y', j' {:trigger IsBlock(r, y, j), IsBlock(r, y', j')} |
      IsBlock(r, y, j) && IsBlock(r, y', j') && r[y][j].addr == r[y'][j'].addr ensures y == y' && j == j'
    {
      var k := if y == z && j >= i then j + 1 else j;
      var k' := if y' == z && j' >= i then j' + 1 else j';
      assert IsBlock(chains, y, k) && IsBlock(chains, y', k') && r[y][j] == chains[y][k] && r[y'][j'] == chains[y'][k'];
    }
  }

  lemma RemovalKeepsLinks(chains: Zones, z: nat, i: nat, before: map<nat, Header>, after: map<nat, Header>)
    requires z < |chains| && i < |chains[z]| && Distinct(chains)
    requires forall y :: 0 <= y < |chains| ==> Linked(chains[y], before)
    requires Unlinks(chains, z, i, before, after)
    ensures Distinct(RemoveAt(chains, z, i))
    ensures var r := RemoveAt(chains, z, i); forall y :: 0 <= y < |r| ==> Linked(r[y], after)
  {
    RemovalKeepsDistinct(chains, z, i);
    hide Distinct, Linked, Unlinks;
    var r: Zones := RemoveAt(chains, z, i);
    forall y | 0 <= y < |r| ensures Linked(r[y], after) {
      if y == z {
        RemovalLinksAround(chains, z, i, before, after);
      } else {
        RemovalSparesOthers(chains, z, i, y, before, after);
      }
    }
  }

  lemma RemovalSparesOthers(chains: Zones, z: nat, i: nat, y: nat, before: map<nat, Header>, after: map<nat, Header>)
    requires z < |chains| && i < |chains[z]| && y < |chains| && y != z && Distinct(chains)
    requires Linked(chains[y], before) && Unlinks(chains, z, i, before, after)
    ensures Linked(chains[y], after)
  {
    assert i > 0 ==> IsBlock(chains, z, i - 1);
    forall j | 0 <= j < |chains[y]|
      ensures chains[y][j].addr != 0 && chains[y][j].addr in after
              && after[chains[y][j].addr] == Header(AddrAt(chains[y], j + 1), chains[y][j].tag)
    {
      assert IsBlock(chains, y, j);
    }
  }

  lemma RemovalLinksAround(chains: Zones, z: nat, i: nat, before: map<nat, Header>, after: map<nat, Header>)
    requires z < |chains| && i < |chains[z]| && Distinct(chains)
    requires Linked(chains[z], before) && Unlinks(chains, z, i, before, after)
    ensures Linked(RemoveAt(chains, z, i)[z], after)
  {
    var chain, r := chains[z], RemoveAt(chains, z, i)[z];
    assert i > 0 ==> IsBlock(chains, z, i - 1);
    forall j | 0 <= j < |r|
      ensures r[j].addr != 0 && r[j].addr in after && after[r[j].addr] == Header(AddrAt(r, j + 1), r[j].tag)
    {
      var k := if j >= i then j + 1 else j;
      assert r[j] == chain[k] && IsBlock(chains, z, k);
    }
  }

  // ---------------------------------------------------------------- whole runs

  /** What the states of a run grant the allocator: free blocks do not overlap, and a live block is not chained. */
  lemma SoundMeetsAllocator(s: System, base: nat, pages: nat, i: nat)
    requires Sound(s) && InPool(s, base, pages) && base > 0
    ensures NoOverlap(s.zones)
    ensures i < |s.live| ==> s.live[i].ptr != 0 && Unchained(s.zones, s.live[i].ptr)
  {
    SoundHasNoOverlap(s);
    if i < |s.live| {
      assert s.live[i] in s.live;
      LiveIsNotFree(s, i);
      UncoveredIsUnchained(s.zones, s.live[i].ptr);
    }
  }

  /** One operation on the allocator is one step of the run. */
  method Step(allocator: Allocator, live: seq<Allocation>, op: Op, ghost s: System, ghost base: nat, ghost pages: nat)
    returns (after: seq<Allocation>)
    requires allocator.Valid() && allocator.chains == s.zones && live == s.live
    requires Sound(s) && InPool(s, base, pages) && base > 0 && Allowed(s, op)
    modifies allocator`headers, allocator`chains, allocator.zones
    ensures allocator.Valid() && System(allocator.chains, after) == Next(s, op)
  {
    match op {
      case DoAllocate(count) =>
        SoundMeetsAllocator(s, base, pages, |live|);
        var ptr := allocator.Allocate(count);
        after := if ptr == 0 then live else live + [Allocation(ptr, count)];
      case DoFree(i) =>
        SoundMeetsAllocator(s, base, pages, i);
        assert |allocator.chains| == allocator.maxOrder + 1;
        allocator.Free(live[i].ptr, live[i].count);
        after := Without(live, i);
    }
  }

  /**
   * The allocator on the zone array and the page headers goes through every run of the model, up to and including the
   * first free that makes two blocks share a byte.
   */
  method Drive(allocator: Allocator, ops: seq<Op>, ghost run: seq<System>, ghost base: nat, ghost pages: nat)
    returns (live: seq<Allocation>)
    requires allocator.Valid() && base > 0 && IsFreshRun(run, ops, base, pages) && allocator.chains == run[0].zones
    modifies allocator`headers, allocator`chains, allocator.zones
    ensures allocator.Valid() && System(allocator.chains, live) == run[|ops|]
  {
    live := [];
    for k := 0 to |ops|
      invariant allocator.Valid() && System(allocator.chains, live) == run[k]
    {
      EveryRunStaysInPool(run, ops, base, pages, k);
      live := Step(allocator, live, ops[k], run[k], base, pages);
    }
  }
}
