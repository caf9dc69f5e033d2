/** When freeing an allocation at once puts every zone back as it was, and when it does not. */
module BuddyRoundTrip {
  import opened Arithmetic
  import opened BitArithmetic
  import opened BuddyModel
  import opened BuddyTails

  function Addrs(chain: seq<Block>): (m: multiset<nat>)
  {
    if chain == [] then multiset{} else multiset{chain[0].addr} + Addrs(chain[1..])
  }

  /** The same free blocks in every zone, in whatever order they are chained. */
  ghost predicate SameBlocks(a: Zones, b: Zones) {
    |a| == |b| && forall z :: 0 <= z < |a| ==> Addrs(a[z]) == Addrs(b[z])
  }

  ghost predicate Chained(chain: seq<Block>, addr: nat) { exists i :: 0 <= i < |chain| && chain[i].addr == addr }

  lemma {:induction false} AddrsSplit(a: seq<Block>, b: seq<Block>)
    ensures Addrs(a + b) == Addrs(a) + Addrs(b)
  {
    if a == [] {
      assert a + b == b;
    } else {
      assert (a + b)[1..] == a[1..] + b;
      AddrsSplit(a[1..], b);
    }
  }

  lemma {:induction false} ChainedIsAddrs(chain: seq<Block>, addr: nat)
    ensures Chained(chain, addr) <==> addr in Addrs(chain)
  {
    if chain != [] {
      ChainedIsAddrs(chain[1..], addr);
      if Chained(chain[1..], addr) {
        var i :| 0 <= i < |chain[1..]| && chain[1..][i].addr == addr;
        assert chain[i + 1].addr == addr;
      }
      if Chained(chain, addr) && chain[0].addr != addr {
        var i :| 0 <= i < |chain| && chain[i].addr == addr;
        assert chain[1..][i - 1].addr == addr;
      }
    }
  }

  /** A block appended to this chain with predecessor `prev` is the one a later buddy search for `prev` finds. */
  predicate Receptive(chain: seq<Block>, prev: nat) {
    chain == [] || (|chain| == 1 && Xor(chain[0].tag, prev) != chain[0].addr)
  }

  /** Every zone that receives a piece of the split-off tail is receptive to it. */
  predicate TailZonesReceptive(zones: Zones, z: nat, rem: nat, page: nat, prev: nat)
    requires z <= |zones|
    decreases z
  {
    z == 0 || rem == 0
    || if Pow2(z - 1) <= rem then
         Receptive(zones[z - 1], prev)
         && TailZonesReceptive(zones, z - 1, rem - Pow2(z - 1), page + Pow2(z - 1) * PAGE, page)
       else TailZonesReceptive(zones, z - 1, rem, page, prev)
  }

  // ---------------------------------------------------------------- the walk touches only the zones below it

  lemma {:induction false} DistributeAbove(zones: Zones, z: nat, rem: nat, page: nat, prev: nat)
    requires z <= |zones|
    ensures Distribute(zones, z, rem, page, prev)[z..] == zones[z..]
    decreases z
  {
    if z != 0 && rem != 0 {
      var n := Pow2(z - 1);
      var inserted := InsertPages(zones, z - 1, page, prev);
      if n <= rem { DistributeAbove(inserted, z - 1, rem - n, page + n * PAGE, page); }
      else { DistributeAbove(zones, z - 1, rem, page, prev); }
      var r := Distribute(zones, z, rem, page, prev);
      assert r[z..] == r[z - 1..][1..];
      assert inserted[z - 1..][1..] == inserted[z..] == zones[z..] == zones[z - 1..][1..];
    }
  }

  lemma {:induction false} CoalesceAbove(zones: Zones, z: nat, rem: nat, last: nat)
    requires z <= |zones|
    ensures Coalesce(zones, z, rem, last).zones[z..] == zones[z..]
    decreases z
  {
    if z != 0 {
      var r := Coalesce(zones, z, rem, last).zones;
      var i := FindBuddy(zones[z - 1], last);
      if rem < Pow2(z - 1) {
        CoalesceAbove(zones, z - 1, rem, last);
        assert r[z..] == r[z - 1..][1..] == zones[z - 1..][1..];
      } else if i < |zones[z - 1]| {
        var removed := RemoveAt(zones, z - 1, i);
        CoalesceAbove(removed, z - 1, rem - Pow2(z - 1), zones[z - 1][i].addr);
        assert r[z..] == r[z - 1..][1..] == removed[z - 1..][1..] == removed[z..] == zones[z..];
      }
    }
  }

  lemma {:induction false} DistributeIgnoresAbove(zones: Zones, z: nat, rem: nat, page: nat, prev: nat, y: nat,
          chain: seq<Block>)
    requires z <= y < |zones|
    ensures Distribute(zones[y := chain], z, rem, page, prev) == Distribute(zones, z, rem, page, prev)[y := chain]
    decreases z
  {
    if z != 0 && rem != 0 {
      var n := Pow2(z - 1);
      if n <= rem {
        assert InsertPages(zones[y := chain], z - 1, page, prev) == InsertPages(zones, z - 1, page, prev)[y := chain];
        DistributeIgnoresAbove(InsertPages(zones, z - 1, page, prev), z - 1, rem - n, page + n * PAGE, page, y, chain);
      } else {
        DistributeIgnoresAbove(zones, z - 1, rem, page, prev, y, chain);
      }
    }
  }

  /** The buddy search in a receptive chain that has just had `page` appended stops at `page`. */
  lemma ReceptiveFinds(chain: seq<Block>, page: nat, prev: nat)
    requires Receptive(chain, prev)
    ensures FindBuddy(Appended(chain, page, prev), prev) == |chain|
  {
    XorTagNames(page, prev, prev);
    var grown := Appended(chain, page, prev);
    if chain != [] { assert grown[1..] == [grown[1]]; }
  }

  /** Undoing one step of the distribution: removing the appended block leaves what distributing the rest would give. */
  lemma RemoveUndoesInsert(zones: Zones, z: nat, rem: nat, page: nat, prev: nat)
    requires z < |zones| && Pow2(z) <= rem
    ensures var d := Distribute(zones, z + 1, rem, page, prev);
            d[z] == Appended(zones[z], page, prev)
            && RemoveAt(d, z, |zones[z]|) == Distribute(zones, z, rem - Pow2(z), page + Pow2(z) * PAGE, page)
  {
    var inserted := InsertPages(zones, z, page, prev);
    var n := Pow2(z);
    DistributeAbove(inserted, z, rem - n, page + n * PAGE, page);
    var d := Distribute(zones, z + 1, rem, page, prev);
    assert d[z] == d[z..][0] == inserted[z..][0] == inserted[z];
    assert inserted[z][..|zones[z]|] + inserted[z][|zones[z]| + 1..] == zones[z];
    DistributeIgnoresAbove(inserted, z, rem - n, page + n * PAGE, page, z, zones[z]);
    assert inserted[z := zones[z]] == zones;
  }

  /** With receptive zones the walk takes back every piece of the tail, and nothing else. */
  lemma {:induction false} CoalesceUndoesDistribute(zones: Zones, z: nat, rem: nat, page: nat, prev: nat)
    requires z <= |zones| && rem < Pow2(z)
    requires TailZonesReceptive(zones, z, rem, page, prev)
    ensures var w := Coalesce(Distribute(zones, z, rem, page, prev), z, rem, prev);
            w.zones == zones && w.missing == 0 && if rem == 0 then w.last == prev else w.last >= page
    decreases z
  {
    if z != 0 {
      var n := Pow2(z - 1);
      if n <= rem {
        RemoveUndoesInsert(zones, z - 1, rem, page, prev);
        ReceptiveFinds(zones[z - 1], page, prev);
        CoalesceUndoesDistribute(zones, z - 1, rem - n, page + n * PAGE, page);
      } else {
        CoalesceUndoesDistribute(zones, z - 1, rem, page, prev);
      }
    }
  }

  /** None of the blocks lies in the given stretch of pages. */
  ghost predicate Foreign(zones: Zones, page: nat, pages: nat) {
    forall z, i :: 0 <= z < |zones| && 0 <= i < |zones[z]| ==> Covers(page, pages, zones[z][i].addr) == 0
  }

  /** If some zone is not receptive, the walk leaves a piece of the tail behind in it. */
  lemma {:induction false} CoalesceLeavesAPiece(zones: Zones, z: nat, rem: nat, page: nat, prev: nat, start: nat)
    returns (y: nat, piece: nat)
    requires z <= |zones| && rem < Pow2(z)
    requires !TailZonesReceptive(zones, z, rem, page, prev)
    requires exists pages: nat ::
               Foreign(zones, start, pages) && start <= prev < page && page + rem * PAGE <= start + pages * PAGE
    ensures y < z && !Chained(zones[y], piece)
    ensures Chained(Coalesce(Distribute(zones, z, rem, page, prev), z, rem, prev).zones[y], piece)
    decreases z
  {
    var n := Pow2(z - 1);
    var pages: nat :| Foreign(zones, start, pages) && start <= prev < page && page + rem * PAGE <= start + pages * PAGE;
    if rem < n {
      y, piece := CoalesceLeavesAPiece(zones, z - 1, rem, page, prev, start);
    } else {
      RemoveUndoesInsert(zones, z - 1, rem, page, prev);
      if Receptive(zones[z - 1], prev) {
        ReceptiveFinds(zones[z - 1], page, prev);
        y, piece := CoalesceLeavesAPiece(zones, z - 1, rem - n, page + n * PAGE, page, start);
      } else {
        y, piece := z - 1, page;
        UnreceptiveKeeps(zones, z, rem, page, prev, start, pages);
      }
    }
  }

  lemma UnreceptiveKeeps(zones: Zones, z: nat, rem: nat, page: nat, prev: nat, start: nat, pages: nat)
    requires 0 < z <= |zones| && Pow2(z - 1) <= rem < Pow2(z)
    requires !Receptive(zones[z - 1], prev)
    requires Foreign(zones, start, pages) && start <= prev < page && page + rem * PAGE <= start + pages * PAGE
    ensures !Chained(zones[z - 1], page)
    ensures Chained(Coalesce(Distribute(zones, z, rem, page, prev), z, rem, prev).zones[z - 1], page)
  {
    var chain := zones[z - 1];
    var d := Distribute(zones, z, rem, page, prev);
    RemoveUndoesInsert(zones, z - 1, rem, page, prev);
    forall i | 0 <= i < |chain| ensures chain[i].addr != page && chain[i].addr != prev {
      assert Covers(start, pages, chain[i].addr) == 0;
    }
    var i := FindBuddy(d[z - 1], prev);
    var w := Coalesce(d, z, rem, prev);
    if |chain| >= 2 {
      XorTagNames(page, chain[|chain| - 2].addr, prev);
    } else {
      assert d[z - 1][0] == chain[0];
      assert i == 0;
    }
    assert i != |chain|;
    if i < |d[z - 1]| {
      var removed := RemoveAt(d, z - 1, i);
      CoalesceAbove(removed, z - 1, rem - Pow2(z - 1), d[z - 1][i].addr);
      assert w.zones[z - 1] == w.zones[z - 1..][0] == removed[z - 1..][0] == removed[z - 1];
      assert removed[z - 1][|chain| - 1].addr == page;
    } else {
      assert w.zones[z - 1][|chain|].addr == page;
    }
  }

  // ---------------------------------------------------------------- allocate, then free

  /**
   * What the caller can see before asking for `count` pages: the exact order has a block, and the tail's zones
   * will take the pieces findably.
   */
  predicate WillRejoin(zones: Zones, count: nat)
    requires |zones| > 0 && 0 < count <= Pow2(|zones| - 1)
  {
    CeilLog2IsLeast(count);
    CeilLog2Holds(count);
    var order := CeilLog2(count);
    && zones[order] != []
    && var ptr := zones[order][0].addr;
       TailZonesReceptive(zones, order, Pow2(order) - count, ptr + count * PAGE, ptr)
  }

  /**
   * For any page count, freeing an allocation at once restores every zone's blocks if and only if the pieces will
   * rejoin.
   */
  lemma FreeUndoesAllocateIff(zones: Zones, count: nat)
    requires |zones| > 0 && Allocate(zones, count).Pages?
    requires NoOverlap(zones)
    ensures 0 < count <= Pow2(|zones| - 1) && CeilLog2(count) < |zones|
    ensures var r := Allocate(zones, count);
            |r.zones| == |zones| && (SameBlocks(Free(r.zones, r.ptr, count), zones) <==> WillRejoin(zones, count))
  {
    CeilLog2IsLeast(count);
    CeilLog2Holds(count);
    AllocateCounts(zones, count, 0);
    var c := CeilLog2(count);
    if zones[c] == [] {
      LargerBlockIsNotRestored(zones, count);
    } else if WillRejoin(zones, count) {
      RejoiningRestores(zones, count);
    } else {
      NotRejoiningLeaves(zones, count);
    }
  }

  /**
   * The order that serves the request is the exact one when it has a block: the pop and the spread of the tail,
   * spelled out.
   */
  lemma ExactOrder(zones: Zones, count: nat) returns (popped: Zones, ptr: nat, rem: nat)
    requires |zones| > 0 && 0 < count <= Pow2(|zones| - 1) && CeilLog2(count) < |zones| && zones[CeilLog2(count)] != []
    ensures var c := CeilLog2(count);
            ptr == zones[c][0].addr && popped == zones[c := zones[c][1..]] && rem == Pow2(c) - count
            && Allocate(zones, count) == Pages(ptr, Distribute(popped, c, rem, ptr + count * PAGE, ptr))
            && (rem > 0 ==> Coalesce(Distribute(popped, c, rem, ptr + count * PAGE, ptr), c + 1, rem, ptr)
                            == Coalesce(Distribute(popped, c, rem, ptr + count * PAGE, ptr), c, rem, ptr))
  {
    CeilLog2IsLeast(count);
    CeilLog2Holds(count);
    var c := CeilLog2(count);
    ptr, popped, rem := zones[c][0].addr, zones[c := zones[c][1..]], Pow2(c) - count;
  }

  lemma {:induction false} ReceptiveLower(zones: Zones, other: Zones, z: nat, rem: nat, page: nat, prev: nat)
    requires z <= |zones| == |other| && forall y :: 0 <= y < z ==> zones[y] == other[y]
    ensures TailZonesReceptive(zones, z, rem, page, prev) == TailZonesReceptive(other, z, rem, page, prev)
    decreases z
  {
    if z != 0 && rem != 0 {
      var n := Pow2(z - 1);
      if n <= rem { ReceptiveLower(zones, other, z - 1, rem - n, page + n * PAGE, page); }
      else { ReceptiveLower(zones, other, z - 1, rem, page, prev); }
    }
  }

  /** Moving the front block of a zone to its end keeps every zone's blocks. */
  lemma RotatedSameBlocks(zones: Zones, c: nat)
    requires c < |zones| && zones[c] != []
    ensures SameBlocks(InsertPages(zones[c := zones[c][1..]], c, zones[c][0].addr, 0), zones)
  {
    var rest := zones[c][1..];
    var rotated := Appended(rest, zones[c][0].addr, 0);
    AddrsSplit(rest, rotated[|rest|..]);
    assert rotated == rest + rotated[|rest|..];
    assert Addrs(rotated[|rest|..]) == multiset{zones[c][0].addr};
  }

  /**
   * With pieces that rejoin, a free leaves the block that was taken at the end of its zone, and every other as it was.
   */
  lemma RejoiningRotates(zones: Zones, count: nat)
    requires |zones| > 0 && 0 < count <= Pow2(|zones| - 1) && CeilLog2(count) < |zones| && WillRejoin(zones, count)
    ensures var r := Allocate(zones, count); var c := CeilLog2(count);
            r.Pages? && |r.zones| == |zones|
            && Free(r.zones, r.ptr, count) == InsertPages(zones[c := zones[c][1..]], c, zones[c][0].addr, 0)
  {
    var c := CeilLog2(count);
    CeilLog2Holds(count);
    var popped, ptr, rem := ExactOrder(zones, count);
    ReceptiveLower(zones, popped, c, rem, ptr + count * PAGE, ptr);
    CoalesceUndoesDistribute(popped, c, rem, ptr + count * PAGE, ptr);
    if rem == 0 { assert Distribute(popped, c, rem, ptr + count * PAGE, ptr) == popped; }
    hide Distribute, Coalesce, Pow2, CeilLog2, TailZonesReceptive, Allocate;
  }

  lemma RejoiningRestores(zones: Zones, count: nat)
    requires |zones| > 0 && 0 < count <= Pow2(|zones| - 1) && CeilLog2(count) < |zones| && WillRejoin(zones, count)
    ensures var r := Allocate(zones, count);
            r.Pages? && |r.zones| == |zones| && SameBlocks(Free(r.zones, r.ptr, count), zones)
  {
    RejoiningRotates(zones, count);
    RotatedSameBlocks(zones, CeilLog2(count));
  }

  lemma PoppedIsForeign(zones: Zones, c: nat)
    requires c < |zones| && zones[c] != [] && NoOverlap(zones)
    ensures Foreign(zones[c := zones[c][1..]], zones[c][0].addr, Pow2(c))
  {
    var popped: Zones := zones[c := zones[c][1..]];
    forall z: nat, i: nat | z < |popped| && i < |popped[z]|
      ensures Covers(zones[c][0].addr, Pow2(c), popped[z][i].addr) == 0
    {
      var j := if z == c then i + 1 else i;
      var p := zones[z][j].addr;
      if Covers(zones[c][0].addr, Pow2(c), p) == 1 {
        assert CountFree(zones, p) <= 1;
        CountTwo(zones, c, 0, z, j, p);
        assert false;
      }
    }
  }

  lemma NotRejoiningLeaves(zones: Zones, count: nat)
    requires |zones| > 0 && 0 < count <= Pow2(|zones| - 1) && CeilLog2(count) < |zones|
    requires zones[CeilLog2(count)] != [] && !WillRejoin(zones, count)
    requires NoOverlap(zones)
    ensures var r := Allocate(zones, count);
            r.Pages? && |r.zones| == |zones| && !SameBlocks(Free(r.zones, r.ptr, count), zones)
  {
    var c := CeilLog2(count);
    CeilLog2Holds(count);
    var popped, ptr, rem := ExactOrder(zones, count);
    ReceptiveLower(zones, popped, c, rem, ptr + count * PAGE, ptr);
    var y, piece := APieceStays(zones, count, popped, ptr, rem);
    FreeElsewhere(Allocate(zones, count).zones, ptr, count, y);
    SomeAddressDiffers(Free(Allocate(zones, count).zones, ptr, count), zones, y, piece);
  }

  lemma APieceStays(zones: Zones, count: nat, popped: Zones, ptr: nat, rem: nat) returns (y: nat, piece: nat)
    requires 0 < count && CeilLog2(count) < |zones| && zones[CeilLog2(count)] != []
             && count + rem == Pow2(CeilLog2(count))
    requires ptr == zones[CeilLog2(count)][0].addr && popped == zones[CeilLog2(count) := zones[CeilLog2(count)][1..]]
    requires !TailZonesReceptive(popped, CeilLog2(count), rem, ptr + count * PAGE, ptr)
    requires NoOverlap(zones)
    ensures y < CeilLog2(count) && !Chained(zones[y], piece)
    ensures Chained(Coalesce(Distribute(popped, CeilLog2(count), rem, ptr + count * PAGE, ptr), CeilLog2(count), rem,
            ptr).zones[y], piece)
  {
    var c := CeilLog2(count);
    PoppedIsForeign(zones, c);
    assert ptr + count * PAGE + rem * PAGE <= ptr + Pow2(c) * PAGE;
    y, piece := CoalesceLeavesAPiece(popped, c, rem, ptr + count * PAGE, ptr, ptr);
  }

  lemma SomeAddressDiffers(a: Zones, b: Zones, y: nat, addr: nat)
    requires y < |a| == |b| && Chained(a[y], addr) && !Chained(b[y], addr)
    ensures !SameBlocks(a, b)
  {
    ChainedIsAddrs(a[y], addr);
    ChainedIsAddrs(b[y], addr);
  }

  lemma LargerBlockIsNotRestored(zones: Zones, count: nat)
    requires |zones| > 0 && 0 < count <= Pow2(|zones| - 1) && CeilLog2(count) < |zones|
    requires zones[CeilLog2(count)] == [] && Allocate(zones, count).Pages?
    ensures var r := Allocate(zones, count);
            |r.zones| == |zones| && !SameBlocks(Free(r.zones, r.ptr, count), zones)
  {
    var c := CeilLog2(count);
    var z := LargerBlockSpreads(zones, count);
    var r := Allocate(zones, count);
    CeilLog2Holds(count);
    FreeKeepsNonEmpty(r.zones, r.ptr, count, z);
    assert Addrs(Free(r.zones, r.ptr, count)[z]) != multiset{};
  }

  lemma FreeKeepsNonEmpty(zones: Zones, ptr: nat, count: nat, z: nat)
    requires 0 < count && CeilLog2(count) <= z < |zones| && zones[z] != []
    ensures Free(zones, ptr, count)[z] != []
  {
    var c, rem, w := FreeCases(zones, ptr, count);
    if rem != 0 {
      assert w == Coalesce(zones, c, rem, ptr);
      CoalesceAbove(zones, c, rem, ptr);
      assert w.zones[z] == w.zones[c..][z - c] == zones[c..][z - c] == zones[z];
    }
  }

  /** The zone under the one that served the request was empty, and gets a piece. */
  lemma LargerBlockSpreads(zones: Zones, count: nat) returns (z: nat)
    requires |zones| > 0 && 0 < count <= Pow2(|zones| - 1) && CeilLog2(count) < |zones|
    requires zones[CeilLog2(count)] == [] && Allocate(zones, count).Pages?
    ensures CeilLog2(count) <= z < |zones| && zones[z] == []
    ensures |Allocate(zones, count).zones| == |zones| && Allocate(zones, count).zones[z] != []
  {
    CeilLog2IsLeast(count);
    CeilLog2Holds(count);
    var c := CeilLog2(count);
    var order := FirstNonEmpty(zones, c);
    z := order - 1;
    var ptr := zones[order][0].addr;
    var popped := zones[order := zones[order][1..]];
    Pow2Monotone(c, z);
    RemoveUndoesInsert(popped, z, Pow2(order) - count, ptr + count * PAGE, ptr);
    assert Allocate(zones, count).zones == Distribute(popped, order, Pow2(order) - count, ptr + count * PAGE, ptr);
  }

  // ---------------------------------------------------------------- what goes wrong otherwise

  lemma {:induction false} TaggedOtherwise(zones: Zones, z: nat, rem: nat, page: nat, prev: nat, last: nat)
    requires z <= |zones| && rem < Pow2(z) && prev != last
    requires forall y :: 0 <= y < z ==> zones[y] == []
    ensures var d := Distribute(zones, z, rem, page, prev); Coalesce(d, z, rem, last) == Walk(d, last, rem)
    decreases z
  {
    if z != 0 {
      if rem < Pow2(z - 1) {
        TaggedOtherwise(zones, z - 1, rem, page, prev, last);
        assert rem == 0 ==> Distribute(zones, z, rem, page, prev) == zones;
      } else {
        RemoveUndoesInsert(zones, z - 1, rem, page, prev);
        XorTagNames(page, prev, last);
        var d := Distribute(zones, z, rem, page, prev);
        assert d[z - 1][1..] == [];
        assert FindBuddy(d[z - 1], last) == 1;
      }
    }
  }

  lemma {:induction false} SpreadFromAbove(zones: Zones, z: nat, c: nat, count: nat, page: nat, prev: nat, last: nat)
    requires c <= z <= |zones| && 0 < count <= Pow2(c) && page > last && (z == c ==> prev != last)
    requires forall y :: 0 <= y < c ==> zones[y] == []
    ensures Pow2(c) <= Pow2(z)
    ensures var d := Distribute(zones, z, Pow2(z) - count, page, prev);
            Coalesce(d, c, Pow2(c) - count, last) == Walk(d, last, Pow2(c) - count)
    decreases z
  {
    if z == c {
      TaggedOtherwise(zones, c, Pow2(c) - count, page, prev, last);
    } else {
      Pow2Monotone(c, z - 1);
      var n := Pow2(z - 1);
      SpreadFromAbove(InsertPages(zones, z - 1, page, prev), z - 1, c, count, page + n * PAGE, page, last);
    }
  }

  /**
   * If the block came from above the exact order and the lower zones were empty, as they are in a fresh pool of a power
   * of two of pages, freeing a count that is not a power of two changes nothing at all: its pages are in no chain
   * afterwards.
   */
  lemma LargerBlockLosesPages(zones: Zones, count: nat)
    requires |zones| > 0 && Allocate(zones, count).Pages? && CeilLog2(count) < |zones|
    requires Pow2(CeilLog2(count)) != count && forall z :: 0 <= z <= CeilLog2(count) ==> zones[z] == []
    requires NoOverlap(zones)
    ensures var r := Allocate(zones, count);
            && |r.zones| == |zones| && Free(r.zones, r.ptr, count) == r.zones
            && CountFree(zones, r.ptr) == 1 && CountFree(Free(r.zones, r.ptr, count), r.ptr) == 0
  {
    var c := CeilLog2(count);
    CeilLog2IsLeast(count);
    CeilLog2Holds(count);
    var order := FirstNonEmpty(zones, c);
    var ptr := zones[order][0].addr;
    Pow2Monotone(c, order);
    AllocateCounts(zones, count, ptr);
    assert CountFree(zones, ptr) <= 1;
    SpreadFromAbove(zones[order := zones[order][1..]], order, c, count, ptr + count * PAGE, ptr, ptr);
    var r := Allocate(zones, count);
    assert Coalesce(r.zones, c + 1, Pow2(c) - count, ptr) == Coalesce(r.zones, c, Pow2(c) - count, ptr);
  }

  // ---------------------------------------------------------------- a fresh pool of a power of two of pages

  lemma {:induction false} CreateNone(n: nat, base: nat, last: nat)
    ensures forall z :: 0 <= z < n ==> Create(n, 0, base, last)[z] == []
  {
    if n != 0 { CreateNone(n - 1, base, last); }
  }

  lemma {:induction false} LogOfPow2(k: nat)
    ensures Log2(Pow2(k)) == k && Pow2(k) > k
  {
    if k != 0 {
      LogOfPow2(k - 1);
      assert Pow2(k) / 2 == Pow2(k - 1);
    }
  }

  /** Such a pool is a single block. */
  lemma FreshIsOneBlock(k: nat, base: nat) returns (zones: Zones)
    ensures zones == Create(Log2(Pow2(k)) + 1, Pow2(k), base, 0) && |zones| == k + 1
    ensures zones[k] == [Block(base, Xor(0, base))] && forall z :: 0 <= z < k ==> zones[z] == []
    ensures forall p: nat :: CountFree(zones, p) == Covers(base, Pow2(k), p)
  {
    LogOfPow2(k);
    zones := Create(k + 1, Pow2(k), base, 0);
    var lower := Create(k, 0, base + Pow2(k) * PAGE, base);
    CreateNone(k, base + Pow2(k) * PAGE, base);
    assert zones == lower + [[Block(base, Xor(0, base))]];
    assert forall z :: 0 <= z < k ==> zones[z] == lower[z];
    forall p: nat { CreateCounts(k + 1, Pow2(k), base, 0, p); }
  }

  lemma {:induction false} EmptyZonesAreReceptive(zones: Zones, z: nat, rem: nat, page: nat, prev: nat)
    requires z <= |zones| && forall y :: 0 <= y < z ==> zones[y] == []
    ensures TailZonesReceptive(zones, z, rem, page, prev)
    decreases z
  {
    if z != 0 && rem != 0 {
      var n := Pow2(z - 1);
      if n <= rem { EmptyZonesAreReceptive(zones, z - 1, rem - n, page + n * PAGE, page); }
      else { EmptyZonesAreReceptive(zones, z - 1, rem, page, prev); }
    }
  }

  /**
   * On a fresh pool of a power of two of pages, freeing an allocation at once takes pages from the pool for good
   * exactly if their number is not a power of two and at most half of the pool; then all of them are gone.
   */
  lemma FreshPoolLosesIff(k: nat, base: nat, count: nat)
    requires 0 < count <= Pow2(k)
    ensures var zones := Create(Log2(Pow2(k)) + 1, Pow2(k), base, 0); var r := Allocate(zones, count);
            && r.Pages? && |r.zones| == |zones| && CeilLog2(count) < |zones|
            && ((exists p: nat :: CountFree(Free(r.zones, r.ptr, count), p) < CountFree(zones, p))
                <==> count != Pow2(CeilLog2(count)) && 2 * count <= Pow2(k))
            && (count != Pow2(CeilLog2(count)) && 2 * count <= Pow2(k) ==> Free(r.zones, r.ptr, count) == r.zones)
  {
    hide Xor, CountZones, CountChain, Create, Log2, Distribute, Coalesce;
    var zones := FreshIsOneBlock(k, base);
    CeilLog2AtMost(count, k);
    CeilLog2Holds(count);
    var c := CeilLog2(count);
    AllocateFailsIff(zones, count);
    AllocateCounts(zones, count, 0);
    var r := Allocate(zones, count);
    if count == Pow2(c) {
      forall p: nat ensures CountFree(Free(r.zones, r.ptr, count), p) == CountFree(zones, p) {
        AllocateCounts(zones, count, p);
        InsertCounts(r.zones, c, r.ptr, 0, p);
      }
    } else if c == k {
      HalfIsBelow(count, k);
      ExactFreshRestores(zones, k, base, count);
    } else {
      Pow2Monotone(c, k - 1);
      assert NoOverlap(zones);
      LargerBlockLosesPages(zones, count);
    }
  }

  lemma HalfIsBelow(count: nat, k: nat)
    requires 0 < count != Pow2(k) && CeilLog2(count) == k
    ensures 2 * count > Pow2(k)
  {
    CeilLog2Holds(count);
  }

  lemma ExactFreshRestores(zones: Zones, k: nat, base: nat, count: nat)
    requires |zones| == k + 1 && zones[k] == [Block(base, Xor(0, base))] && forall z :: 0 <= z < k ==> zones[z] == []
    requires 0 < count <= Pow2(k) && CeilLog2(count) == k
    ensures var r := Allocate(zones, count);
            r.Pages? && |r.zones| == |zones|
            && forall p: nat :: CountFree(Free(r.zones, r.ptr, count), p) == CountFree(zones, p)
  {
    EmptyZonesAreReceptive(zones, k, Pow2(k) - count, base + count * PAGE, base);
    RejoiningRotates(zones, count);
    var r := Allocate(zones, count);
    forall p: nat ensures CountFree(Free(r.zones, r.ptr, count), p) == CountFree(zones, p) {
      PopCounts(zones, k, p);
      InsertCounts(zones[k := zones[k][1..]], k, zones[k][0].addr, 0, p);
    }
  }
}
