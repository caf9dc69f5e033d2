/** The page allocator's free lists as values: what each operation does to the chains of free blocks. */
module BuddyModel {
  import opened Arithmetic
  import opened BitArithmetic

  const PAGE := 0x1000

  /** A free block of pages: its address, and the buddy tag kept in its first bytes. */
  datatype Block = Block(addr: nat, tag: nat)

  /** `zones[z]` is the chain of free blocks of `Pow2(z)` pages. */
  type Zones = seq<seq<Block>>

  // ---------------------------------------------------------------- powers and logarithms

  /** Index of the highest set bit. */
  function Log2(n: nat): (l: nat)
    requires n > 0
    ensures Pow2(l) <= n < Pow2(l + 1)
  {
    if n == 1 then 0 else 1 + Log2(n / 2)
  }

  function CeilLog2(n: nat): nat
    requires n > 0
  {
    var d := Log2(n);
    d + (if n % Pow2(d) != 0 then 1 else 0)
  }

  lemma Pow2Monotone(a: nat, b: nat)
    requires a <= b
    ensures Pow2(a) <= Pow2(b)
    decreases b - a
  {
    if a < b { Pow2Monotone(a, b - 1); }
  }

  lemma Pow2Halves(n: nat)
    ensures Pow2(n + 1) / 2 == Pow2(n)
  {
  }

  /** The order chosen for a request is the least one whose blocks can hold it. */
  lemma CeilLog2IsLeast(n: nat)
    requires n > 0
    ensures forall o: nat :: n <= Pow2(o) <==> CeilLog2(n) <= o
  {
    CeilLog2Holds(n);
    forall o: nat ensures n <= Pow2(o) <==> CeilLog2(n) <= o {
      if o < CeilLog2(n) { Pow2Monotone(o, CeilLog2(n) - 1); } else { Pow2Monotone(CeilLog2(n), o); }
    }
  }

  lemma CeilLog2AtMost(n: nat, o: nat)
    requires 0 < n <= Pow2(o)
    ensures CeilLog2(n) <= o
  {
    CeilLog2IsLeast(n);
  }

  lemma CeilLog2Holds(n: nat)
    requires n > 0
    ensures n <= Pow2(CeilLog2(n))
    ensures CeilLog2(n) > 0 ==> Pow2(CeilLog2(n) - 1) < n
  {
    ModBelowTwice(n, Pow2(Log2(n)));
  }

  // ---------------------------------------------------------------- counting the blocks over an address

  function Covers(base: nat, pages: nat, p: nat): nat {
    if base <= p < base + pages * PAGE then 1 else 0
  }

  /** How many blocks of the chain contain byte `p`. */
  function CountChain(chain: seq<Block>, pages: nat, p: nat): nat {
    if chain == [] then 0 else Covers(chain[0].addr, pages, p) + CountChain(chain[1..], pages, p)
  }

  function CountZones(zones: Zones, n: nat, p: nat): nat
    requires n <= |zones|
  {
    if n == 0 then 0 else CountZones(zones, n - 1, p) + CountChain(zones[n - 1], Pow2(n - 1), p)
  }

  /** How many free blocks contain byte `p`. */
  function CountFree(zones: Zones, p: nat): nat { CountZones(zones, |zones|, p) }

  /** No byte is in two free blocks. */
  ghost predicate NoOverlap(zones: Zones) { forall p: nat :: CountFree(zones, p) <= 1 }

  lemma {:induction false} CountChainSplit(a: seq<Block>, b: seq<Block>, pages: nat, p: nat)
    ensures CountChain(a + b, pages, p) == CountChain(a, pages, p) + CountChain(b, pages, p)
  {
    if a == [] {
      assert a + b == b;
    } else {
      assert (a + b)[1..] == a[1..] + b;
      CountChainSplit(a[1..], b, pages, p);
    }
  }

  lemma {:induction false} CountZonesUpdate(zones: Zones, z: nat, chain: seq<Block>, n: nat, p: nat)
    requires z < |zones| && n <= |zones|
    ensures CountZones(zones[z := chain], n, p) ==
            CountZones(zones, n, p)
                + (if z < n then CountChain(chain, Pow2(z), p) - CountChain(zones[z], Pow2(z), p) else 0)
  {
    if n != 0 { CountZonesUpdate(zones, z, chain, n - 1, p); }
  }

  lemma {:induction false} CountZonesAtLeast(zones: Zones, n: nat, z: nat, p: nat)
    requires z < n <= |zones|
    ensures CountChain(zones[z], Pow2(z), p) <= CountZones(zones, n, p)
  {
    if z < n - 1 { CountZonesAtLeast(zones, n - 1, z, p); }
  }

  lemma CountChainAt(chain: seq<Block>, i: nat, pages: nat, p: nat)
    requires i < |chain|
    ensures CountChain(chain, pages, p) ==
            CountChain(chain[..i] + chain[i + 1..], pages, p) + Covers(chain[i].addr, pages, p)
  {
    assert chain == chain[..i] + ([chain[i]] + chain[i + 1..]);
    CountChainSplit(chain[..i], [chain[i]] + chain[i + 1..], pages, p);
    CountChainSplit([chain[i]], chain[i + 1..], pages, p);
    CountChainSplit(chain[..i], chain[i + 1..], pages, p);
  }

  /** Byte `p` lies inside two different blocks, so it is counted twice. */
  lemma CountTwo(zones: Zones, z: nat, i: nat, z': nat, i': nat, p: nat)
    requires z < |zones| && i < |zones[z]| && z' < |zones| && i' < |zones[z']| && (z, i) != (z', i')
    requires Covers(zones[z][i].addr, Pow2(z), p) == 1 && Covers(zones[z'][i'].addr, Pow2(z'), p) == 1
    ensures CountFree(zones, p) >= 2
  {
    var without := zones[z][..i] + zones[z][i + 1..];
    var rest := zones[z := without];
    CountChainAt(zones[z], i, Pow2(z), p);
    CountZonesUpdate(zones, z, without, |zones|, p);
    var j := if z == z' && i' > i then i' - 1 else i';
    assert rest[z'][j] == zones[z'][i'];
    CountChainAt(rest[z'], j, Pow2(z'), p);
    CountZonesAtLeast(rest, |rest|, z', p);
  }

  // ---------------------------------------------------------------- the operations

  /** Appends a block; the tag names `prev` only while the chain holds at most one block. */
  function Appended(chain: seq<Block>, addr: nat, prev: nat): seq<Block> {
    chain + [Block(addr, Xor(addr, if |chain| <= 1 then prev else chain[|chain| - 2].addr))]
  }

  function InsertPages(zones: Zones, z: nat, addr: nat, prev: nat): (r: Zones)
    requires z < |zones|
    ensures |r| == |zones|
  {
    zones[z := Appended(zones[z], addr, prev)]
  }

  lemma InsertCounts(zones: Zones, z: nat, addr: nat, prev: nat, p: nat)
    requires z < |zones|
    ensures CountFree(InsertPages(zones, z, addr, prev), p) == CountFree(zones, p) + Covers(addr, Pow2(z), p)
  {
    var chain := Appended(zones[z], addr, prev);
    CountZonesUpdate(zones, z, chain, |zones|, p);
    CountChainSplit(zones[z], chain[|zones[z]|..], Pow2(z), p);
    assert chain == zones[z] + chain[|zones[z]|..];
    assert CountChain(chain[|zones[z]|..], Pow2(z), p) == Covers(addr, Pow2(z), p);
  }

  /** The first zone at or above `o` with a free block; the number of zones if there is none. */
  function FirstNonEmpty(zones: Zones, o: nat): (r: nat)
    requires o <= |zones|
    ensures o <= r <= |zones|
    ensures forall z :: o <= z < r ==> zones[z] == []
    ensures r < |zones| ==> zones[r] != []
    decreases |zones| - o
  {
    if o == |zones| || zones[o] != [] then o else FirstNonEmpty(zones, o + 1)
  }

  /** Hands `rem` pages starting at `page` to the zones below `z`, largest block first. */
  function Distribute(zones: Zones, z: nat, rem: nat, page: nat, prev: nat): (r: Zones)
    requires z <= |zones|
    ensures |r| == |zones|
    decreases z
  {
    if z == 0 || rem == 0 then zones
    else if Pow2(z - 1) <= rem then
      Distribute(InsertPages(zones, z - 1, page, prev), z - 1, rem - Pow2(z - 1), page + Pow2(z - 1) * PAGE, page)
    else Distribute(zones, z - 1, rem, page, prev)
  }

  /** Every page of the remainder ends up in exactly one new block. */
  lemma {:induction false} DistributeCounts(zones: Zones, z: nat, rem: nat, page: nat, prev: nat, p: nat)
    requires z <= |zones| && rem < Pow2(z)
    ensures CountFree(Distribute(zones, z, rem, page, prev), p) == CountFree(zones, p) + Covers(page, rem, p)
    decreases z
  {
    if z != 0 && rem != 0 {
      var n := Pow2(z - 1);
      if n <= rem {
        InsertCounts(zones, z - 1, page, prev, p);
        DistributeCounts(InsertPages(zones, z - 1, page, prev), z - 1, rem - n, page + n * PAGE, page, p);
      } else {
        DistributeCounts(zones, z - 1, rem, page, prev, p);
      }
    }
  }

  datatype AllocResult = NoPages | Pages(ptr: nat, zones: Zones)

  /** Takes the first block of zone `order` and hands what the request does not need to the zones below. */
  function AllocateFrom(zones: Zones, order: nat, count: nat): AllocResult
    requires order < |zones| && zones[order] != [] && count <= Pow2(order)
  {
    var ptr := zones[order][0].addr;
    Pages(ptr, Distribute(zones[order := zones[order][1..]], order + 1, Pow2(order) - count, ptr + count * PAGE, ptr))
  }

  function Allocate(zones: Zones, count: nat): AllocResult
    requires |zones| > 0
  {
    if count == 0 || count > Pow2(|zones| - 1) then NoPages
    else
      CeilLog2AtMost(count, |zones| - 1);
      var order := FirstNonEmpty(zones, CeilLog2(count));
      if order == |zones| then NoPages
      else
        CeilLog2Holds(count);
        Pow2Monotone(CeilLog2(count), order);
        AllocateFrom(zones, order, count)
  }

  /** A request fails exactly when it is empty, too large, or no block of sufficient order is free. */
  lemma AllocateFailsIff(zones: Zones, count: nat)
    requires |zones| > 0
    ensures Allocate(zones, count).NoPages? <==>
            count == 0 || forall z :: 0 <= z < |zones| && count <= Pow2(z) ==> zones[z] == []
  {
    if 0 < count <= Pow2(|zones| - 1) {
      CeilLog2IsLeast(count);
      var order := FirstNonEmpty(zones, CeilLog2(count));
      if order < |zones| { Pow2Monotone(CeilLog2(count), order); }
    } else if count != 0 {
      forall z | 0 <= z < |zones| ensures Pow2(z) < count { Pow2Monotone(z, |zones| - 1); }
    }
  }

  lemma PopCounts(zones: Zones, z: nat, p: nat)
    requires z < |zones| && zones[z] != []
    ensures CountFree(zones, p) == CountFree(zones[z := zones[z][1..]], p) + Covers(zones[z][0].addr, Pow2(z), p)
  {
    CountZonesUpdate(zones, z, zones[z][1..], |zones|, p);
  }

  /** An allocation takes its pages, and no others, from the free ones. */
  lemma AllocateCounts(zones: Zones, count: nat, p: nat)
    requires |zones| > 0 && Allocate(zones, count).Pages?
    ensures var r := Allocate(zones, count);
            |r.zones| == |zones| && CountFree(zones, p) == CountFree(r.zones, p) + Covers(r.ptr, count, p)
  {
    CeilLog2IsLeast(count);
    var order := FirstNonEmpty(zones, CeilLog2(count));
    Pow2Monotone(CeilLog2(count), order);
    var head := zones[order][0];
    var popped := zones[order := zones[order][1..]];
    PopCounts(zones, order, p);
    hide CountFree, Distribute;
    DistributeCounts(popped, order + 1, Pow2(order) - count, head.addr + count * PAGE, head.addr, p);
  }

  /** The allocation is made from the smallest order that can serve it, and from the front of its chain. */
  lemma AllocateTakesLeastOrder(zones: Zones, count: nat)
    requires |zones| > 0 && Allocate(zones, count).Pages?
    ensures exists order :: 0 <= order < |zones| && count <= Pow2(order) && zones[order] != []
              && Allocate(zones, count).ptr == zones[order][0].addr
              && forall z :: 0 <= z < order && count <= Pow2(z) ==> zones[z] == []
  {
    CeilLog2IsLeast(count);
    var order := FirstNonEmpty(zones, CeilLog2(count));
    Pow2Monotone(CeilLog2(count), order);
  }

  /** Index of the first block whose tag names `last` as its predecessor; the chain's length if there is none. */
  function FindBuddy(chain: seq<Block>, last: nat): (i: nat)
    ensures i <= |chain|
    ensures i < |chain| ==> Xor(chain[i].tag, last) == chain[i].addr
    ensures forall j :: 0 <= j < i ==> Xor(chain[j].tag, last) != chain[j].addr
  {
    if chain == [] || Xor(chain[0].tag, last) == chain[0].addr then 0 else 1 + FindBuddy(chain[1..], last)
  }

  function RemoveAt(zones: Zones, z: nat, i: nat): (r: Zones)
    requires z < |zones| && i < |zones[z]|
    ensures |r| == |zones|
  {
    zones[z := zones[z][..i] + zones[z][i + 1..]]
  }

  /** What the coalescing walk leaves: the zones, the last buddy absorbed, and the pages it could not find. */
  datatype Walk = Walk(zones: Zones, last: nat, missing: nat)

  /**
   * Walks down from zone `z - 1`, absorbing one buddy for each block the allocation split off; stops at the first
   * hole.
   */
  function Coalesce(zones: Zones, z: nat, rem: nat, last: nat): (w: Walk)
    requires z <= |zones|
    ensures |w.zones| == |zones| && w.missing <= rem
    decreases z
  {
    if z == 0 then Walk(zones, last, rem)
    else if rem < Pow2(z - 1) then Coalesce(zones, z - 1, rem, last)
    else
      var i := FindBuddy(zones[z - 1], last);
      if i == |zones[z - 1]| then Walk(zones, last, rem)
      else Coalesce(RemoveAt(zones, z - 1, i), z - 1, rem - Pow2(z - 1), zones[z - 1][i].addr)
  }

  lemma CoalesceStep(zones: Zones, z: nat, rem: nat, last: nat)
    requires z < |zones|
    ensures Coalesce(zones, z + 1, rem, last) ==
            if rem < Pow2(z) then Coalesce(zones, z, rem, last)
            else
              var i := FindBuddy(zones[z], last);
              if i == |zones[z]| then Walk(zones, last, rem)
              else Coalesce(RemoveAt(zones, z, i), z, rem - Pow2(z), zones[z][i].addr)
  {
  }

  lemma CoalesceEnds(zones: Zones, rem: nat, last: nat)
    ensures Coalesce(zones, 0, rem, last) == Walk(zones, last, rem)
  {
  }

  function Free(zones: Zones, ptr: nat, count: nat): (r: Zones)
    requires 0 < count && CeilLog2(count) < |zones|
    ensures |r| == |zones|
  {
    CeilLog2Holds(count);
    var order := CeilLog2(count);
    var relocated := Pow2(order) - count;
    if relocated == 0 then InsertPages(zones, order, ptr, 0)
    else
      var w := Coalesce(zones, order + 1, relocated, ptr);
      if w.last != ptr then InsertPages(w.zones, order, ptr, 0) else w.zones
  }

  lemma RemoveCounts(zones: Zones, z: nat, i: nat, p: nat)
    requires z < |zones| && i < |zones[z]|
    ensures CountFree(zones, p) == CountFree(RemoveAt(zones, z, i), p) + Covers(zones[z][i].addr, Pow2(z), p)
  {
    CountChainAt(zones[z], i, Pow2(z), p);
    CountZonesUpdate(zones, z, zones[z][..i] + zones[z][i + 1..], |zones|, p);
  }

  // ---------------------------------------------------------------- creation

  /** The zones of a fresh pool: one block for each set bit of the page count, laid out from the largest down. */
  function Create(n: nat, pages: nat, base: nat, last: nat): (r: Zones)
    ensures |r| == n
    decreases n
  {
    if n == 0 then []
    else if pages < Pow2(n - 1) then Create(n - 1, pages, base, last) + [[]]
    else Create(n - 1, pages - Pow2(n - 1), base + Pow2(n - 1) * PAGE, base) + [[Block(base, Xor(last, base))]]
  }

  lemma {:induction false} CountZonesPrefix(a: Zones, b: Zones, n: nat, p: nat)
    requires n <= |a| <= |b| && a == b[..|a|]
    ensures CountZones(a, n, p) == CountZones(b, n, p)
  {
    if n != 0 { CountZonesPrefix(a, b, n - 1, p); }
  }

  /** A fresh pool's blocks cover each of its bytes once. */
  lemma {:induction false} CreateCounts(n: nat, pages: nat, base: nat, last: nat, p: nat)
    requires pages < Pow2(n)
    ensures CountFree(Create(n, pages, base, last), p) == Covers(base, pages, p)
    decreases n
  {
    if n != 0 {
      var r := Create(n, pages, base, last);
      CountZonesPrefix(r[..n - 1], r, n - 1, p);
      if pages < Pow2(n - 1) {
        assert r[..n - 1] == Create(n - 1, pages, base, last);
        CreateCounts(n - 1, pages, base, last, p);
      } else {
        var rest := Create(n - 1, pages - Pow2(n - 1), base + Pow2(n - 1) * PAGE, base);
        assert r[..n - 1] == rest;
        CreateCounts(n - 1, pages - Pow2(n - 1), base + Pow2(n - 1) * PAGE, base, p);
        assert CountChain(r[n - 1], Pow2(n - 1), p) == Covers(base, Pow2(n - 1), p);
      }
    }
  }
}
