/** Safety of the page allocator over whole runs: what every run keeps, and exactly which frees break the rest. */
module BuddyRuns {
  import opened Arithmetic
  import opened BitArithmetic
  import opened BuddyModel
  import opened BuddyTails

  datatype Allocation = Allocation(ptr: nat, count: nat)

  datatype System = System(zones: Zones, live: seq<Allocation>)

  function CountLive(live: seq<Allocation>, p: nat): nat {
    if live == [] then 0 else Covers(live[0].ptr, live[0].count, p) + CountLive(live[1..], p)
  }

  /** Every byte of the pool is in exactly one free block or live allocation, and no other byte is in any. */
  ghost predicate Partition(s: System, base: nat, pages: nat) {
    && |s.zones| > 0
    && (forall a :: a in s.live ==> 0 < a.count <= Pow2(|s.zones| - 1))
    && forall p: nat :: CountFree(s.zones, p) + CountLive(s.live, p) == Covers(base, pages, p)
  }

  lemma {:induction false} CountLiveSplit(a: seq<Allocation>, b: seq<Allocation>, p: nat)
    ensures CountLive(a + b, p) == CountLive(a, p) + CountLive(b, p)
  {
    if a == [] {
      assert a + b == b;
    } else {
      assert (a + b)[1..] == a[1..] + b;
      CountLiveSplit(a[1..], b, p);
    }
  }

  function Without(live: seq<Allocation>, i: nat): seq<Allocation>
    requires i < |live|
  {
    live[..i] + live[i + 1..]
  }

  lemma CountLiveAt(live: seq<Allocation>, i: nat, p: nat)
    requires i < |live|
    ensures CountLive(live, p) == CountLive(Without(live, i), p) + Covers(live[i].ptr, live[i].count, p)
  {
    assert live == live[..i] + ([live[i]] + live[i + 1..]);
    CountLiveSplit(live[..i], [live[i]] + live[i + 1..], p);
    CountLiveSplit([live[i]], live[i + 1..], p);
    CountLiveSplit(live[..i], live[i + 1..], p);
  }

  /**
   * What a caller can check before a free: it finds a buddy at every order it needs one of, each in the part of the
   * block that the allocation did not hand out.
   */
  predicate TailIsFound(zones: Zones, ptr: nat, count: nat)
    requires 0 < count && CeilLog2(count) < |zones|
  {
    CeilLog2Holds(count);
    var order := CeilLog2(count);
    var relocated := Pow2(order) - count;
    relocated == 0
    || (FindsAll(zones, order + 1, relocated, ptr)
        && FoundInside(zones, order + 1, relocated, ptr, ptr + count * PAGE, ptr + Pow2(order) * PAGE))
  }

  /** A free that finds its tail absorbs it, and nothing else. */
  lemma FoundTailIsAbsorbed(zones: Zones, ptr: nat, count: nat, p: nat)
    requires 0 < count && CeilLog2(count) < |zones| && count < Pow2(CeilLog2(count))
    requires TailIsFound(zones, ptr, count) && NoOverlap(zones)
    ensures var order := CeilLog2(count); var relocated := Pow2(order) - count;
            CountAbsorbed(zones, order + 1, relocated, ptr, p) == Covers(ptr + count * PAGE, relocated, p)
  {
    var order, tail := CeilLog2(count), ptr + count * PAGE;
    var relocated, hi := Pow2(order) - count, ptr + Pow2(order) * PAGE;
    AbsorbsAllIff(zones, order + 1, relocated, ptr, tail);
    if !(tail <= p < hi) { AbsorbedOutside(zones, order + 1, relocated, ptr, tail, hi, p); }
  }

  /** One that does not find it leaves a byte of the tail where it is. */
  lemma MissedByte(zones: Zones, ptr: nat, count: nat) returns (p: nat)
    requires 0 < count && CeilLog2(count) < |zones| && NoOverlap(zones)
    requires !TailIsFound(zones, ptr, count)
    ensures var order := CeilLog2(count);
            && count < Pow2(order)
            && Covers(ptr + count * PAGE, Pow2(order) - count, p) == 1
            && CountAbsorbed(zones, order + 1, Pow2(order) - count, ptr, p) == 0
  {
    CeilLog2Holds(count);
    var order := CeilLog2(count);
    var relocated, tail := Pow2(order) - count, ptr + count * PAGE;
    AbsorbsAllIff(zones, order + 1, relocated, ptr, tail);
    p :| tail <= p < tail + relocated * PAGE && CountAbsorbed(zones, order + 1, relocated, ptr, p) != 1;
    AbsorbedIsFree(zones, order + 1, relocated, ptr, p);
    assert CountFree(zones, p) <= 1;
  }

  lemma FreeCounts(zones: Zones, ptr: nat, count: nat, p: nat)
    requires 0 < count && CeilLog2(count) < |zones|
    ensures count <= Pow2(CeilLog2(count))
    ensures var order := CeilLog2(count);
            var relocated := Pow2(order) - count;
            var w := Coalesce(zones, order + 1, relocated, ptr);
            CountFree(Free(zones, ptr, count), p) == CountFree(zones, p)
            + if relocated == 0 then Covers(ptr, count, p)
              else (if w.last != ptr then Covers(ptr, Pow2(order), p) else 0)
                   - CountAbsorbed(zones, order + 1, relocated, ptr, p)
  {
    hide *;
    var order, relocated, w := FreeCases(zones, ptr, count);
    CoalesceCounts(zones, order + 1, relocated, ptr, p);
    InsertCounts(zones, order, ptr, 0, p);
    InsertCounts(w.zones, order, ptr, 0, p);
  }

  /** What a free changes at byte `p`, once `a` is no longer live. */
  lemma FreeDelta(s: System, i: nat, p: nat) returns (after: System, relocated: nat, w: Walk)
    requires i < |s.live| && 0 < s.live[i].count && CeilLog2(s.live[i].count) < |s.zones|
    ensures var a := s.live[i]; var order := CeilLog2(a.count);
      && after == System(Free(s.zones, a.ptr, a.count), Without(s.live, i))
      && relocated == Pow2(order) - a.count && w == Coalesce(s.zones, order + 1, relocated, a.ptr)
      && CountFree(after.zones, p) + CountLive(after.live, p) == CountFree(s.zones, p) + CountLive(s.live, p)
         + if relocated == 0 then 0
           else (if w.last != a.ptr then Covers(a.ptr, Pow2(order), p) else 0) - Covers(a.ptr, a.count, p)
                - CountAbsorbed(s.zones, order + 1, relocated, a.ptr, p)
  {
    var a := s.live[i];
    FreeCounts(s.zones, a.ptr, a.count, p);
    CountLiveAt(s.live, i, p);
    after := System(Free(s.zones, a.ptr, a.count), Without(s.live, i));
    relocated := Pow2(CeilLog2(a.count)) - a.count;
    w := Coalesce(s.zones, CeilLog2(a.count) + 1, relocated, a.ptr);
  }

  /** No byte is in two free blocks or live allocations. */
  ghost predicate Sound(s: System) { forall p: nat :: CountFree(s.zones, p) + CountLive(s.live, p) <= 1 }

  lemma PartitionIsSound(s: System, base: nat, pages: nat)
    requires Partition(s, base, pages)
    ensures Sound(s)
  {
    forall p: nat ensures CountFree(s.zones, p) + CountLive(s.live, p) <= 1 {
      assert CountFree(s.zones, p) + CountLive(s.live, p) == Covers(base, pages, p);
    }
  }

  lemma SoundHasNoOverlap(s: System)
    requires Sound(s)
    ensures NoOverlap(s.zones)
  {
    forall p: nat ensures CountFree(s.zones, p) <= 1 {
      assert CountFree(s.zones, p) + CountLive(s.live, p) <= 1;
    }
  }

  lemma PartitionHasNoOverlap(s: System, base: nat, pages: nat)
    requires Partition(s, base, pages)
    ensures NoOverlap(s.zones)
  {
    forall p: nat ensures CountFree(s.zones, p) <= 1 {
      assert CountFree(s.zones, p) + CountLive(s.live, p) == Covers(base, pages, p);
    }
  }

  /** Freeing a live allocation keeps the partition if and only if the free finds the tail that was split off. */
  lemma FreeKeepsPartitionIff(s: System, i: nat, base: nat, pages: nat)
    requires Partition(s, base, pages) && i < |s.live|
    ensures s.live[i].count > 0 && CeilLog2(s.live[i].count) < |s.zones|
    ensures var a := s.live[i];
            Partition(System(Free(s.zones, a.ptr, a.count), Without(s.live, i)), base, pages)
            <==> TailIsFound(s.zones, a.ptr, a.count)
  {
    var a := s.live[i];
    assert a in s.live;
    CeilLog2IsLeast(a.count);
    if TailIsFound(s.zones, a.ptr, a.count) {
      FoundKeepsPartition(s, i, base, pages);
    } else if Partition(System(Free(s.zones, a.ptr, a.count), Without(s.live, i)), base, pages) {
      MissedBreaksPartition(s, i, base, pages);
      assert false;
    }
  }

  lemma FoundKeepsPartition(s: System, i: nat, base: nat, pages: nat)
    requires Partition(s, base, pages) && i < |s.live|
    requires 0 < s.live[i].count && CeilLog2(s.live[i].count) < |s.zones|
    requires TailIsFound(s.zones, s.live[i].ptr, s.live[i].count)
    ensures Partition(System(Free(s.zones, s.live[i].ptr, s.live[i].count), Without(s.live, i)), base, pages)
  {
    hide CountAbsorbed, CountFree, CountLive, Free, CeilLog2, Pow2, Coalesce, TailIsFound;
    var a := s.live[i];
    var top, first := CeilLog2(a.count) + 1, a.ptr + a.count * PAGE;
    PartitionHasNoOverlap(s, base, pages);
    var after := System(Free(s.zones, a.ptr, a.count), Without(s.live, i));
    forall p: nat ensures CountFree(after.zones, p) + CountLive(after.live, p) == Covers(base, pages, p) {
      var _, relocated, w := FreeDelta(s, i, p);
      if relocated != 0 {
        FoundTailIsAbsorbed(s.zones, a.ptr, a.count, p);
        FoundTailIsAbsorbed(s.zones, a.ptr, a.count, a.ptr);
        FoundTailIsAbsorbed(s.zones, a.ptr, a.count, first);
        if w.last == a.ptr { LastIsAbsorbed(s.zones, top, relocated, a.ptr, first); }
      }
    }
  }

  lemma MissedBreaksPartition(s: System, i: nat, base: nat, pages: nat)
    requires Partition(s, base, pages) && i < |s.live|
    requires 0 < s.live[i].count && CeilLog2(s.live[i].count) < |s.zones|
    requires !TailIsFound(s.zones, s.live[i].ptr, s.live[i].count)
    ensures !Partition(System(Free(s.zones, s.live[i].ptr, s.live[i].count), Without(s.live, i)), base, pages)
  {
    hide CountAbsorbed, CountFree, CountLive, Free, CeilLog2, Pow2, Coalesce, TailIsFound;
    var a := s.live[i];
    PartitionHasNoOverlap(s, base, pages);
    var p := MissedByte(s.zones, a.ptr, a.count);
    var after, relocated, w := FreeDelta(s, i, p);
    var _, _, _ := FreeDelta(s, i, a.ptr);
    if Partition(after, base, pages) {
      assert false;
    }
  }

  lemma AllocateKeepsPartition(s: System, count: nat, base: nat, pages: nat)
    requires Partition(s, base, pages) && Allocate(s.zones, count).Pages?
    ensures var r := Allocate(s.zones, count);
            Partition(System(r.zones, s.live + [Allocation(r.ptr, count)]), base, pages)
  {
    var r := Allocate(s.zones, count);
    var a := Allocation(r.ptr, count);
    forall p: nat ensures CountFree(r.zones, p) + CountLive(s.live + [a], p) == Covers(base, pages, p) {
      AllocateCounts(s.zones, count, p);
      CountLiveSplit(s.live, [a], p);
    }
    assert |r.zones| == |s.zones| by { AllocateCounts(s.zones, count, 0); }
  }

  // ---------------------------------------------------------------- how a free breaks the partition

  ghost predicate Loses(s: System, base: nat, pages: nat) {
    exists p: nat :: Covers(base, pages, p) == 1 && CountFree(s.zones, p) + CountLive(s.live, p) == 0
  }

  ghost predicate BlockInPool(ptr: nat, count: nat, base: nat, pages: nat)
    requires count > 0
  {
    base <= ptr && ptr + Pow2(CeilLog2(count)) * PAGE <= base + pages * PAGE
  }

  lemma LiveIsNotFree(s: System, i: nat)
    requires Sound(s) && i < |s.live| && 0 < s.live[i].count
    ensures CountFree(s.zones, s.live[i].ptr) == 0
  {
    CountLiveAt(s.live, i, s.live[i].ptr);
    assert CountFree(s.zones, s.live[i].ptr) + CountLive(s.live, s.live[i].ptr) <= 1;
  }

  lemma LiveInPartition(s: System, i: nat, base: nat, pages: nat)
    requires Partition(s, base, pages) && i < |s.live|
    ensures Sound(s) && 0 < s.live[i].count && CeilLog2(s.live[i].count) < |s.zones|
    ensures Covers(base, pages, s.live[i].ptr) == 1
  {
    var a := s.live[i];
    assert a in s.live;
    CeilLog2IsLeast(a.count);
    PartitionIsSound(s, base, pages);
    CountLiveAt(s.live, i, a.ptr);
    assert CountFree(s.zones, a.ptr) + CountLive(s.live, a.ptr) == Covers(base, pages, a.ptr);
  }

  /** What the free of an allocation with a tail changes at every byte. */
  lemma AfterFree(s: System, i: nat, p: nat)
    requires Sound(s) && i < |s.live| && 0 < s.live[i].count && CeilLog2(s.live[i].count) < |s.zones|
    requires s.live[i].count < Pow2(CeilLog2(s.live[i].count))
    ensures var a := s.live[i]; var order := CeilLog2(a.count); var relocated := Pow2(order) - a.count;
            CountFree(Free(s.zones, a.ptr, a.count), p) + CountLive(Without(s.live, i), p)
            == CountFree(s.zones, p) + CountLive(s.live, p)
            + if FindsSome(s.zones, order + 1, relocated, a.ptr)
              then Covers(a.ptr + a.count * PAGE, relocated, p) - CountAbsorbed(s.zones, order + 1, relocated, a.ptr, p)
              else 0 - Covers(a.ptr, a.count, p)
  {
    hide CountAbsorbed, CountFree, CountLive, Free, CeilLog2, Pow2, FindsSome, Coalesce;
    var after, relocated, w := FreeDelta(s, i, p);
    LiveIsNotFree(s, i);
    var a := s.live[i];
    FindsSomeIff(s.zones, CeilLog2(a.count) + 1, relocated, a.ptr);
  }

  /** A free makes two blocks share a byte exactly if it finds some buddy but not, inside its block, all of them. */
  lemma FreeOverlapsIff(s: System, i: nat, base: nat, pages: nat)
    requires Partition(s, base, pages) && i < |s.live|
    requires s.live[i].count > 0 ==> BlockInPool(s.live[i].ptr, s.live[i].count, base, pages)
    ensures s.live[i].count > 0 && CeilLog2(s.live[i].count) < |s.zones|
    ensures var a := s.live[i]; var order := CeilLog2(a.count);
            !Sound(System(Free(s.zones, a.ptr, a.count), Without(s.live, i)))
            <==> !TailIsFound(s.zones, a.ptr, a.count) && FindsSome(s.zones, order + 1, Pow2(order) - a.count, a.ptr)
  {
    hide CountAbsorbed, CountFree, CountLive, Free, CeilLog2, Pow2, FindsSome;
    LiveInPartition(s, i, base, pages);
    FreeKeepsPartitionIff(s, i, base, pages);
    var a := s.live[i];
    CeilLog2Holds(a.count);
    var order := CeilLog2(a.count);
    var relocated, tail := Pow2(order) - a.count, a.ptr + a.count * PAGE;
    var after := System(Free(s.zones, a.ptr, a.count), Without(s.live, i));
    if TailIsFound(s.zones, a.ptr, a.count) {
      forall p: nat ensures CountFree(after.zones, p) + CountLive(after.live, p) <= 1 {
        assert CountFree(after.zones, p) + CountLive(after.live, p) == Covers(base, pages, p);
      }
    } else if FindsSome(s.zones, order + 1, relocated, a.ptr) {
      PartitionHasNoOverlap(s, base, pages);
      var p := MissedByte(s.zones, a.ptr, a.count);
      AfterFree(s, i, p);
      assert CountFree(s.zones, p) + CountLive(s.live, p) == Covers(base, pages, p);
      assert CountFree(after.zones, p) + CountLive(after.live, p) == 2;
    } else {
      forall p: nat ensures CountFree(after.zones, p) + CountLive(after.live, p) <= 1 {
        AfterFree(s, i, p);
        assert CountFree(s.zones, p) + CountLive(s.live, p) == Covers(base, pages, p);
      }
    }
  }

  /** A free loses bytes of the pool exactly if it finds no buddy, or takes one that is no part of its block. */
  lemma FreeLosesIff(s: System, i: nat, base: nat, pages: nat)
    requires Partition(s, base, pages) && i < |s.live|
    ensures s.live[i].count > 0 && CeilLog2(s.live[i].count) < |s.zones|
            && s.live[i].count <= Pow2(CeilLog2(s.live[i].count))
    ensures var a := s.live[i]; var order := CeilLog2(a.count); var relocated := Pow2(order) - a.count;
            Loses(System(Free(s.zones, a.ptr, a.count), Without(s.live, i)), base, pages)
            <==> relocated != 0
                 && (!FindsSome(s.zones, order + 1, relocated, a.ptr)
                     || !FoundInside(s.zones, order + 1, relocated, a.ptr, a.ptr + a.count * PAGE,
                         a.ptr + Pow2(order) * PAGE))
  {
    hide CountAbsorbed, CountFree, CountLive, Free, CeilLog2, Pow2, FindsSome, FoundInside;
    LiveInPartition(s, i, base, pages);
    var a := s.live[i];
    CeilLog2Holds(a.count);
    var order := CeilLog2(a.count);
    var relocated, tail, hi := Pow2(order) - a.count, a.ptr + a.count * PAGE, a.ptr + Pow2(order) * PAGE;
    var after := System(Free(s.zones, a.ptr, a.count), Without(s.live, i));
    if relocated == 0 {
      FreeKeepsPartitionIff(s, i, base, pages);
      forall p: nat ensures CountFree(after.zones, p) + CountLive(after.live, p) == Covers(base, pages, p) {}
    } else if !FindsSome(s.zones, order + 1, relocated, a.ptr) {
      AfterFree(s, i, a.ptr);
      assert CountFree(s.zones, a.ptr) + CountLive(s.live, a.ptr) == Covers(base, pages, a.ptr);
      assert CountFree(after.zones, a.ptr) + CountLive(after.live, a.ptr) == 0;
    } else if FoundInside(s.zones, order + 1, relocated, a.ptr, tail, hi) {
      forall p: nat | Covers(base, pages, p) == 1 ensures CountFree(after.zones, p) + CountLive(after.live, p) > 0 {
        InsideLosesNothing(s, i, base, pages, p);
      }
    } else {
      var p := StrayByte(s.zones, order + 1, relocated, a.ptr, tail, hi);
      StrayIsLost(s, i, base, pages, p);
    }
  }

  lemma InsideLosesNothing(s: System, i: nat, base: nat, pages: nat, p: nat)
    requires Partition(s, base, pages) && i < |s.live|
    requires 0 < s.live[i].count && CeilLog2(s.live[i].count) < |s.zones|
             && s.live[i].count < Pow2(CeilLog2(s.live[i].count))
    requires var a := s.live[i]; var order := CeilLog2(a.count); var relocated := Pow2(order) - a.count;
             && FindsSome(s.zones, order + 1, relocated, a.ptr)
             && FoundInside(s.zones, order + 1, relocated, a.ptr, a.ptr + a.count * PAGE, a.ptr + Pow2(order) * PAGE)
    requires Covers(base, pages, p) == 1
    ensures CountFree(Free(s.zones, s.live[i].ptr, s.live[i].count), p) + CountLive(Without(s.live, i), p) > 0
  {
    hide CountAbsorbed, CountFree, CountLive, FindsSome, FoundInside, Free, CeilLog2, Pow2;
    var a := s.live[i];
    var order := CeilLog2(a.count);
    var tail, hi := a.ptr + a.count * PAGE, a.ptr + Pow2(order) * PAGE;
    PartitionIsSound(s, base, pages);
    AfterFree(s, i, p);
    assert CountFree(s.zones, p) + CountLive(s.live, p) == Covers(base, pages, p);
    AbsorbedIsFree(s.zones, order + 1, Pow2(order) - a.count, a.ptr, p);
    if !(tail <= p < hi) { AbsorbedOutside(s.zones, order + 1, Pow2(order) - a.count, a.ptr, tail, hi, p); }
  }

  lemma StrayIsLost(s: System, i: nat, base: nat, pages: nat, p: nat)
    requires Partition(s, base, pages) && i < |s.live|
    requires 0 < s.live[i].count && CeilLog2(s.live[i].count) < |s.zones|
             && s.live[i].count < Pow2(CeilLog2(s.live[i].count))
    requires var a := s.live[i]; var order := CeilLog2(a.count); var relocated := Pow2(order) - a.count;
             && FindsSome(s.zones, order + 1, relocated, a.ptr)
             && !(a.ptr + a.count * PAGE <= p < a.ptr + Pow2(order) * PAGE)
             && CountAbsorbed(s.zones, order + 1, relocated, a.ptr, p) > 0
    ensures Loses(System(Free(s.zones, s.live[i].ptr, s.live[i].count), Without(s.live, i)), base, pages)
  {
    var a := s.live[i];
    var order := CeilLog2(a.count);
    var after := System(Free(s.zones, a.ptr, a.count), Without(s.live, i));
    PartitionIsSound(s, base, pages);
    AfterFree(s, i, p);
    assert CountFree(s.zones, p) + CountLive(s.live, p) == Covers(base, pages, p);
    AbsorbedIsFree(s.zones, order + 1, Pow2(order) - a.count, a.ptr, p);
    assert CountFree(after.zones, p) + CountLive(after.live, p) == 0;
  }

  // ---------------------------------------------------------------- when blocks come to overlap

  /** No block of the chain, or of the zones, and no live allocation reaches between two addresses. */
  predicate ChainClear(chain: seq<Block>, pages: nat, lo: nat, hi: nat) {
    forall i :: 0 <= i < |chain| ==> chain[i].addr + pages * PAGE <= lo || hi <= chain[i].addr
  }

  predicate ZonesClear(zones: Zones, lo: nat, hi: nat) {
    forall z :: 0 <= z < |zones| ==> ChainClear(zones[z], Pow2(z), lo, hi)
  }

  predicate LiveClear(live: seq<Allocation>, lo: nat, hi: nat) {
    forall i :: 0 <= i < |live| ==> live[i].ptr + live[i].count * PAGE <= lo || hi <= live[i].ptr || live[i].count == 0
  }

  lemma {:induction false} ClearChainIsUncovered(chain: seq<Block>, pages: nat, lo: nat, hi: nat, p: nat)
    requires ChainClear(chain, pages, lo, hi) && lo <= p < hi
    ensures CountChain(chain, pages, p) == 0
  {
    if chain != [] { ClearChainIsUncovered(chain[1..], pages, lo, hi, p); }
  }

  lemma {:induction false} ClearZonesAreUncovered(zones: Zones, n: nat, lo: nat, hi: nat, p: nat)
    requires ZonesClear(zones, lo, hi) && lo <= p < hi && n <= |zones|
    ensures CountZones(zones, n, p) == 0
  {
    if n != 0 {
      ClearZonesAreUncovered(zones, n - 1, lo, hi, p);
      ClearChainIsUncovered(zones[n - 1], Pow2(n - 1), lo, hi, p);
    }
  }

  lemma {:induction false} ClearLiveIsUncovered(live: seq<Allocation>, lo: nat, hi: nat, p: nat)
    requires LiveClear(live, lo, hi) && lo <= p < hi
    ensures CountLive(live, p) == 0
  {
    if live != [] { ClearLiveIsUncovered(live[1..], lo, hi, p); }
  }

  lemma ChainedBlockIsFree(zones: Zones, z: nat, i: nat, p: nat)
    requires z < |zones| && i < |zones[z]| && Covers(zones[z][i].addr, Pow2(z), p) == 1
    ensures CountFree(zones, p) > 0
  {
    CountZonesAtLeast(zones, |zones|, z, p);
    CountChainAt(zones[z], i, Pow2(z), p);
  }

  lemma UnclearByte(zones: Zones, live: seq<Allocation>, lo: nat, hi: nat) returns (p: nat)
    requires lo < hi && !(ZonesClear(zones, lo, hi) && LiveClear(live, lo, hi))
    ensures lo <= p < hi && CountFree(zones, p) + CountLive(live, p) > 0
  {
    if !ZonesClear(zones, lo, hi) {
      var z: nat :| z < |zones| && !ChainClear(zones[z], Pow2(z), lo, hi);
      var i: nat :| i < |zones[z]| && !(zones[z][i].addr + Pow2(z) * PAGE <= lo || hi <= zones[z][i].addr);
      p := if zones[z][i].addr < lo then lo else zones[z][i].addr;
      ChainedBlockIsFree(zones, z, i, p);
    } else {
      var i: nat :| i < |live|
          && !(live[i].ptr + live[i].count * PAGE <= lo || hi <= live[i].ptr || live[i].count == 0);
      p := if live[i].ptr < lo then lo else live[i].ptr;
      CountLiveAt(live, i, p);
    }
  }

  /**
   * What a caller can check before a free: there is no tail, or the free finds no buddy at all, or nothing that it
   * leaves behind reaches into the tail.
   */
  predicate SparesOthers(s: System, i: nat)
    requires i < |s.live| && 0 < s.live[i].count && CeilLog2(s.live[i].count) < |s.zones|
  {
    var a := s.live[i];
    CeilLog2Holds(a.count);
    var order := CeilLog2(a.count);
    var relocated, tail, hi := Pow2(order) - a.count, a.ptr + a.count * PAGE, a.ptr + Pow2(order) * PAGE;
    || relocated == 0
    || !FindsSome(s.zones, order + 1, relocated, a.ptr)
    || (ZonesClear(Coalesce(s.zones, order + 1, relocated, a.ptr).zones, tail, hi)
        && LiveClear(Without(s.live, i), tail, hi))
  }

  /** In the tail, everything that the free leaves behind is doubled by the block it puts back. */
  lemma InTheTail(s: System, i: nat, p: nat)
    requires Sound(s) && i < |s.live| && 0 < s.live[i].count && CeilLog2(s.live[i].count) < |s.zones|
    requires s.live[i].count < Pow2(CeilLog2(s.live[i].count))
    requires var a := s.live[i]; var order := CeilLog2(a.count);
             && FindsSome(s.zones, order + 1, Pow2(order) - a.count, a.ptr)
             && a.ptr + a.count * PAGE <= p < a.ptr + Pow2(order) * PAGE
    ensures var a := s.live[i]; var order := CeilLog2(a.count);
            CountFree(Free(s.zones, a.ptr, a.count), p) + CountLive(Without(s.live, i), p)
            == 1 + CountFree(Coalesce(s.zones, order + 1, Pow2(order) - a.count, a.ptr).zones, p)
               + CountLive(Without(s.live, i), p)
  {
    hide CountAbsorbed, CountFree, CountLive, Free, CeilLog2, Pow2, FindsSome, Coalesce;
    var a := s.live[i];
    AfterFree(s, i, p);
    CoalesceCounts(s.zones, CeilLog2(a.count) + 1, Pow2(CeilLog2(a.count)) - a.count, a.ptr, p);
    CountLiveAt(s.live, i, p);
  }

  /**
   * A free makes blocks overlap exactly if it takes some buddy and leaves something behind that reaches into its tail.
   */
  lemma FreeStaysSoundIff(s: System, i: nat)
    requires Sound(s) && i < |s.live| && 0 < s.live[i].count && CeilLog2(s.live[i].count) < |s.zones|
    ensures Sound(System(Free(s.zones, s.live[i].ptr, s.live[i].count), Without(s.live, i))) <==> SparesOthers(s, i)
  {
    var a := s.live[i];
    CeilLog2Holds(a.count);
    var order := CeilLog2(a.count);
    var relocated := Pow2(order) - a.count;
    if relocated == 0 || !FindsSome(s.zones, order + 1, relocated, a.ptr) {
      LossyFreeStaysSound(s, i);
    } else if SparesOthers(s, i) {
      ClearFreeStaysSound(s, i);
    } else {
      var w := Coalesce(s.zones, order + 1, relocated, a.ptr);
      var p := UnclearByte(w.zones, Without(s.live, i), a.ptr + a.count * PAGE, a.ptr + Pow2(order) * PAGE);
      InTheTail(s, i, p);
    }
  }

  lemma LossyFreeStaysSound(s: System, i: nat)
    requires Sound(s) && i < |s.live| && 0 < s.live[i].count && CeilLog2(s.live[i].count) < |s.zones|
    requires s.live[i].count <= Pow2(CeilLog2(s.live[i].count))
    requires var a := s.live[i]; var order := CeilLog2(a.count);
             a.count == Pow2(order) || !FindsSome(s.zones, order + 1, Pow2(order) - a.count, a.ptr)
    ensures Sound(System(Free(s.zones, s.live[i].ptr, s.live[i].count), Without(s.live, i)))
  {
    hide CountAbsorbed, CountFree, CountLive, Free, CeilLog2, Pow2, FindsSome, Coalesce;
    var after := System(Free(s.zones, s.live[i].ptr, s.live[i].count), Without(s.live, i));
    forall p: nat ensures CountFree(after.zones, p) + CountLive(after.live, p) <= 1 {
      assert CountFree(s.zones, p) + CountLive(s.live, p) <= 1;
      if s.live[i].count == Pow2(CeilLog2(s.live[i].count)) {
        var _, _, _ := FreeDelta(s, i, p);
      } else {
        AfterFree(s, i, p);
      }
    }
  }

  lemma ClearFreeStaysSound(s: System, i: nat)
    requires Sound(s) && i < |s.live| && 0 < s.live[i].count && CeilLog2(s.live[i].count) < |s.zones|
    requires s.live[i].count < Pow2(CeilLog2(s.live[i].count))
    requires var a := s.live[i]; var order := CeilLog2(a.count);
             && FindsSome(s.zones, order + 1, Pow2(order) - a.count, a.ptr)
             && ZonesClear(Coalesce(s.zones, order + 1, Pow2(order) - a.count, a.ptr).zones,
                           a.ptr + a.count * PAGE, a.ptr + Pow2(order) * PAGE)
             && LiveClear(Without(s.live, i), a.ptr + a.count * PAGE, a.ptr + Pow2(order) * PAGE)
    ensures Sound(System(Free(s.zones, s.live[i].ptr, s.live[i].count), Without(s.live, i)))
  {
    hide CountAbsorbed, CountZones, CountLive, Free, CeilLog2, Pow2, FindsSome, Coalesce, ZonesClear, LiveClear;
    var a := s.live[i];
    var order := CeilLog2(a.count);
    var w, tail, hi := Coalesce(s.zones, order + 1, Pow2(order) - a.count, a.ptr), a.ptr + a.count * PAGE,
        a.ptr + Pow2(order) * PAGE;
    var after := System(Free(s.zones, a.ptr, a.count), Without(s.live, i));
    forall p: nat ensures CountFree(after.zones, p) + CountLive(after.live, p) <= 1 {
      assert CountFree(s.zones, p) + CountLive(s.live, p) <= 1;
      if tail <= p < hi {
        InTheTail(s, i, p);
        ClearZonesAreUncovered(w.zones, |w.zones|, tail, hi, p);
        ClearLiveIsUncovered(after.live, tail, hi, p);
      } else {
        AfterFree(s, i, p);
      }
    }
  }

  /** A free that finds its tail, or no buddy at all, leaves nothing behind in the tail. */
  lemma HarmlessSpares(s: System, i: nat)
    requires Sound(s) && i < |s.live| && 0 < s.live[i].count && CeilLog2(s.live[i].count) < |s.zones|
    requires s.live[i].count <= Pow2(CeilLog2(s.live[i].count))
    requires var a := s.live[i]; var order := CeilLog2(a.count);
             TailIsFound(s.zones, a.ptr, a.count) || !FindsSome(s.zones, order + 1, Pow2(order) - a.count, a.ptr)
    ensures SparesOthers(s, i)
  {
    var a := s.live[i];
    var order := CeilLog2(a.count);
    if a.count < Pow2(order) && FindsSome(s.zones, order + 1, Pow2(order) - a.count, a.ptr) {
      hide CountAbsorbed, CountFree, CountLive, Free, CeilLog2, Pow2, FindsSome, Coalesce, TailIsFound;
      SoundHasNoOverlap(s);
      var after := System(Free(s.zones, a.ptr, a.count), Without(s.live, i));
      forall p: nat ensures CountFree(after.zones, p) + CountLive(after.live, p) <= 1 {
        assert CountFree(s.zones, p) + CountLive(s.live, p) <= 1;
        AfterFree(s, i, p);
        FoundTailIsAbsorbed(s.zones, a.ptr, a.count, p);
      }
      FreeStaysSoundIff(s, i);
    }
  }

  // ---------------------------------------------------------------- runs

  datatype Op = DoAllocate(count: nat) | DoFree(i: nat)

  /** What the callers of a run may do: request any page count, and free any live allocation. */
  predicate Allowed(s: System, op: Op) {
    match op
    case DoAllocate(_) => true
    case DoFree(i) => i < |s.live| && 0 < s.live[i].count && CeilLog2(s.live[i].count) < |s.zones|
  }

  function Next(s: System, op: Op): System
    requires |s.zones| > 0 && Allowed(s, op)
  {
    match op
    case DoAllocate(count) =>
      var r := Allocate(s.zones, count);
      if r.NoPages? then s else System(r.zones, s.live + [Allocation(r.ptr, count)])
    case DoFree(i) =>
      System(Free(s.zones, s.live[i].ptr, s.live[i].count), Without(s.live, i))
  }

  /** `run` is the sequence of states that the operations lead through, as long as every chain is a value of its own. */
  ghost predicate Follows(run: seq<System>, ops: seq<Op>) {
    && |run| == |ops| + 1
    && forall k :: 0 <= k < |ops| ==>
       |run[k].zones| > 0 && Allowed(run[k], ops[k]) && run[k + 1] == Next(run[k], ops[k])
  }

  /**
   * A run goes on only while no byte is in two blocks: from then on blocks of two chains may share the page that holds
   * their headers, and chains are no longer independent of each other.
   */
  ghost predicate IsRun(run: seq<System>, ops: seq<Op>) {
    Follows(run, ops) && forall k :: 0 <= k < |ops| ==> Sound(run[k])
  }

  ghost predicate FollowsFresh(run: seq<System>, ops: seq<Op>, base: nat, pages: nat) {
    pages > 0 && Follows(run, ops) && run[0] == System(Create(Log2(pages) + 1, pages, base, 0), [])
  }

  ghost predicate IsFreshRun(run: seq<System>, ops: seq<Op>, base: nat, pages: nat) {
    FollowsFresh(run, ops, base, pages) && IsRun(run, ops)
  }

  /** An operation that is a free finds the tail of its allocation. */
  predicate FindsItsTail(s: System, op: Op)
    requires Allowed(s, op)
  {
    op.DoFree? ==> TailIsFound(s.zones, s.live[op.i].ptr, s.live[op.i].count)
  }

  lemma NextPartitionsIff(s: System, op: Op, base: nat, pages: nat)
    requires Partition(s, base, pages) && Allowed(s, op)
    ensures Partition(Next(s, op), base, pages) <==> FindsItsTail(s, op)
  {
    match op
    case DoAllocate(count) =>
      if Allocate(s.zones, count).Pages? { AllocateKeepsPartition(s, count, base, pages); }
    case DoFree(i) =>
      FreeKeepsPartitionIff(s, i, base, pages);
  }

  /** An operation that is a free finds the tail of its allocation, or no buddy at all. */
  predicate IsHarmless(s: System, op: Op)
    requires Allowed(s, op)
  {
    op.DoFree? ==>
      var a := s.live[op.i];
      CeilLog2Holds(a.count);
      var order := CeilLog2(a.count);
      TailIsFound(s.zones, a.ptr, a.count) || !FindsSome(s.zones, order + 1, Pow2(order) - a.count, a.ptr)
  }

  lemma AllocateStaysSound(s: System, count: nat)
    requires Sound(s) && |s.zones| > 0 && Allocate(s.zones, count).Pages?
    ensures var r := Allocate(s.zones, count); Sound(System(r.zones, s.live + [Allocation(r.ptr, count)]))
  {
    hide CountFree, Allocate;
    var r := Allocate(s.zones, count);
    var a := Allocation(r.ptr, count);
    forall p: nat ensures CountFree(r.zones, p) + CountLive(s.live + [a], p) <= 1 {
      assert CountFree(s.zones, p) + CountLive(s.live, p) <= 1;
      AllocateCounts(s.zones, count, p);
      CountLiveSplit(s.live, [a], p);
    }
  }

  /** A run can go on after an operation unless that is a free that leaves something behind in its tail. */
  lemma NextIsSoundIff(s: System, op: Op)
    requires Sound(s) && |s.zones| > 0 && Allowed(s, op)
    ensures Sound(Next(s, op)) <==> (op.DoFree? ==> SparesOthers(s, op.i))
    ensures IsHarmless(s, op) ==> Sound(Next(s, op))
  {
    match op
    case DoAllocate(count) =>
      if Allocate(s.zones, count).Pages? { AllocateStaysSound(s, count); }
    case DoFree(i) =>
      FreeStaysSoundIff(s, i);
      CeilLog2Holds(s.live[i].count);
      if IsHarmless(s, op) { HarmlessSpares(s, i); }
  }

  lemma FreshPoolIsPartitioned(base: nat, pages: nat)
    requires pages > 0
    ensures Partition(System(Create(Log2(pages) + 1, pages, base, 0), []), base, pages)
  {
    forall p: nat { CreateCounts(Log2(pages) + 1, pages, base, 0, p); }
  }

  /** As long as every free finds its tail, every state partitions the pool, so that the run can go on. */
  lemma {:induction false} EveryRunPartitionsThePool(run: seq<System>, ops: seq<Op>, base: nat, pages: nat, k: nat)
    requires FollowsFresh(run, ops, base, pages) && k < |run|
    requires forall j :: 0 <= j < k ==> FindsItsTail(run[j], ops[j])
    ensures Partition(run[k], base, pages)
  {
    if k == 0 {
      FreshPoolIsPartitioned(base, pages);
    } else {
      EveryRunPartitionsThePool(run, ops, base, pages, k - 1);
      NextPartitionsIff(run[k - 1], ops[k - 1], base, pages);
    }
  }

  /** The states of a run all partition the pool if and only if each of its frees finds its tail. */
  lemma RunPartitionsIff(run: seq<System>, ops: seq<Op>, base: nat, pages: nat)
    requires FollowsFresh(run, ops, base, pages)
    ensures (forall k :: 0 <= k < |run| ==> Partition(run[k], base, pages))
       <==> forall k :: 0 <= k < |ops| ==> FindsItsTail(run[k], ops[k])
  {
    if forall k :: 0 <= k < |run| ==> Partition(run[k], base, pages) {
      forall k | 0 <= k < |ops| ensures FindsItsTail(run[k], ops[k]) {
        assert Partition(run[k + 1], base, pages);
        NextPartitionsIff(run[k], ops[k], base, pages);
      }
    }
    if forall k :: 0 <= k < |ops| ==> FindsItsTail(run[k], ops[k]) {
      forall k | 0 <= k < |run| ensures Partition(run[k], base, pages) {
        EveryRunPartitionsThePool(run, ops, base, pages, k);
      }
    }
  }

  ghost predicate IsPow2(n: nat) { exists o: nat :: n == Pow2(o) }

  lemma PowerOfTwoHasNoTail(count: nat)
    requires IsPow2(count)
    ensures count > 0 && count == Pow2(CeilLog2(count))
  {
    var o: nat :| count == Pow2(o);
    CeilLog2IsLeast(count);
    Pow2Monotone(CeilLog2(count), o);
  }

  /** Callers that only ask for powers of two of pages never break the partition, in whatever order they free. */
  lemma {:induction false} PowersOfTwoPartition(run: seq<System>, ops: seq<Op>, base: nat, pages: nat, k: nat)
    requires FollowsFresh(run, ops, base, pages) && k < |run|
    requires forall j :: 0 <= j < |ops| && ops[j].DoAllocate? ==> IsPow2(ops[j].count)
    ensures Partition(run[k], base, pages) && forall a :: a in run[k].live ==> IsPow2(a.count)
  {
    if k == 0 {
      FreshPoolIsPartitioned(base, pages);
    } else {
      PowersOfTwoPartition(run, ops, base, pages, k - 1);
      var s, op := run[k - 1], ops[k - 1];
      if op.DoFree? {
        assert s.live[op.i] in s.live;
        PowerOfTwoHasNoTail(s.live[op.i].count);
      }
      NextPartitionsIff(s, op, base, pages);
    }
  }

  // ---------------------------------------------------------------- what every run keeps

  /** Every free block, and the whole block of every live allocation, lies in the pool. */
  ghost predicate InPool(s: System, base: nat, pages: nat) {
    && |s.zones| > 0
    && (forall a :: a in s.live ==> 0 < a.count <= Pow2(|s.zones| - 1) && BlockInPool(a.ptr, a.count, base, pages))
    && forall p: nat :: Covers(base, pages, p) == 0 ==> CountFree(s.zones, p) == 0
  }

  lemma AllocateStaysInPool(s: System, count: nat, base: nat, pages: nat)
    requires InPool(s, base, pages) && Allocate(s.zones, count).Pages?
    ensures var r := Allocate(s.zones, count); InPool(System(r.zones, s.live + [Allocation(r.ptr, count)]), base, pages)
  {
    hide CountFree, Pow2, CeilLog2, Distribute;
    var r := Allocate(s.zones, count);
    CeilLog2IsLeast(count);
    var order := FirstNonEmpty(s.zones, CeilLog2(count));
    Pow2Monotone(CeilLog2(count), order);
    ChainedBlockIsFree(s.zones, order, 0, r.ptr);
    ChainedBlockIsFree(s.zones, order, 0, r.ptr + Pow2(order) * PAGE - 1);
    forall p: nat | Covers(base, pages, p) == 0 ensures CountFree(r.zones, p) == 0 {
      AllocateCounts(s.zones, count, p);
    }
    assert |r.zones| == |s.zones| by { AllocateCounts(s.zones, count, 0); }
  }

  lemma FreeStaysInPool(s: System, i: nat, base: nat, pages: nat)
    requires InPool(s, base, pages) && i < |s.live| && 0 < s.live[i].count && CeilLog2(s.live[i].count) < |s.zones|
    ensures InPool(System(Free(s.zones, s.live[i].ptr, s.live[i].count), Without(s.live, i)), base, pages)
  {
    hide CountAbsorbed, CountFree, Free, CeilLog2, Pow2, Coalesce;
    var a := s.live[i];
    assert a in s.live;
    forall p: nat | Covers(base, pages, p) == 0 ensures CountFree(Free(s.zones, a.ptr, a.count), p) == 0 {
      FreeCounts(s.zones, a.ptr, a.count, p);
    }
  }

  /**
   * In every state of every run, up to and including the first in which two blocks share a byte, no byte outside the
   * pool is chained or handed out.
   */
  lemma {:induction false} EveryRunStaysInPool(run: seq<System>, ops: seq<Op>, base: nat, pages: nat, k: nat)
    requires IsFreshRun(run, ops, base, pages) && k < |run|
    ensures InPool(run[k], base, pages)
    ensures forall p: nat :: Covers(base, pages, p) == 0 ==> CountFree(run[k].zones, p) + CountLive(run[k].live, p) == 0
  {
    if k == 0 {
      FreshPoolIsPartitioned(base, pages);
      forall p: nat | Covers(base, pages, p) == 0 ensures CountFree(run[0].zones, p) == 0 {
        assert CountFree(run[0].zones, p) + CountLive(run[0].live, p) == Covers(base, pages, p);
      }
    } else {
      EveryRunStaysInPool(run, ops, base, pages, k - 1);
      var s := run[k - 1];
      match ops[k - 1]
      case DoAllocate(count) =>
        if Allocate(s.zones, count).Pages? { AllocateStaysInPool(s, count, base, pages); }
      case DoFree(i) =>
        FreeStaysInPool(s, i, base, pages);
    }
    forall p: nat | Covers(base, pages, p) == 0 ensures CountLive(run[k].live, p) == 0 {
      LiveStaysInPool(run[k].live, base, pages, p);
    }
  }

  lemma {:induction false} LiveStaysInPool(live: seq<Allocation>, base: nat, pages: nat, p: nat)
    requires forall a :: a in live ==> 0 < a.count && BlockInPool(a.ptr, a.count, base, pages)
    requires Covers(base, pages, p) == 0
    ensures CountLive(live, p) == 0
  {
    if live != [] {
      assert live[0] in live;
      CeilLog2Holds(live[0].count);
      LiveStaysInPool(live[1..], base, pages, p);
    }
  }

  lemma {:induction false} SoundSoFar(run: seq<System>, ops: seq<Op>, base: nat, pages: nat, k: nat)
    requires FollowsFresh(run, ops, base, pages) && k < |run|
    requires forall j :: 0 <= j < k && ops[j].DoFree? ==> SparesOthers(run[j], ops[j].i) || IsHarmless(run[j], ops[j])
    ensures Sound(run[k])
  {
    if k == 0 {
      FreshPoolIsPartitioned(base, pages);
      PartitionIsSound(run[0], base, pages);
    } else {
      SoundSoFar(run, ops, base, pages, k - 1);
      NextIsSoundIff(run[k - 1], ops[k - 1]);
    }
  }

  /**
   * Operations on a fresh pool never make two blocks share a byte, so that they are a run to their end, if and only if
   * each free spares what it leaves behind; frees that find their tail or no buddy at all do.
   */
  lemma NeverOverlapsIff(run: seq<System>, ops: seq<Op>, base: nat, pages: nat)
    requires FollowsFresh(run, ops, base, pages)
    ensures (forall k :: 0 <= k < |run| ==> Sound(run[k]))
       <==> forall k :: 0 <= k < |ops| && ops[k].DoFree? ==> SparesOthers(run[k], ops[k].i)
    ensures (forall k :: 0 <= k < |ops| ==> IsHarmless(run[k], ops[k])) ==> forall k :: 0 <= k < |run| ==> Sound(run[k])
  {
    if forall k :: 0 <= k < |run| ==> Sound(run[k]) {
      forall k | 0 <= k < |ops| && ops[k].DoFree? ensures SparesOthers(run[k], ops[k].i) {
        assert Sound(run[k + 1]);
        NextIsSoundIff(run[k], ops[k]);
      }
    }
    if (forall k :: 0 <= k < |ops| && ops[k].DoFree? ==> SparesOthers(run[k], ops[k].i))
       || forall k :: 0 <= k < |ops| ==> IsHarmless(run[k], ops[k])
    {
      forall k | 0 <= k < |run| ensures Sound(run[k]) {
        SoundSoFar(run, ops, base, pages, k);
      }
    }
  }

  // ---------------------------------------------------------------- the smallest pool that breaks

  /** The chains of a fresh pool of five pages: the first four in one block, the fifth in another. */
  function FiveFresh(base: nat): Zones {
    [[Block(base + 4 * PAGE, Xor(base, base + 4 * PAGE))], [], [Block(base, Xor(0, base))]]
  }

  /** The same after the allocation of three of them. */
  function FiveTaken(base: nat): Zones {
    [[Block(base + 4 * PAGE, Xor(base, base + 4 * PAGE)), Block(base + 3 * PAGE, Xor(base + 3 * PAGE, base))], [], []]
  }

  lemma CreateFive(base: nat)
    ensures Log2(5) == 2 && Create(3, 5, base, 0) == FiveFresh(base)
  {
    assert Log2(5 / 2) == 1;
    var last := [Block(base + 4 * PAGE, Xor(base, base + 4 * PAGE))];
    assert Pow2(2) == 4 && Pow2(1) == 2 && Pow2(0) == 1;
    assert Create(1, 1, base + 4 * PAGE, base) == [last];
    assert Create(2, 1, base + 4 * PAGE, base) == [last, []];
  }

  lemma SplitFourth(base: nat)
    ensures InsertPages([FiveFresh(base)[0], [], []], 0, base + 3 * PAGE, base) == FiveTaken(base)
  {
    var chain := FiveFresh(base)[0];
    assert Appended(chain, base + 3 * PAGE, base) == FiveTaken(base)[0];
  }

  lemma TakeThree(base: nat)
    ensures CeilLog2(3) == 2 && Allocate(FiveFresh(base), 3) == Pages(base, FiveTaken(base))
  {
    assert Pow2(2) == 4 && Pow2(1) == 2 && Pow2(0) == 1;
    var zones := FiveFresh(base);
    var popped: Zones := [zones[0], [], []];
    assert zones[2][1..] == [] && zones[2 := zones[2][1..]] == popped;
    assert FirstNonEmpty(zones, 2) == 2;
    SplitFourth(base);
    assert Distribute(popped, 1, 1, base + 3 * PAGE, base) == FiveTaken(base);
    assert Distribute(popped, 2, 1, base + 3 * PAGE, base) == FiveTaken(base);
    assert Distribute(popped, 3, 1, base + 3 * PAGE, base) == FiveTaken(base);
  }

  /** A walk for one page looks in the lowest zone only, and takes the front block if that names `last`. */
  lemma WalkForOne(zones: Zones, last: nat, lo: nat, hi: nat)
    requires |zones| == 3 && zones[0] != [] && Xor(zones[0][0].tag, last) == zones[0][0].addr
    ensures Coalesce(zones, 3, 1, last) == Walk([zones[0][1..], zones[1], zones[2]], zones[0][0].addr, 0)
    ensures FindsSome(zones, 3, 1, last) && FindsAll(zones, 3, 1, last)
    ensures FoundInside(zones, 3, 1, last, lo, hi) <==> lo <= zones[0][0].addr && zones[0][0].addr + PAGE <= hi
  {
    assert Pow2(2) == 4 && Pow2(1) == 2 && Pow2(0) == 1;
    assert FindBuddy(zones[0], last) == 0;
    var removed: Zones := [zones[0][1..], zones[1], zones[2]];
    assert zones[0][..0] + zones[0][1..] == zones[0][1..];
    assert RemoveAt(zones, 0, 0) == removed;
    assert Coalesce(zones, 1, 1, last) == Walk(removed, zones[0][0].addr, 0);
    assert FoundInside(zones, 1, 1, last, lo, hi) <==> lo <= zones[0][0].addr && zones[0][0].addr + PAGE <= hi;
    assert FindsAll(zones, 1, 1, last) && FindsSome(zones, 1, 1, last);
    assert Coalesce(zones, 2, 1, last) == Walk(removed, zones[0][0].addr, 0);
    assert FoundInside(zones, 2, 1, last, lo, hi) == FoundInside(zones, 1, 1, last, lo, hi);
    assert FindsAll(zones, 2, 1, last) && FindsSome(zones, 2, 1, last);
  }

  lemma ReturnThree(base: nat) returns (after: Zones)
    ensures CeilLog2(3) == 2 && !TailIsFound(FiveTaken(base), base, 3)
    ensures |after| == 3 && |after[0]| == 1 && after[1] == [] && |after[2]| == 1
    ensures after[0][0].addr == base + 3 * PAGE && after[2][0].addr == base && Free(FiveTaken(base), base, 3) == after
  {
    assert Pow2(2) == 4 && Pow2(1) == 2 && Pow2(0) == 1;
    var zones := FiveTaken(base);
    XorCommutes(base, base + 4 * PAGE);
    XorTagNames(base + 4 * PAGE, base, base);
    WalkForOne(zones, base, base + 3 * PAGE, base + 4 * PAGE);
    var walked: Zones := [zones[0][1..], [], []];
    after := InsertPages(walked, 2, base, 0);
    assert Free(zones, base, 3) == InsertPages(Coalesce(zones, 3, 1, base).zones, 2, base, 0);
  }

  /**
   * Of five fresh pages three are allocated and freed. The free takes the fifth page, which was never split off, for
   * the fourth one: afterwards the fourth page is in two free blocks and the fifth in none.
   */
  lemma FivePagesOverlap(base: nat) returns (run: seq<System>, ops: seq<Op>)
    requires base > 0
    ensures IsFreshRun(run, ops, base, 5) && ops == [DoAllocate(3), DoFree(0)]
    ensures !FindsItsTail(run[1], ops[1]) && !SparesOthers(run[1], 0) && !Sound(run[2]) && !Partition(run[2], base, 5)
    ensures CountFree(run[2].zones, base + 3 * PAGE) == 2 && CountFree(run[2].zones, base + 4 * PAGE) == 0
  {
    var after := ReturnThree(base);
    run, ops := FiveRun(base, after), [DoAllocate(3), DoFree(0)];
    FiveRunIsFresh(base);
    hide Follows, Sound, Partition, SparesOthers, TailIsFound, Free, Allocate, Create, Log2, Xor;
    CountThree(after, base + 3 * PAGE);
    CountThree(after, base + 4 * PAGE);
    OverlapIsNotSound(run[2], base + 3 * PAGE, base, 5);
    NextIsSoundIff(run[1], ops[1]);
  }

  function FiveRun(base: nat, after: Zones): seq<System> {
    [System(FiveFresh(base), []), System(FiveTaken(base), [Allocation(base, 3)]), System(after, [])]
  }

  lemma FiveRunIsFresh(base: nat)
    ensures CeilLog2(3) == 2
    ensures IsFreshRun(FiveRun(base, Free(FiveTaken(base), base, 3)), [DoAllocate(3), DoFree(0)], base, 5)
  {
    hide Sound, Free, Allocate, Create, Log2, CeilLog2, Xor;
    CreateFive(base);
    TakeThree(base);
    SoundBeforeReturn(base);
    var live := [Allocation(base, 3)];
    assert Without(live, 0) == [] && [] + live == live;
  }

  lemma OverlapIsNotSound(s: System, p: nat, base: nat, pages: nat)
    requires CountFree(s.zones, p) == 2
    ensures !Sound(s) && !Partition(s, base, pages)
  {
    assert CountFree(s.zones, p) + CountLive(s.live, p) >= 2;
  }

  lemma SoundBeforeReturn(base: nat)
    ensures Sound(System(FiveFresh(base), [])) && Sound(System(FiveTaken(base), [Allocation(base, 3)]))
  {
    CreateFive(base);
    TakeThree(base);
    FreshPoolIsPartitioned(base, 5);
    PartitionIsSound(System(FiveFresh(base), []), base, 5);
    AllocateStaysSound(System(FiveFresh(base), []), 3);
    assert [] + [Allocation(base, 3)] == [Allocation(base, 3)];
  }

  lemma CountThree(zones: Zones, p: nat)
    requires |zones| == 3 && |zones[0]| == 1 && zones[1] == [] && |zones[2]| == 1
    ensures CountFree(zones, p) == Covers(zones[0][0].addr, 1, p) + Covers(zones[2][0].addr, 4, p)
  {
    assert Pow2(2) == 4 && Pow2(1) == 2 && Pow2(0) == 1;
    assert zones[0][1..] == [] && zones[2][1..] == [];
    assert CountChain(zones[0], 1, p) == Covers(zones[0][0].addr, 1, p);
    assert CountChain(zones[2], 4, p) == Covers(zones[2][0].addr, 4, p);
    assert CountZones(zones, 1, p) == CountZones(zones, 0, p) + CountChain(zones[0], Pow2(0), p);
    assert CountZones(zones, 2, p) == CountZones(zones, 1, p);
  }

  /**
   * In a partitioned pool no two chained blocks, in the same zone or in two, share their address: chains are
   * acyclic and disjoint.
   */
  lemma ChainsShareNoBlock(s: System, base: nat, pages: nat, z: nat, i: nat, z': nat, i': nat)
    requires Partition(s, base, pages)
    requires z < |s.zones| && i < |s.zones[z]| && z' < |s.zones| && i' < |s.zones[z']| && (z, i) != (z', i')
    ensures s.zones[z][i].addr != s.zones[z'][i'].addr
  {
    if s.zones[z][i].addr == s.zones[z'][i'].addr {
      CountTwo(s.zones, z, i, z', i', s.zones[z][i].addr);
      assert CountFree(s.zones, s.zones[z][i].addr) + CountLive(s.live, s.zones[z][i].addr) >= 2;
    }
  }
}
