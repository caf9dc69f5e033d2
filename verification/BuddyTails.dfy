/** What a free absorbs from the zones, and when that is exactly the tail its allocation split off. */
module BuddyTails {
  import opened Arithmetic
  import opened BuddyModel

  // ---------------------------------------------------------------- what a free absorbs

  /** How many of the blocks the coalescing walk would absorb contain byte `p`. */
  function CountAbsorbed(zones: Zones, z: nat, rem: nat, last: nat, p: nat): nat
    requires z <= |zones|
  {
    if z == 0 then 0
    else if rem < Pow2(z - 1) then CountAbsorbed(zones, z - 1, rem, last, p)
    else
      var i := FindBuddy(zones[z - 1], last);
      if i == |zones[z - 1]| then 0
      else
        var next := zones[z - 1][i].addr;
        Covers(next, Pow2(z - 1), p) + CountAbsorbed(zones, z - 1, rem - Pow2(z - 1), next, p)
  }

  lemma {:induction false} CountAbsorbedLower(zones: Zones, other: Zones, z: nat, rem: nat, last: nat, p: nat)
    requires z <= |zones| == |other| && other[..z] == zones[..z]
    ensures CountAbsorbed(zones, z, rem, last, p) == CountAbsorbed(other, z, rem, last, p)
  {
    if z != 0 {
      assert zones[z - 1] == zones[..z][z - 1] == other[..z][z - 1];
      assert zones[..z - 1] == zones[..z][..z - 1] == other[..z - 1];
      var i := FindBuddy(zones[z - 1], last);
      if rem < Pow2(z - 1) {
        CountAbsorbedLower(zones, other, z - 1, rem, last, p);
      } else if i < |zones[z - 1]| {
        CountAbsorbedLower(zones, other, z - 1, rem - Pow2(z - 1), zones[z - 1][i].addr, p);
      }
    }
  }

  lemma {:induction false} CoalesceCounts(zones: Zones, z: nat, rem: nat, last: nat, p: nat)
    requires z <= |zones|
    ensures CountFree(zones, p) ==
            CountFree(Coalesce(zones, z, rem, last).zones, p) + CountAbsorbed(zones, z, rem, last, p)
    decreases z
  {
    if z != 0 {
      if rem < Pow2(z - 1) {
        CoalesceCounts(zones, z - 1, rem, last, p);
      } else {
        var i := FindBuddy(zones[z - 1], last);
        if i < |zones[z - 1]| {
          var next := zones[z - 1][i].addr;
          var removed := RemoveAt(zones, z - 1, i);
          RemoveCounts(zones, z - 1, i, p);
          CoalesceCounts(removed, z - 1, rem - Pow2(z - 1), next, p);
          assert removed[..z - 1] == zones[..z - 1];
          CountAbsorbedLower(zones, removed, z - 1, rem - Pow2(z - 1), next, p);
        }
      }
    }
  }

  /** The last buddy absorbed is one of those counted, unless the walk found nothing at all. */
  lemma {:induction false} LastIsAbsorbed(zones: Zones, z: nat, rem: nat, last: nat, p: nat)
    requires z <= |zones|
    requires CountAbsorbed(zones, z, rem, last, Coalesce(zones, z, rem, last).last) == 0
    ensures Coalesce(zones, z, rem, last).last == last && CountAbsorbed(zones, z, rem, last, p) == 0
    decreases z
  {
    if z != 0 {
      var i := FindBuddy(zones[z - 1], last);
      if rem < Pow2(z - 1) {
        LastIsAbsorbed(zones, z - 1, rem, last, p);
      } else if i < |zones[z - 1]| {
        var next := zones[z - 1][i].addr;
        var removed := RemoveAt(zones, z - 1, i);
        assert removed[..z - 1] == zones[..z - 1];
        CountAbsorbedLower(zones, removed, z - 1, rem - Pow2(z - 1), next, Coalesce(zones, z, rem, last).last);
        LastIsAbsorbed(removed, z - 1, rem - Pow2(z - 1), next, p);
        assert false;
      }
    }
  }

  lemma AbsorbedIsFree(zones: Zones, z: nat, rem: nat, last: nat, p: nat)
    requires z <= |zones|
    ensures CountAbsorbed(zones, z, rem, last, p) <= CountFree(zones, p)
  {
    CoalesceCounts(zones, z, rem, last, p);
  }

  // ---------------------------------------------------------------- what a caller can see of the walk

  /** Whether the walk finds a buddy at the first order it needs one of. */
  predicate FindsSome(zones: Zones, z: nat, rem: nat, last: nat)
    requires z <= |zones|
  {
    z != 0
    && if rem < Pow2(z - 1) then FindsSome(zones, z - 1, rem, last)
       else FindBuddy(zones[z - 1], last) < |zones[z - 1]|
  }

  /** Whether the walk finds a buddy at every order it needs one of. */
  predicate FindsAll(zones: Zones, z: nat, rem: nat, last: nat)
    requires z <= |zones|
  {
    z == 0
    || if rem < Pow2(z - 1) then FindsAll(zones, z - 1, rem, last)
       else
         var i := FindBuddy(zones[z - 1], last);
         i < |zones[z - 1]| && FindsAll(zones, z - 1, rem - Pow2(z - 1), zones[z - 1][i].addr)
  }

  /** Whether every block that the walk finds lies between two addresses. */
  predicate FoundInside(zones: Zones, z: nat, rem: nat, last: nat, lo: nat, hi: nat)
    requires z <= |zones|
  {
    z == 0
    || if rem < Pow2(z - 1) then FoundInside(zones, z - 1, rem, last, lo, hi)
       else
         var i := FindBuddy(zones[z - 1], last);
         i < |zones[z - 1]| ==>
           var addr := zones[z - 1][i].addr;
           lo <= addr && addr + Pow2(z - 1) * PAGE <= hi
           && FoundInside(zones, z - 1, rem - Pow2(z - 1), addr, lo, hi)
  }

  // ---------------------------------------------------------------- adding up bytes

  /** The sum of a count over the bytes of a stretch. */
  ghost function Sum(f: nat -> nat, lo: nat, hi: nat): nat
    requires lo <= hi
    decreases hi - lo
  {
    if lo == hi then 0 else Sum(f, lo, hi - 1) + f(hi - 1)
  }

  lemma {:induction false} SumAdds(f: nat -> nat, g: nat -> nat, h: nat -> nat, lo: nat, hi: nat)
    requires lo <= hi && forall p :: f(p) == g(p) + h(p)
    ensures Sum(f, lo, hi) == Sum(g, lo, hi) + Sum(h, lo, hi)
    decreases hi - lo
  {
    if lo < hi {
      SumAdds(f, g, h, lo, hi - 1);
    }
  }

  lemma {:induction false} SumAtLeast(f: nat -> nat, lo: nat, hi: nat)
    requires lo <= hi && forall p :: lo <= p < hi ==> f(p) >= 1
    ensures Sum(f, lo, hi) >= hi - lo
    decreases hi - lo
  {
    if lo < hi {
      SumAtLeast(f, lo, hi - 1);
    }
  }

  lemma {:induction false} SumAtMost(f: nat -> nat, lo: nat, hi: nat, p: nat)
    requires lo <= p < hi && forall q :: lo <= q < hi ==> f(q) <= 1
    ensures Sum(f, lo, hi) <= hi - lo - 1 + f(p)
    decreases hi - lo
  {
    if p < hi - 1 {
      SumAtMost(f, lo, hi - 1, p);
    } else if lo < p {
      SumAtMost(f, lo, hi - 1, p - 1);
    }
  }

  lemma {:induction false} SumZero(f: nat -> nat, lo: nat, hi: nat)
    requires lo <= hi && forall p :: lo <= p < hi ==> f(p) == 0
    ensures Sum(f, lo, hi) == 0
    decreases hi - lo
  {
    if lo < hi {
      SumZero(f, lo, hi - 1);
    }
  }

  ghost function Bytes(addr: nat, pages: nat): nat -> nat { p => Covers(addr, pages, p) }

  /** A block has so many bytes in a stretch. */
  lemma {:induction false} SumOfBlock(addr: nat, pages: nat, lo: nat, hi: nat)
    requires lo <= hi
    ensures var from := if addr < lo then lo else addr;
            var to := if addr + pages * PAGE < hi then addr + pages * PAGE else hi;
            Sum(Bytes(addr, pages), lo, hi) == if from < to then to - from else 0
    decreases hi - lo
  {
    if lo < hi {
      SumOfBlock(addr, pages, lo, hi - 1);
    }
  }

  lemma BlockFits(addr: nat, pages: nat, lo: nat, hi: nat)
    requires lo <= hi && pages > 0
    ensures Sum(Bytes(addr, pages), lo, hi) <= pages * PAGE
    ensures Sum(Bytes(addr, pages), lo, hi) == pages * PAGE <==> lo <= addr && addr + pages * PAGE <= hi
  {
    SumOfBlock(addr, pages, lo, hi);
  }

  // ---------------------------------------------------------------- the tail

  ghost function Absorbed(zones: Zones, z: nat, rem: nat, last: nat): nat -> nat
    requires z <= |zones|
  {
    p => CountAbsorbed(zones, z, rem, last, p)
  }

  /**
   * The walk absorbs as many bytes of a stretch as it needs exactly if it finds every block, and inside the stretch.
   */
  lemma {:induction false} AbsorbsEnoughIff(zones: Zones, z: nat, rem: nat, last: nat, lo: nat, hi: nat)
    requires z <= |zones| && rem < Pow2(z) && lo <= hi
    ensures Sum(Absorbed(zones, z, rem, last), lo, hi) <= rem * PAGE
    ensures Sum(Absorbed(zones, z, rem, last), lo, hi) == rem * PAGE
       <==> FindsAll(zones, z, rem, last) && FoundInside(zones, z, rem, last, lo, hi)
    decreases z
  {
    var f := Absorbed(zones, z, rem, last);
    if z == 0 {
      SumZero(f, lo, hi);
    } else {
      var n := Pow2(z - 1);
      var i := FindBuddy(zones[z - 1], last);
      if rem < n {
        AbsorbsEnoughIff(zones, z - 1, rem, last, lo, hi);
        SumAdds(f, Absorbed(zones, z - 1, rem, last), _ => 0, lo, hi);
        SumZero(_ => 0, lo, hi);
      } else if i == |zones[z - 1]| {
        SumZero(f, lo, hi);
      } else {
        var addr := zones[z - 1][i].addr;
        AbsorbsEnoughIff(zones, z - 1, rem - n, addr, lo, hi);
        SumAdds(f, Bytes(addr, n), Absorbed(zones, z - 1, rem - n, addr), lo, hi);
        BlockFits(addr, n, lo, hi);
      }
    }
  }

  /** What the walk finds inside a stretch absorbs no byte outside it, and the other way round. */
  lemma {:induction false} AbsorbedOutside(zones: Zones, z: nat, rem: nat, last: nat, lo: nat, hi: nat, p: nat)
    requires z <= |zones| && FoundInside(zones, z, rem, last, lo, hi) && !(lo <= p < hi)
    ensures CountAbsorbed(zones, z, rem, last, p) == 0
    decreases z
  {
    if z != 0 {
      var i := FindBuddy(zones[z - 1], last);
      if rem < Pow2(z - 1) {
        AbsorbedOutside(zones, z - 1, rem, last, lo, hi, p);
      } else if i < |zones[z - 1]| {
        AbsorbedOutside(zones, z - 1, rem - Pow2(z - 1), zones[z - 1][i].addr, lo, hi, p);
      }
    }
  }

  lemma {:induction false} StrayByte(zones: Zones, z: nat, rem: nat, last: nat, lo: nat, hi: nat) returns (p: nat)
    requires z <= |zones| && !FoundInside(zones, z, rem, last, lo, hi)
    ensures !(lo <= p < hi) && CountAbsorbed(zones, z, rem, last, p) > 0
    decreases z
  {
    var i := FindBuddy(zones[z - 1], last);
    if rem < Pow2(z - 1) {
      p := StrayByte(zones, z - 1, rem, last, lo, hi);
    } else {
      var addr := zones[z - 1][i].addr;
      if !(lo <= addr < hi) {
        p := addr;
      } else if addr + Pow2(z - 1) * PAGE > hi {
        p := hi;
      } else {
        p := StrayByte(zones, z - 1, rem - Pow2(z - 1), addr, lo, hi);
      }
    }
  }

  lemma AbsorbedAtMostOnce(zones: Zones, z: nat, rem: nat, last: nat)
    requires z <= |zones| && NoOverlap(zones)
    ensures forall p: nat :: Absorbed(zones, z, rem, last)(p) <= 1
  {
    forall p: nat ensures Absorbed(zones, z, rem, last)(p) <= 1 {
      assert CountFree(zones, p) <= 1;
      AbsorbedIsFree(zones, z, rem, last, p);
    }
  }

  ghost predicate AbsorbsAll(zones: Zones, z: nat, rem: nat, last: nat, lo: nat, hi: nat)
    requires z <= |zones|
  {
    forall p: nat :: lo <= p < hi ==> CountAbsorbed(zones, z, rem, last, p) == 1
  }

  /**
   * Every byte of a stretch as long as the walk needs is absorbed exactly if the walk finds every block, and inside it.
   */
  lemma AbsorbsAllIff(zones: Zones, z: nat, rem: nat, last: nat, page: nat)
    requires z <= |zones| && rem < Pow2(z) && NoOverlap(zones)
    ensures AbsorbsAll(zones, z, rem, last, page, page + rem * PAGE)
       <==> FindsAll(zones, z, rem, last) && FoundInside(zones, z, rem, last, page, page + rem * PAGE)
  {
    var f, hi := Absorbed(zones, z, rem, last), page + rem * PAGE;
    AbsorbsEnoughIff(zones, z, rem, last, page, hi);
    if FindsAll(zones, z, rem, last) && FoundInside(zones, z, rem, last, page, hi) {
      forall p: nat | page <= p < hi ensures CountAbsorbed(zones, z, rem, last, p) == 1 {
        AbsorbedAtMostOnce(zones, z, rem, last);
        SumAtMost(f, page, hi, p);
        assert f(p) == CountAbsorbed(zones, z, rem, last, p);
      }
    } else if AbsorbsAll(zones, z, rem, last, page, hi) {
      forall p: nat | page <= p < hi ensures f(p) >= 1 {
        assert CountAbsorbed(zones, z, rem, last, p) == 1;
      }
      SumAtLeast(f, page, hi);
      assert false;
    }
  }

  /** A walk that finds a buddy does not end where it began, if that address is in no free block. */
  lemma FindsSomeIff(zones: Zones, z: nat, rem: nat, last: nat)
    requires z <= |zones| && CountFree(zones, last) == 0
    ensures FindsSome(zones, z, rem, last) <==> Coalesce(zones, z, rem, last).last != last
    ensures !FindsSome(zones, z, rem, last) ==> forall p: nat :: CountAbsorbed(zones, z, rem, last, p) == 0
  {
    AbsorbedIsFree(zones, z, rem, last, last);
    if FindsSome(zones, z, rem, last) {
      var p := FirstFound(zones, z, rem, last);
      if Coalesce(zones, z, rem, last).last == last {
        LastIsAbsorbed(zones, z, rem, last, p);
      }
    } else {
      FindsNothing(zones, z, rem, last);
    }
  }

  lemma {:induction false} FirstFound(zones: Zones, z: nat, rem: nat, last: nat) returns (p: nat)
    requires z <= |zones| && FindsSome(zones, z, rem, last)
    ensures CountAbsorbed(zones, z, rem, last, p) > 0
    decreases z
  {
    if rem < Pow2(z - 1) {
      p := FirstFound(zones, z - 1, rem, last);
    } else {
      p := zones[z - 1][FindBuddy(zones[z - 1], last)].addr;
    }
  }

  lemma {:induction false} FindsNothing(zones: Zones, z: nat, rem: nat, last: nat)
    requires z <= |zones| && !FindsSome(zones, z, rem, last)
    ensures Coalesce(zones, z, rem, last) == Walk(zones, last, rem)
    ensures forall p: nat :: CountAbsorbed(zones, z, rem, last, p) == 0
    decreases z
  {
    if z != 0 && rem < Pow2(z - 1) {
      FindsNothing(zones, z - 1, rem, last);
    }
  }

  // ---------------------------------------------------------------- a free, case by case

  /** A free of a whole block, and one of a block with a tail, spelled out. */
  lemma FreeCases(zones: Zones, ptr: nat, count: nat) returns (order: nat, relocated: nat, w: Walk)
    requires 0 < count && CeilLog2(count) < |zones|
    ensures order == CeilLog2(count) && count <= Pow2(order) && relocated == Pow2(order) - count
    ensures w == Coalesce(zones, order + 1, relocated, ptr)
    ensures Free(zones, ptr, count) ==
            if relocated == 0 then InsertPages(zones, order, ptr, 0)
            else if w.last != ptr then InsertPages(w.zones, order, ptr, 0) else w.zones
  {
    CeilLog2Holds(count);
    order := CeilLog2(count);
    relocated := Pow2(order) - count;
    w := Coalesce(zones, order + 1, relocated, ptr);
  }

  /** A free changes no zone but its own and those it absorbs from. */
  lemma FreeElsewhere(zones: Zones, ptr: nat, count: nat, y: nat)
    requires 0 < count && CeilLog2(count) < |zones| && y < |zones| && y != CeilLog2(count)
    ensures count <= Pow2(CeilLog2(count))
    ensures var order := CeilLog2(count); var relocated := Pow2(order) - count;
            Free(zones, ptr, count)[y]
            == if relocated == 0 then zones[y] else Coalesce(zones, order + 1, relocated, ptr).zones[y]
  {
    hide Coalesce;
    var _, _, _ := FreeCases(zones, ptr, count);
  }
}
