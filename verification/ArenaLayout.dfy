/** Where the arena's blocks lie in memory, and what freeing one writes over. */
module ArenaLayout {
  import opened ArenaModel

  // ---------------------------------------------------------------- words

  /** A header or a tail: a size, and the mark of a free block in its top bit. */
  datatype Word = Word(size: int, free: bool)

  /** The words that are intact, by address. */
  type Memory = map<int, Word>

  /** Writing a word destroys every word that shares a byte with it. */
  function Written(m: Memory, a: int, w: Word): Memory {
    (map x | x in m && (x + 8 <= a || a + 8 <= x) :: m[x])[a := w]
  }

  /** Where no intact word is, reading yields whatever the bytes there happen to be. */
  function Read(m: Memory, a: int, garbage: int -> Word): Word { if a in m then m[a] else garbage(a) }

  // ---------------------------------------------------------------- blocks in order of address

  datatype Cell = Cell(addr: int, size: int, isFree: bool)

  /** The tail's address as the code computes it; the seven bytes of a block's size kept for alignment lie behind it. */
  function TailOf(addr: int, size: int): int { addr + 8 + size - OVERHEAD }

  function EndOf(c: Cell): int { TailOf(c.addr, c.size) + 8 }

  predicate HoldsCell(m: Memory, c: Cell) {
    && c.addr in m && m[c.addr] == Word(c.size, c.isFree)
    && TailOf(c.addr, c.size) in m && m[TailOf(c.addr, c.size)] == Word(c.size - OVERHEAD, c.isFree)
  }

  /** Header and tail of every block are where they belong. */
  predicate Holds(m: Memory, cells: seq<Cell>) { forall i :: 0 <= i < |cells| ==> HoldsCell(m, cells[i]) }

  predicate Apart(cells: seq<Cell>) {
    && (forall i :: 0 <= i < |cells| ==> cells[i].size >= OVERHEAD)
    && forall i, j :: 0 <= i < j < |cells| ==> EndOf(cells[i]) <= cells[j].addr
  }

  /** The next header follows the tail at once. */
  predicate Touching(cells: seq<Cell>, i: int) {
    0 <= i && i + 1 < |cells| && EndOf(cells[i]) == cells[i + 1].addr
  }

  predicate FreeAt(cells: seq<Cell>, i: int) { 0 <= i < |cells| && cells[i].isFree }

  /** The block and the free blocks next to it, as one. */
  function Joined(cells: seq<Cell>, i: nat): Cell
    requires i < |cells|
  {
    var lo := if FreeAt(cells, i - 1) then i - 1 else i;
    Cell(cells[lo].addr,
         cells[i].size + (if FreeAt(cells, i - 1) then cells[i - 1].size else 0)
                       + (if FreeAt(cells, i + 1) then cells[i + 1].size else 0),
         true)
  }

  function Coalesced(cells: seq<Cell>, i: nat): seq<Cell>
    requires i < |cells|
  {
    cells[..if FreeAt(cells, i - 1) then i - 1 else i] + [Joined(cells, i)]
    + cells[if FreeAt(cells, i + 1) then i + 2 else i + 1..]
  }

  // ---------------------------------------------------------------- one free, in memory

  /** The free reads real headers and tails on both sides; behind the last block there is no mark. */
  predicate SeesNeighbours(cells: seq<Cell>, i: nat, marked: bool)
    requires i < |cells|
  {
    && (i > 0 ==> Touching(cells, i - 1))
    && (if i + 1 < |cells| then Touching(cells, i) else !marked)
  }

  /**
   * What can be seen before a free: no neighbour is free, or the one behind is, and what lies behind that is far enough
   * away.
   */
  predicate LeavesRoom(cells: seq<Cell>, i: nat)
    requires i < |cells|
  {
    || (!FreeAt(cells, i - 1) && !FreeAt(cells, i + 1))
    || (FreeAt(cells, i + 1) && (i + 2 == |cells| || EndOf(Joined(cells, i)) <= cells[i + 2].addr))
  }

  predicate NoFreeNeighbours(cells: seq<Cell>) {
    forall i :: 0 <= i < |cells| - 1 ==> !(cells[i].isFree && cells[i + 1].isFree)
  }

  /** Only bytes from `lo` up to `hi` have been written. */
  predicate SameOutside(m: Memory, m': Memory, lo: int, hi: int) {
    forall x :: x in m && (x + 8 <= lo || hi <= x) ==> x in m' && m'[x] == m[x]
  }

  lemma BehindIsLater(cells: seq<Cell>, i: nat)
    requires Apart(cells) && i < |cells|
    ensures i > 0 ==> cells[0].addr + 16 <= cells[i].addr
    ensures cells[i].addr <= cells[|cells| - 1].addr
  {
    if i > 0 { assert EndOf(cells[0]) <= cells[i].addr; }
    if i < |cells| - 1 { assert EndOf(cells[i]) <= cells[|cells| - 1].addr; }
  }

  /** Where the joined block's header and tail are right and nothing else was written, the layout is. */
  lemma JoinedHolds(m: Memory, m': Memory, cells: seq<Cell>, i: nat)
    requires i < |cells| && Apart(cells) && Holds(m, cells) && HoldsCell(m', Joined(cells, i))
    requires forall j :: (if FreeAt(cells, i + 1) then i + 2 else i + 1) <= j < |cells| ==>
               EndOf(Joined(cells, i)) <= cells[j].addr
    requires SameOutside(m, m', Joined(cells, i).addr, EndOf(Joined(cells, i)))
    ensures Holds(m', Coalesced(cells, i))
  {
    var lo, hi := if FreeAt(cells, i - 1) then i - 1 else i, if FreeAt(cells, i + 1) then i + 2 else i + 1;
    var after := Coalesced(cells, i);
    assert Joined(cells, i).addr == cells[lo].addr;
    hide Joined;
    forall j | 0 <= j < |after| ensures HoldsCell(m', after[j]) {
      if j < lo {
        assert after[j] == cells[j];
        CellStays(m, m', cells, j, Joined(cells, i).addr, EndOf(Joined(cells, i)));
      } else if j > lo {
        var k := hi + (j - lo - 1);
        assert after[j] == cells[k];
        CellStays(m, m', cells, k, Joined(cells, i).addr, EndOf(Joined(cells, i)));
      }
    }
  }

  lemma CellStays(m: Memory, m': Memory, cells: seq<Cell>, j: nat, lo: int, hi: int)
    requires j < |cells| && Apart(cells) && Holds(m, cells) && SameOutside(m, m', lo, hi)
    requires EndOf(cells[j]) <= lo || hi <= cells[j].addr
    ensures HoldsCell(m', cells[j])
  {
    assert HoldsCell(m, cells[j]);
  }

  lemma StoreStaysInside(m: Memory, was: Memory, a: int, w: Word, lo: int, hi: int)
    requires SameOutside(m, was, lo, hi) && lo <= a && a + 8 <= hi
    ensures SameOutside(m, Written(was, a, w), lo, hi)
  {
  }

  /** What the words before a block's header and behind its tail say. */
  lemma ReadsNeighbours(m: Memory, cells: seq<Cell>, i: nat, base: int, end: int, garbage: int -> Word)
    requires i < |cells| && !cells[i].isFree && Apart(cells) && Holds(m, cells)
    requires base == cells[0].addr && cells[|cells| - 1].addr < end
    requires SeesNeighbours(cells, i, EndOf(cells[i]) < end && Read(m, EndOf(cells[i]), garbage).free)
    ensures var prev := cells[i].addr - 8;
            && (prev > base && Read(m, prev, garbage).free <==> FreeAt(cells, i - 1))
            && (FreeAt(cells, i - 1) ==>
                  && prev - (Read(m, prev, garbage).size + 8) == cells[i - 1].addr
                  && Read(m, cells[i - 1].addr, garbage) == Word(cells[i - 1].size, true))
    ensures var next := EndOf(cells[i]);
            && (next < end && Read(m, next, garbage).free <==> FreeAt(cells, i + 1))
            && (FreeAt(cells, i + 1) ==> next in m && m[next] == Word(cells[i + 1].size, true))
  {
    BehindIsLater(cells, i);
    if i > 0 { assert HoldsCell(m, cells[i - 1]); }
    if i + 1 < |cells| {
      BehindIsLater(cells, i + 1);
      assert HoldsCell(m, cells[i + 1]);
    }
  }

  /** A tail that is not where the joined block's is, or that lies over the next header, leaves no such layout. */
  lemma NoRoomBreaks(m: Memory, m': Memory, cells: seq<Cell>, i: nat)
    requires i < |cells| && Apart(cells) && NoFreeNeighbours(cells) && !LeavesRoom(cells, i)
    requires i > 0 ==> Touching(cells, i - 1)
    requires i + 1 < |cells| ==> Touching(cells, i)
    requires !FreeAt(cells, i + 1) ==> TailOf(Joined(cells, i).addr, Joined(cells, i).size) !in m'
    requires FreeAt(cells, i + 1) ==>
               var tail := TailOf(Joined(cells, i).addr, Joined(cells, i).size);
               && tail in m' && m'[tail].free
               && forall x :: x in m' && tail - 8 < x < tail + 8 ==> x == tail
    ensures !Holds(m', Coalesced(cells, i))
  {
    var lo, after := if FreeAt(cells, i - 1) then i - 1 else i, Coalesced(cells, i);
    assert after[lo] == Joined(cells, i);
    if FreeAt(cells, i + 1) {
      assert after[lo + 1] == cells[i + 2];
    }
  }

  /** Header, tail and header again. */
  function Stored(m: Memory, first: int, total: int, marked: bool): Memory {
    Written(Written(Written(m, first, Word(total, marked)), TailOf(first, total), Word(total - OVERHEAD, true)),
            first, Word(total, true))
  }

  lemma StoredHolds(m: Memory, was: Memory, first: int, total: int, marked: bool)
    requires total >= OVERHEAD && SameOutside(m, was, first, TailOf(first, total) + 8)
    ensures var m' := Stored(was, first, total, marked);
            HoldsCell(m', Cell(first, total, true)) && SameOutside(m, m', first, TailOf(first, total) + 8)
    ensures var m', tail := Stored(was, first, total, marked), TailOf(first, total);
            && tail in m' && m'[tail].free && (forall x :: x in m' && tail - 8 < x < tail + 8 ==> x == tail)
  {
    var lo, hi, tail := first, TailOf(first, total) + 8, TailOf(first, total);
    var m1 := Written(was, first, Word(total, marked));
    StoreStaysInside(m, was, first, Word(total, marked), lo, hi);
    var m2 := Written(m1, tail, Word(total - OVERHEAD, true));
    StoreStaysInside(m, m1, tail, Word(total - OVERHEAD, true), lo, hi);
    StoreStaysInside(m, m2, first, Word(total, true), lo, hi);
  }

  /** Nothing is free on either side: the block's own header and tail are marked. */
  lemma AfterNone(m: Memory, cells: seq<Cell>, i: nat)
    requires i < |cells| && Apart(cells) && Holds(m, cells) && !FreeAt(cells, i - 1) && !FreeAt(cells, i + 1)
    ensures LeavesRoom(cells, i)
    ensures var c := cells[i];
            Holds(Written(Written(m, TailOf(c.addr, c.size), Word(c.size - OVERHEAD, true)),
                          c.addr, Word(c.size, true)), Coalesced(cells, i))
  {
    var c := cells[i];
    var m1 := Written(m, TailOf(c.addr, c.size), Word(c.size - OVERHEAD, true));
    StoreStaysInside(m, m, TailOf(c.addr, c.size), Word(c.size - OVERHEAD, true), c.addr, EndOf(c));
    StoreStaysInside(m, m1, c.addr, Word(c.size, true), c.addr, EndOf(c));
    JoinedHolds(m, Written(m1, c.addr, Word(c.size, true)), cells, i);
  }

  /** The block before is free and the one behind is not: the tail stays where it was, away from where it belongs. */
  lemma AfterBefore(m: Memory, cells: seq<Cell>, i: nat)
    requires i < |cells| && Apart(cells) && NoFreeNeighbours(cells) && FreeAt(cells, i - 1) && !FreeAt(cells, i + 1)
    requires Touching(cells, i - 1) && (i + 1 < |cells| ==> Touching(cells, i))
    ensures !LeavesRoom(cells, i)
    ensures var total, tail := cells[i - 1].size + cells[i].size, TailOf(cells[i].addr, cells[i].size);
            !Holds(Written(Written(m, tail, Word(total - OVERHEAD, true)), cells[i - 1].addr, Word(total, true)),
                   Coalesced(cells, i))
  {
    var total, tail := cells[i - 1].size + cells[i].size, TailOf(cells[i].addr, cells[i].size);
    var m' := Written(Written(m, tail, Word(total - OVERHEAD, true)), cells[i - 1].addr, Word(total, true));
    assert TailOf(cells[i - 1].addr, total) == tail + 7;
    NoRoomBreaks(m, m', cells, i);
  }

  lemma RestIsBehind(cells: seq<Cell>, i: nat)
    requires i < |cells| && Apart(cells) && FreeAt(cells, i + 1) && LeavesRoom(cells, i)
    ensures forall j :: i + 2 <= j < |cells| ==> EndOf(Joined(cells, i)) <= cells[j].addr
  {
  }

  /** The block behind is free: a tail is written where the joined block's belongs, over whatever is there. */
  lemma AfterBehind(m: Memory, m1: Memory, cells: seq<Cell>, i: nat, marked: bool)
    requires i < |cells| && Apart(cells) && NoFreeNeighbours(cells) && Holds(m, cells) && FreeAt(cells, i + 1)
    requires Touching(cells, i) && (i > 0 ==> Touching(cells, i - 1))
    requires SameOutside(m, m1, Joined(cells, i).addr, TailOf(cells[i].addr, cells[i].size) + 8)
    ensures Holds(Stored(m1, Joined(cells, i).addr, Joined(cells, i).size, marked), Coalesced(cells, i))
            <==> LeavesRoom(cells, i)
  {
    var j := Joined(cells, i);
    var m' := Stored(m1, j.addr, j.size, marked);
    assert EndOf(cells[i]) <= EndOf(j);
    StoredHolds(m, m1, j.addr, j.size, marked);
    if LeavesRoom(cells, i) {
      RestIsBehind(cells, i);
      hide *;
      JoinedHolds(m, m', cells, i);
    } else {
      hide *;
      NoRoomBreaks(m, m', cells, i);
    }
  }

  /** The three outcomes of a free, in the memory that is left. */
  lemma FreedIff(m: Memory, m1: Memory, m2: Memory, cells: seq<Cell>, i: nat, marked: bool)
    requires i < |cells| && Apart(cells) && NoFreeNeighbours(cells) && Holds(m, cells)
    requires (i > 0 ==> Touching(cells, i - 1)) && (i + 1 < |cells| ==> Touching(cells, i))
    requires SameOutside(m, m1, Joined(cells, i).addr, TailOf(cells[i].addr, cells[i].size) + 8)
    requires !FreeAt(cells, i - 1) ==> m1 == m
    requires var j, tail := Joined(cells, i), TailOf(cells[i].addr, cells[i].size);
             m2 == if FreeAt(cells, i + 1) then Stored(m1, j.addr, j.size, marked)
                   else Written(Written(m1, tail, Word(j.size - OVERHEAD, true)), j.addr, Word(j.size, true))
    ensures Holds(m2, Coalesced(cells, i)) <==> LeavesRoom(cells, i)
  {
    hide Coalesced, Holds, LeavesRoom, Apart, HoldsCell, Written, NoFreeNeighbours, SameOutside, Stored;
    hide Touching, TailOf;
    if FreeAt(cells, i + 1) {
      AfterBehind(m, m1, cells, i, marked);
    } else if FreeAt(cells, i - 1) {
      AfterBefore(m1, cells, i);
    } else {
      AfterNone(m, cells, i);
    }
  }

  // ---------------------------------------------------------------- one allocation, in memory

  function Align8(a: int): int { (a + 7) / 8 * 8 }

  /** The block handed out, and the rest as a block of its own at the next multiple of eight. */
  function Parts(c: Cell, needed: int): seq<Cell>
    requires 0 <= needed <= c.size
  {
    if Remainder(c.size, needed) == 0 then [c.(isFree := false)]
    else
      var first := Cell(c.addr, needed, false);
      var at := Align8(EndOf(first));
      [first, Cell(at, c.size - needed - (at - EndOf(first)), true)]
  }

  function Split(cells: seq<Cell>, k: nat, needed: int): seq<Cell>
    requires k < |cells| && 0 <= needed <= cells[k].size
  {
    cells[..k] + Parts(cells[k], needed) + cells[k + 1..]
  }

  lemma PartsFit(c: Cell, needed: int)
    requires MIN_BLOCK <= needed <= c.size
    ensures var parts := Parts(c, needed);
            && 1 <= |parts| <= 2 && (|parts| == 2 <==> c.size - needed >= MIN_BLOCK)
            && parts[0] == Cell(c.addr, if |parts| == 2 then needed else c.size, false)
            && (|parts| == 1 ==> EndOf(parts[0]) == EndOf(c))
            && (|parts| == 2 ==>
                 && parts[1] == Cell(Align8(EndOf(parts[0])), c.size - needed - (parts[1].addr - EndOf(parts[0])), true)
                 && EndOf(parts[0]) <= parts[1].addr < EndOf(parts[0]) + 8 && EndOf(parts[1]) == EndOf(c) - 7
                 && parts[1].size >= OVERHEAD)
  {
  }

  lemma PartsHold(m: Memory, m': Memory, cells: seq<Cell>, k: nat, needed: int)
    requires k < |cells| && Apart(cells) && Holds(m, cells) && 0 <= needed <= cells[k].size
    requires SameOutside(m, m', cells[k].addr, EndOf(cells[k])) && Holds(m', Parts(cells[k], needed))
    ensures Holds(m', Split(cells, k, needed))
  {
    var parts, after := Parts(cells[k], needed), Split(cells, k, needed);
    forall j | 0 <= j < |after| ensures HoldsCell(m', after[j]) {
      if j < k {
        assert after[j] == cells[j] && HoldsCell(m, cells[j]) && EndOf(cells[j]) <= cells[k].addr;
      } else if j < k + |parts| {
        assert after[j] == parts[j - k];
      } else {
        var i := k + 1 + (j - k - |parts|);
        assert after[j] == cells[i] && HoldsCell(m, cells[i]) && EndOf(cells[k]) <= cells[i].addr;
      }
    }
  }

  lemma SameIsSame(m: Memory, lo: int, hi: int)
    ensures SameOutside(m, m, lo, hi)
  {
  }

  lemma BothHold(m: Memory, parts: seq<Cell>)
    requires 1 <= |parts| <= 2 && HoldsCell(m, parts[0]) && (|parts| == 2 ==> HoldsCell(m, parts[1]))
    ensures Holds(m, parts)
  {
  }

  /** Header and tail of a block. */
  function Labelled(m: Memory, c: Cell): Memory {
    Written(Written(m, c.addr, Word(c.size, c.isFree)), TailOf(c.addr, c.size), Word(c.size - OVERHEAD, c.isFree))
  }

  /** Storing the two words of a block inside a stretch. */
  lemma PairStored(m: Memory, was: Memory, c: Cell, lo: int, hi: int)
    requires c.size >= OVERHEAD && SameOutside(m, was, lo, hi) && lo <= c.addr && EndOf(c) <= hi
    ensures var m' := Labelled(was, c);
            && HoldsCell(m', c) && SameOutside(m, m', lo, hi)
            && forall b :: HoldsCell(was, b) && b.size >= OVERHEAD && EndOf(b) <= c.addr ==> HoldsCell(m', b)
  {
    var m1 := Written(was, c.addr, Word(c.size, c.isFree));
    StoreStaysInside(m, was, c.addr, Word(c.size, c.isFree), lo, hi);
    StoreStaysInside(m, m1, TailOf(c.addr, c.size), Word(c.size - OVERHEAD, c.isFree), lo, hi);
  }

  lemma LabelledHolds(m: Memory, m': Memory, cells: seq<Cell>, k: nat, needed: int)
    requires k < |cells| && Apart(cells) && Holds(m, cells) && MIN_BLOCK <= needed <= cells[k].size
    requires var parts := Parts(cells[k], needed);
             && parts != []
             && m' == if |parts| == 1 then Labelled(m, parts[0]) else Labelled(Labelled(m, parts[0]), parts[1])
    ensures Holds(m', Split(cells, k, needed))
  {
    var c, parts := cells[k], Parts(cells[k], needed);
    PartsFit(c, needed);
    SameIsSame(m, c.addr, EndOf(c));
    hide Holds, HoldsCell, Parts, Labelled, SameOutside, Align8, Split, Apart;
    PairStored(m, m, parts[0], c.addr, EndOf(c));
    if |parts| == 2 { PairStored(m, Labelled(m, parts[0]), parts[1], c.addr, EndOf(c)); }
    BothHold(m', parts);
    PartsHold(m, m', cells, k, needed);
  }

  lemma JoinedIs(cells: seq<Cell>, i: nat)
    requires i < |cells|
    ensures Joined(cells, i).addr == cells[if FreeAt(cells, i - 1) then i - 1 else i].addr
    ensures Joined(cells, i).size == cells[i].size + (if FreeAt(cells, i - 1) then cells[i - 1].size else 0)
                                     + (if FreeAt(cells, i + 1) then cells[i + 1].size else 0)
  {
  }

  lemma JoinedStarts(cells: seq<Cell>, i: nat)
    requires i < |cells| && Apart(cells)
    ensures Joined(cells, i).addr + 8 <= TailOf(cells[i].addr, cells[i].size)
  {
    if FreeAt(cells, i - 1) { assert EndOf(cells[i - 1]) <= cells[i].addr; }
  }

  lemma StoredTwice(m: Memory, first: int, tail: int, w: Word, w': Word, garbage: int -> Word)
    requires first + 8 <= tail
    ensures var m' := Written(Written(m, first, w), tail, w');
            SameOutside(m, m', first, tail + 8) && Read(m', tail + 8, garbage) == Read(m, tail + 8, garbage)
  {
  }

  lemma NeighboursTouch(cells: seq<Cell>, i: nat, marked: bool)
    requires i < |cells| && SeesNeighbours(cells, i, marked)
    ensures (i > 0 ==> Touching(cells, i - 1)) && (i + 1 < |cells| ==> Touching(cells, i))
  {
  }

  class Words {
    var memory: Memory
    const base: int
    const end: int

    constructor (memory: Memory, base: int, end: int)
      ensures this.memory == memory && this.base == base && this.end == end
    {
      this.memory, this.base, this.end := memory, base, end;
    }

    /** Whatever is written into the bytes between a header and its tail, links of the free list among it. */
    method WriteInside(a: int, w: Word, ghost cells: seq<Cell>, ghost i: nat)
      requires Holds(memory, cells) && Apart(cells)
      requires i < |cells| && cells[i].addr + 8 <= a && a + 8 <= TailOf(cells[i].addr, cells[i].size)
      modifies this
      ensures Holds(memory, cells)
    {
      ghost var m := memory;
      Store(a, w);
      forall j | 0 <= j < |cells| ensures HoldsCell(memory, cells[j]) {
        assert HoldsCell(m, cells[j]);
        assert i < j ==> EndOf(cells[i]) <= cells[j].addr;
        assert j < i ==> EndOf(cells[j]) <= cells[i].addr;
      }
    }

    method Store(a: int, w: Word)
      modifies this
      ensures memory == Written(old(memory), a, w)
    {
      memory := Written(memory, a, w);
    }

    /** Writes header and tail of a block. */
    method Label(ghost c: Cell, addr: int, size: int, free: bool)
      requires c == Cell(addr, size, free)
      modifies this
      ensures memory == Labelled(old(memory), c)
    {
      Store(addr, Word(size, free));
      Store(TailOf(addr, size), Word(size - OVERHEAD, free));
    }

    /** The headers and tails that handing out a free block writes, whole or with the rest split off. */
    method Take(head: int, needed: int, garbage: int -> Word, ghost cells: seq<Cell>, ghost k: nat)
      requires k < |cells| && cells[k].addr == head && cells[k].isFree && Apart(cells) && Holds(memory, cells)
      requires MIN_BLOCK <= needed <= cells[k].size
      modifies this
      ensures Holds(memory, Split(cells, k, needed))
    {
      ghost var m, parts := memory, Parts(cells[k], needed);
      assert HoldsCell(memory, cells[k]);
      PartsFit(cells[k], needed);
      var org := Read(memory, head, garbage).size;
      hide Holds, HoldsCell, Parts, Align8, Split, Apart, Labelled;
      var size := if org - needed < MIN_BLOCK then org else needed;
      Label(parts[0], head, size, false);
      if org - size >= MIN_BLOCK {
        var behind := TailOf(head, size) + 8;
        var at := Align8(behind);
        Label(parts[1], at, org - size - (at - behind), true);
      }
      LabelledHolds(m, memory, cells, k, needed);
    }

    /** Lets the free block that ends before a header grow over the block behind that header. */
    method JoinBefore(head: int, size: int, tail: int, garbage: int -> Word) returns (first: int, total: int)
      modifies this
      ensures var prev := head - 8;
              if prev > base && Read(old(memory), prev, garbage).free then
                && first == prev - (Read(old(memory), prev, garbage).size + 8)
                && total == Read(old(memory), first, garbage).size + size
                && memory == Written(Written(old(memory), first, Word(total, true)), tail, Word(total - OVERHEAD, true))
              else first == head && total == size && memory == old(memory)
    {
      first, total := head, size;
      var prevTail := head - 8;
      if prevTail > base && Read(memory, prevTail, garbage).free {
        first := prevTail - (Read(memory, prevTail, garbage).size + 8);
        total := Read(memory, first, garbage).size + size;
        Store(first, Word(total, true));
        Store(tail, Word(total - OVERHEAD, true));
      }
    }

    /** Lets a block grow over the free block that begins behind a tail, and writes its tail and header. */
    method JoinBehind(first: int, size: int, tail: int, marked: bool, garbage: int -> Word)
      modifies this
      ensures var next := tail + 8;
              if next < end && Read(old(memory), next, garbage).free then
                var total := size + Read(old(memory), next, garbage).size;
                memory == Stored(old(memory), first, total, marked)
              else memory == Written(Written(old(memory), tail, Word(size - OVERHEAD, true)), first, Word(size, true))
    {
      hide Written, Read, TailOf;
      var total, last, nextHead := size, tail, tail + 8;
      if nextHead < end && Read(memory, nextHead, garbage).free {
        total := total + Read(memory, nextHead, garbage).size;
        Store(first, Word(total, marked));
        last := TailOf(first, total);
      }
      Store(last, Word(total - OVERHEAD, true));
      Store(first, Word(total, true));
    }

    /** The first half of a free, seen from the layout. */
    method JoinCells(head: int, garbage: int -> Word, ghost cells: seq<Cell>, ghost i: nat)
      returns (first: int, total: int, tail: int)
      requires i < |cells| && cells[i].addr == head && !cells[i].isFree && Apart(cells)
      requires Holds(memory, cells) && base == cells[0].addr && cells[|cells| - 1].addr < end
      requires SeesNeighbours(cells, i, EndOf(cells[i]) < end && Read(memory, EndOf(cells[i]), garbage).free)
      modifies this
      ensures tail == TailOf(cells[i].addr, cells[i].size) && first == Joined(cells, i).addr
      ensures total == cells[i].size + if FreeAt(cells, i - 1) then cells[i - 1].size else 0
      ensures SameOutside(old(memory), memory, first, tail + 8)
      ensures !FreeAt(cells, i - 1) ==> memory == old(memory)
      ensures tail + 8 < end && Read(memory, tail + 8, garbage).free <==> FreeAt(cells, i + 1)
      ensures FreeAt(cells, i + 1) ==>
                i + 1 < |cells| && Joined(cells, i).size == total + Read(memory, tail + 8, garbage).size
      ensures !FreeAt(cells, i + 1) ==> Joined(cells, i).size == total
    {
      ghost var m := memory;
      ReadsNeighbours(memory, cells, i, base, end, garbage);
      assert HoldsCell(memory, cells[i]);
      JoinedIs(cells, i);
      JoinedStarts(cells, i);
      hide Holds, HoldsCell, SeesNeighbours, Apart, SameOutside, Joined, Touching, Written;
      var size := Read(memory, head, garbage).size;
      tail := TailOf(head, size);
      first, total := JoinBefore(head, size, tail, garbage);
      if FreeAt(cells, i - 1) {
        StoredTwice(m, first, tail, Word(total, true), Word(total - OVERHEAD, true), garbage);
      } else {
        SameIsSame(m, first, tail + 8);
      }
    }

    /**
     * Freeing the block with a given header, when the words before and behind it are real: afterwards headers and tails
     * are those of the layout with the block and its free neighbours joined if and only if there is room for that.
     */
    method Free(head: int, garbage: int -> Word, ghost cells: seq<Cell>, ghost i: nat)
      requires i < |cells| && cells[i].addr == head && !cells[i].isFree && Apart(cells) && NoFreeNeighbours(cells)
      requires Holds(memory, cells) && base == cells[0].addr && cells[|cells| - 1].addr < end
      requires SeesNeighbours(cells, i, EndOf(cells[i]) < end && Read(memory, EndOf(cells[i]), garbage).free)
      modifies this
      ensures Holds(memory, Coalesced(cells, i)) <==> LeavesRoom(cells, i)
    {
      hide *;
      NeighboursTouch(cells, i, EndOf(cells[i]) < end && Read(memory, EndOf(cells[i]), garbage).free);
      var first, total, tail := JoinCells(head, garbage, cells, i);
      ghost var m1 := memory;
      JoinBehind(first, total, tail, first != head, garbage);
      FreedIff(old(memory), m1, memory, cells, i, first != head);
    }
  }
}
