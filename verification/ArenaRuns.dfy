/** Runs of the arena in which every free finds and leaves its headers and tails where they belong. */
module ArenaRuns {
  import opened ArenaLayout
  import opened ArenaModel
  import opened Basics

  // ---------------------------------------------------------------- runs

  /** An allocation from the `k`-th block, or the return of the `i`-th; `marked` says what is behind the last block. */
  datatype Op = DoAlloc(k: nat, request: nat) | DoFree(i: nat, marked: bool)

  /** A free block that is large enough, and no larger than any other such. */
  predicate IsBestFit(cells: seq<Cell>, k: nat, needed: nat) {
    && k < |cells| && cells[k].isFree && needed <= cells[k].size
    && forall j :: 0 <= j < |cells| && cells[j].isFree && needed <= cells[j].size ==> cells[k].size <= cells[j].size
  }

  predicate Allowed(cells: seq<Cell>, op: Op) {
    match op
    case DoAlloc(k, request) => 0 < request <= WORD - 24 && IsBestFit(cells, k, Needed(request))
    case DoFree(i, _) => i < |cells| && !cells[i].isFree
  }

  predicate AllLarge(cells: seq<Cell>) { forall i :: 0 <= i < |cells| ==> cells[i].size >= MIN_BLOCK }

  /** The two links of the free list follow the header: they lie before the tail exactly if the block is large. */
  lemma LinksFitIff(c: Cell)
    ensures c.addr + 8 + 16 <= TailOf(c.addr, c.size) <==> c.size >= MIN_BLOCK
  {
  }

  /**
   * An allocation leaves no free block that is too small for its links; a free reads real headers and tails, and there
   * is room for the tail it writes.
   */
  predicate IsClean(cells: seq<Cell>, op: Op)
    requires Allowed(cells, op)
  {
    match op
    case DoAlloc(k, request) => AllLarge(Parts(cells[k], Needed(request)))
    case DoFree(i, marked) => SeesNeighbours(cells, i, marked) && LeavesRoom(cells, i)
  }

  function Next(cells: seq<Cell>, op: Op): seq<Cell>
    requires Allowed(cells, op)
  {
    match op
    case DoAlloc(k, request) => Split(cells, k, Needed(request))
    case DoFree(i, _) => Coalesced(cells, i)
  }

  /** A run goes on as long as every operation is clean: behind any other, headers and tails need not be its blocks'. */
  ghost predicate IsRun(run: seq<seq<Cell>>, ops: seq<Op>, base: int, bytes: nat) {
    && base % 8 == 0 && bytes >= MIN_BLOCK && |run| == |ops| + 1 && run[0] == [Cell(base, bytes, true)]
    && forall k :: 0 <= k < |ops| ==>
         Allowed(run[k], ops[k]) && IsClean(run[k], ops[k]) && run[k + 1] == Next(run[k], ops[k])
  }

  // ---------------------------------------------------------------- what is conserved

  function Gap(a: seq<Cell>, b: seq<Cell>): int {
    if a == [] || b == [] then 0 else (b[0].addr - EndOf(a[|a| - 1])) % 7
  }

  /** The sizes of all blocks, and what alignment has put between them beyond the seven bytes that each keeps for it. */
  function Weight(cells: seq<Cell>): int {
    if cells == [] then 0 else cells[0].size + Gap(cells[..1], cells[1..]) + Weight(cells[1..])
  }

  lemma {:induction false} WeightJoins(a: seq<Cell>, b: seq<Cell>)
    ensures Weight(a + b) == Weight(a) + Gap(a, b) + Weight(b)
  {
    if a == [] {
      assert a + b == b;
    } else {
      WeightJoins(a[1..], b);
      assert (a + b)[1..] == a[1..] + b && (a + b)[..1] == a[..1];
      if |a| == 1 {
        assert a[1..] + b == b;
      } else {
        assert (a[1..] + b)[0] == a[1..][0] && a[1..][|a| - 2] == a[|a| - 1];
      }
    }
  }

  /** They end a multiple of seven bytes apart. */
  predicate SameEnd(c: Cell, c': Cell) { (EndOf(c) - EndOf(c')) % 7 == 0 }

  lemma SameGap(a: seq<Cell>, a': seq<Cell>, b: seq<Cell>, b': seq<Cell>)
    requires a == a' == [] || (a != [] && a' != [] && SameEnd(a[|a| - 1], a'[|a'| - 1]))
    requires b == b' == [] || (b != [] && b' != [] && b[0].addr == b'[0].addr)
    ensures Gap(a, b) == Gap(a', b')
  {
  }

  /** Replacing a stretch of blocks by one of the same weight, with the same ends but for multiples of seven. */
  lemma WeightReplaced(a: seq<Cell>, mid: seq<Cell>, mid': seq<Cell>, b: seq<Cell>)
    requires mid != [] && mid' != [] && Weight(mid) == Weight(mid') && mid[0].addr == mid'[0].addr
    requires SameEnd(mid[|mid| - 1], mid'[|mid'| - 1])
    ensures Weight(a + mid + b) == Weight(a + mid' + b)
  {
    assert (a + mid)[|a + mid| - 1] == mid[|mid| - 1] && (a + mid')[|a + mid'| - 1] == mid'[|mid'| - 1];
    SameGap(a + mid, a + mid', b, b);
    SameGap(a, a, mid, mid');
    hide *;
    WeightJoins(a + mid, b);
    WeightJoins(a, mid);
    WeightJoins(a + mid', b);
    WeightJoins(a, mid');
  }

  predicate InOrder(cells: seq<Cell>) { Apart(cells) && NoFreeNeighbours(cells) }

  /** What holds in every state of a run. */
  predicate Sound(cells: seq<Cell>, base: int, bytes: nat) {
    && cells != [] && cells[0].addr == base && InOrder(cells) && AllLarge(cells)
    && (forall i :: 0 <= i < |cells| ==> cells[i].addr % 8 == 0) && Weight(cells) == bytes
    && InMemory(cells, base + bytes)
  }

  /** From every block on there is room for what the rest of the blocks weigh. */
  predicate InMemory(cells: seq<Cell>, top: int) {
    forall i :: 0 <= i < |cells| ==> cells[i].addr + Weight(cells[i..]) <= top
  }

  lemma Slices(a: seq<Cell>, mid: seq<Cell>, b: seq<Cell>, i: nat)
    requires i <= |a + mid + b|
    ensures (a + mid + b)[i..] ==
            if i <= |a| then a[i..] + mid + b
            else if i <= |a| + |mid| then mid[i - |a|..] + b else b[i - |a| - |mid|..]
  {
  }

  lemma RoomReplaced(a: seq<Cell>, mid: seq<Cell>, mid': seq<Cell>, b: seq<Cell>, top: int)
    requires mid != [] && mid' != [] && Weight(mid) == Weight(mid') && mid[0].addr == mid'[0].addr
    requires SameEnd(mid[|mid| - 1], mid'[|mid'| - 1]) && InMemory(a + mid + b, top)
    requires forall i :: 1 <= i < |mid'| ==> mid'[i].addr + Weight(mid'[i..] + b) <= top
    ensures InMemory(a + mid' + b, top)
  {
    var before, after := a + mid + b, a + mid' + b;
    hide Weight, SameEnd, Gap, EndOf;
    forall i | 0 <= i < |after| ensures after[i].addr + Weight(after[i..]) <= top {
      Slices(a, mid', b, i);
      if i <= |a| {
        Slices(a, mid, b, i);
        assert before[i].addr + Weight(before[i..]) <= top;
        WeightReplaced(a[i..], mid, mid', b);
      } else if i >= |a| + |mid'| {
        var k := i - |mid'| + |mid|;
        Slices(a, mid, b, k);
        assert before[k].addr + Weight(before[k..]) <= top;
      }
    }
  }

  /** Blocks of requests are aligned, but for those that are raised to the least size: these miss it by one byte. */
  lemma NeededAligns(request: nat)
    requires 0 < request <= WORD - 24
    ensures Needed(request) >= MIN_BLOCK + OVERHEAD
    ensures if request < MIN_BLOCK then Needed(request) == 62 else Needed(request) % 8 == 7
  {
  }

  /** The rest begins at most one byte behind the block handed out. */
  lemma RestIsNear(addr: int, request: nat)
    requires 0 < request <= WORD - 24 && addr % 8 == 0
    ensures var end := addr + Needed(request) - 7; Align8(end) % 8 == 0 && 0 <= Align8(end) - end <= 1
  {
    NeededAligns(request);
  }

  lemma PartsWeigh(c: Cell, request: nat)
    requires 0 < request <= WORD - 24 && Needed(request) <= c.size && c.addr % 8 == 0
    ensures var parts := Parts(c, Needed(request));
            && Weight(parts) == c.size && parts != [] && parts[0].addr == c.addr
            && SameEnd(c, parts[|parts| - 1])
            && forall i :: 0 <= i < |parts| ==> parts[i].addr % 8 == 0
  {
    NeededAligns(request);
    RestIsNear(c.addr, request);
    PartsFit(c, Needed(request));
    var parts := Parts(c, Needed(request));
    hide Parts, Weight, Needed, Align8;
    OneWeighs(parts[0]);
    if |parts| == 2 {
      assert parts == [parts[0]] + [parts[1]];
      OneWeighs(parts[1]);
      WeightJoins([parts[0]], [parts[1]]);
    } else {
      assert parts == [parts[0]];
    }
  }

  lemma OneWeighs(c: Cell)
    ensures Weight([c]) == c.size
  {
  }

  lemma RestFits(cells: seq<Cell>, k: nat, request: nat, top: int)
    requires 0 < request <= WORD - 24 && k < |cells| && Needed(request) <= cells[k].size && cells[k].addr % 8 == 0
    requires InMemory(cells, top)
    ensures var parts := Parts(cells[k], Needed(request));
            |parts| > 1 ==> parts[1].addr + Weight(parts[1..] + cells[k + 1..]) <= top
  {
    var parts, b := Parts(cells[k], Needed(request)), cells[k + 1..];
    NeededAligns(request);
    PartsFit(cells[k], Needed(request));
    PartsWeigh(cells[k], request);
    if |parts| > 1 {
      assert cells[k..] == [] + [cells[k]] + b && parts == [parts[0]] + parts[1..];
      assert [] + parts + b == parts + b == [parts[0]] + (parts[1..] + b);
      OneWeighs(cells[k]);
      WeightReplaced([], [cells[k]], parts, b);
      OneWeighs(parts[0]);
      WeightJoins([parts[0]], parts[1..] + b);
      assert Gap([parts[0]], parts[1..] + b) == (parts[1].addr - EndOf(parts[0])) % 7;
      assert cells[k].addr + Weight(cells[k..]) <= top;
    }
  }

  lemma AllocKeepsWeight(cells: seq<Cell>, k: nat, request: nat)
    requires 0 < request <= WORD - 24 && k < |cells| && Needed(request) <= cells[k].size && cells[k].addr % 8 == 0
    ensures Weight(Split(cells, k, Needed(request))) == Weight(cells)
  {
    var parts, a, c, b := Parts(cells[k], Needed(request)), cells[..k], [cells[k]], cells[k + 1..];
    PartsWeigh(cells[k], request);
    assert cells == a + c + b;
    OneWeighs(cells[k]);
    hide Weight, Parts, SameEnd, Needed;
    WeightReplaced(a, c, parts, b);
  }

  lemma AllocStaysInMemory(cells: seq<Cell>, k: nat, request: nat, top: int)
    requires 0 < request <= WORD - 24 && k < |cells| && Needed(request) <= cells[k].size && cells[k].addr % 8 == 0
    requires InMemory(cells, top)
    ensures InMemory(Split(cells, k, Needed(request)), top)
  {
    var parts, a, c, b := Parts(cells[k], Needed(request)), cells[..k], [cells[k]], cells[k + 1..];
    NeededAligns(request);
    PartsWeigh(cells[k], request);
    PartsFit(cells[k], Needed(request));
    assert cells == a + c + b;
    OneWeighs(cells[k]);
    hide Weight, Parts, SameEnd, InMemory, Needed;
    RestFits(cells, k, request, top);
    RoomReplaced(a, c, parts, b, top);
  }

  lemma SplitAddresses(cells: seq<Cell>, k: nat, needed: int)
    requires k < |cells| && 0 <= needed <= cells[k].size && Parts(cells[k], needed) != []
    requires Parts(cells[k], needed)[0].addr == cells[k].addr
    requires forall i :: 0 <= i < |Parts(cells[k], needed)| ==> Parts(cells[k], needed)[i].addr % 8 == 0
    requires forall i :: 0 <= i < |cells| ==> cells[i].addr % 8 == 0
    ensures var after := Split(cells, k, needed);
            && after != [] && after[0].addr == cells[0].addr
            && forall i :: 0 <= i < |after| ==> after[i].addr % 8 == 0
  {
    hide Parts;
  }

  lemma SplitStaysLarge(cells: seq<Cell>, k: nat, needed: int)
    requires k < |cells| && 0 <= needed <= cells[k].size && AllLarge(cells) && AllLarge(Parts(cells[k], needed))
    ensures AllLarge(Split(cells, k, needed))
  {
    hide Parts;
  }

  /** The one case in which an allocation leaves too small a block: what is left of 101 bytes by a small request. */
  lemma TooSmallRestIff(c: Cell, request: nat)
    requires 0 < request <= WORD - 24 && Needed(request) <= c.size && c.addr % 8 == 0 && c.size >= MIN_BLOCK
    ensures AllLarge(Parts(c, Needed(request))) <==> !(request < MIN_BLOCK && c.size == 101)
  {
    NeededAligns(request);
    RestIsNear(c.addr, request);
    PartsFit(c, Needed(request));
  }

  lemma AllocStaysSound(cells: seq<Cell>, k: nat, request: nat, base: int, bytes: nat)
    requires Sound(cells, base, bytes) && Allowed(cells, DoAlloc(k, request)) && IsClean(cells, DoAlloc(k, request))
    ensures Sound(Split(cells, k, Needed(request)), base, bytes)
  {
    NeededAligns(request);
    PartsWeigh(cells[k], request);
    SplitAddresses(cells, k, Needed(request));
    hide Parts, Weight, InMemory, Apart, NoFreeNeighbours, SameEnd, Split, Needed;
    SplitStaysLarge(cells, k, Needed(request));
    AllocKeepsWeight(cells, k, request);
    AllocStaysInMemory(cells, k, request, base + bytes);
    SplitStaysInOrder(cells, k, Needed(request));
  }

  /** The last of some blocks ends before the first of others, and one of the two is in use. */
  predicate Meet(a: seq<Cell>, b: seq<Cell>) {
    a == [] || b == [] || (EndOf(a[|a| - 1]) <= b[0].addr && !(a[|a| - 1].isFree && b[0].isFree))
  }

  lemma OrderSplits(a: seq<Cell>, b: seq<Cell>)
    requires InOrder(a + b)
    ensures InOrder(a) && InOrder(b) && Meet(a, b)
  {
    var c := a + b;
    assert (forall i :: 0 <= i < |a| ==> c[i] == a[i]) && forall i :: 0 <= i < |b| ==> c[|a| + i] == b[i];
    if a != [] && b != [] { assert c[|a| - 1] == a[|a| - 1] && c[|a|] == b[0]; }
    forall i | 0 <= i < |b| - 1 ensures !(b[i].isFree && b[i + 1].isFree) {
      assert c[|a| + i] == b[i] && c[|a| + i + 1] == b[i + 1];
    }
    forall i, j | 0 <= i < j < |b| ensures EndOf(b[i]) <= b[j].addr {
      assert c[|a| + i] == b[i] && c[|a| + j] == b[j];
    }
  }

  lemma OrderJoins(a: seq<Cell>, b: seq<Cell>)
    requires InOrder(a) && InOrder(b) && Meet(a, b)
    ensures InOrder(a + b)
  {
    var c := a + b;
    forall i, j | 0 <= i < j < |c| ensures EndOf(c[i]) <= c[j].addr {
      if i < |a| <= j {
        assert i < |a| - 1 ==> EndOf(a[i]) <= a[|a| - 1].addr;
        assert j > |a| ==> EndOf(b[0]) <= b[j - |a|].addr;
      }
    }
  }

  /** Replacing a stretch of blocks by others in order that meet the same neighbours. */
  lemma OrderReplaced(a: seq<Cell>, mid: seq<Cell>, mid': seq<Cell>, b: seq<Cell>)
    requires InOrder(a + mid + b) && InOrder(mid') && mid != [] && mid' != []
    requires Meet(a, mid') && Meet(mid', b)
    ensures InOrder(a + mid' + b)
  {
    assert (a + mid)[|a + mid| - 1] == mid[|mid| - 1] && (a + mid')[|a + mid'| - 1] == mid'[|mid'| - 1];
    assert Meet(mid', b) ==> Meet(a + mid', b);
    hide InOrder, Meet;
    OrderSplits(a + mid, b);
    OrderSplits(a, mid);
    OrderJoins(a, mid');
    OrderJoins(a + mid', b);
  }

  lemma SplitStaysInOrder(cells: seq<Cell>, k: nat, needed: int)
    requires k < |cells| && InOrder(cells) && cells[k].isFree && MIN_BLOCK <= needed <= cells[k].size
    ensures InOrder(Split(cells, k, needed))
  {
    var parts, a, c, b := Parts(cells[k], needed), cells[..k], [cells[k]], cells[k + 1..];
    PartsFit(cells[k], needed);
    hide Parts;
    assert cells == a + c + b && InOrder(parts);
    assert a != [] ==> a[k - 1] == cells[k - 1] && EndOf(cells[k - 1]) <= cells[k].addr;
    assert b != [] ==> b[0] == cells[k + 1] && EndOf(cells[k]) <= cells[k + 1].addr;
    assert Meet(a, parts) && Meet(parts, b);
    OrderReplaced(a, c, parts, b);
  }

  /** The blocks that a free joins. */
  function Around(cells: seq<Cell>, i: nat): seq<Cell>
    requires i < |cells|
  {
    cells[if FreeAt(cells, i - 1) then i - 1 else i..if FreeAt(cells, i + 1) then i + 2 else i + 1]
  }

  lemma TouchingWeigh(x: Cell, rest: seq<Cell>)
    requires rest == [] || EndOf(x) == rest[0].addr
    ensures Weight([x] + rest) == x.size + Weight(rest)
  {
    assert ([x] + rest)[1..] == rest && ([x] + rest)[..1] == [x];
  }

  lemma AroundEnds(cells: seq<Cell>, i: nat, marked: bool)
    requires i < |cells| && SeesNeighbours(cells, i, marked)
    ensures var mid := Around(cells, i);
            mid != [] && mid[0].addr == Joined(cells, i).addr && SameEnd(mid[|mid| - 1], Joined(cells, i))
  {
  }

  lemma AroundParts(cells: seq<Cell>, i: nat)
    requires i < |cells|
    ensures var c, b := cells[i], if FreeAt(cells, i + 1) then [cells[i + 1]] else [];
            Around(cells, i) == if FreeAt(cells, i - 1) then [cells[i - 1]] + ([c] + b) else [c] + b
  {
  }

  lemma AroundWeighs(cells: seq<Cell>, i: nat, marked: bool)
    requires i < |cells| && SeesNeighbours(cells, i, marked)
    ensures var mid := Around(cells, i);
            && mid != [] && mid[0].addr == Joined(cells, i).addr && Weight(mid) == Joined(cells, i).size
            && SameEnd(mid[|mid| - 1], Joined(cells, i))
  {
    var c, b := cells[i], if FreeAt(cells, i + 1) then [cells[i + 1]] else [];
    AroundEnds(cells, i, marked);
    AroundParts(cells, i);
    JoinedIs(cells, i);
    NeighboursTouch(cells, i, marked);
    NoneWeighs();
    if b != [] { OneWeighs(b[0]); }
    hide Weight, Around, Joined, SeesNeighbours, EndOf, SameEnd;
    TouchingWeigh(c, b);
    if FreeAt(cells, i - 1) { TouchingWeigh(cells[i - 1], [c] + b); }
  }

  lemma NoneWeighs()
    ensures Weight([]) == 0
  {
  }

  lemma AroundAre(cells: seq<Cell>, i: nat)
    requires i < |cells|
    ensures var lo, hi := if FreeAt(cells, i - 1) then i - 1 else i, if FreeAt(cells, i + 1) then i + 2 else i + 1;
            && cells == cells[..lo] + Around(cells, i) + cells[hi..]
            && Coalesced(cells, i) == cells[..lo] + [Joined(cells, i)] + cells[hi..]
  {
  }

  lemma FreeKeepsWeight(cells: seq<Cell>, i: nat, marked: bool)
    requires i < |cells| && SeesNeighbours(cells, i, marked)
    ensures Weight(Coalesced(cells, i)) == Weight(cells)
  {
    var lo, hi := if FreeAt(cells, i - 1) then i - 1 else i, if FreeAt(cells, i + 1) then i + 2 else i + 1;
    var a, mid, j, b := cells[..lo], Around(cells, i), [Joined(cells, i)], cells[hi..];
    hide Weight, EndOf, Joined, Around, Coalesced, SeesNeighbours, Gap, TailOf, SameEnd;
    AroundAre(cells, i);
    AroundWeighs(cells, i, marked);
    OneWeighs(Joined(cells, i));
    assert j[|j| - 1] == Joined(cells, i);
    WeightReplaced(a, mid, j, b);
  }

  lemma FreeStaysInOrder(cells: seq<Cell>, i: nat)
    requires i < |cells| && InOrder(cells) && !cells[i].isFree && LeavesRoom(cells, i)
    ensures InOrder(Coalesced(cells, i))
  {
    assert Around(cells, i) != [];
    AroundAre(cells, i);
    JoinedMeets(cells, i);
    hide InOrder, Meet, Joined, Around, LeavesRoom, Coalesced;
    OrderReplaced(cells[..if FreeAt(cells, i - 1) then i - 1 else i], Around(cells, i), [Joined(cells, i)],
                  cells[if FreeAt(cells, i + 1) then i + 2 else i + 1..]);
  }

  lemma FreeStaysInMemory(cells: seq<Cell>, i: nat, marked: bool, top: int)
    requires i < |cells| && SeesNeighbours(cells, i, marked) && InMemory(cells, top)
    ensures InMemory(Coalesced(cells, i), top)
  {
    var lo, hi := if FreeAt(cells, i - 1) then i - 1 else i, if FreeAt(cells, i + 1) then i + 2 else i + 1;
    var a, mid, j, b := cells[..lo], Around(cells, i), [Joined(cells, i)], cells[hi..];
    hide Weight, EndOf, Joined, Around, Coalesced, SeesNeighbours, Gap, TailOf, SameEnd, InMemory;
    AroundAre(cells, i);
    AroundWeighs(cells, i, marked);
    OneWeighs(Joined(cells, i));
    assert j[|j| - 1] == Joined(cells, i);
    RoomReplaced(a, mid, j, b, top);
  }

  lemma FreeStaysLarge(cells: seq<Cell>, i: nat)
    requires i < |cells| && AllLarge(cells)
    ensures AllLarge(Coalesced(cells, i))
  {
  }

  lemma FreeStaysSound(cells: seq<Cell>, i: nat, marked: bool, base: int, bytes: nat)
    requires Sound(cells, base, bytes) && Allowed(cells, DoFree(i, marked)) && IsClean(cells, DoFree(i, marked))
    ensures Sound(Coalesced(cells, i), base, bytes)
  {
    FreeKeepsWeight(cells, i, marked);
    FreeStaysLarge(cells, i);
    FreeStaysInOrder(cells, i);
    AddressesStay(cells, i);
    FreeStaysInMemory(cells, i, marked, base + bytes);
  }

  lemma AddressesStay(cells: seq<Cell>, i: nat)
    requires i < |cells| && forall k :: 0 <= k < |cells| ==> cells[k].addr % 8 == 0
    ensures var after := Coalesced(cells, i);
            && after != [] && after[0].addr == cells[0].addr
            && forall k :: 0 <= k < |after| ==> after[k].addr % 8 == 0
  {
  }

  lemma JoinedMeets(cells: seq<Cell>, i: nat)
    requires i < |cells| && InOrder(cells) && !cells[i].isFree && LeavesRoom(cells, i)
    ensures InOrder([Joined(cells, i)])
    ensures Meet(cells[..if FreeAt(cells, i - 1) then i - 1 else i], [Joined(cells, i)])
    ensures Meet([Joined(cells, i)], cells[if FreeAt(cells, i + 1) then i + 2 else i + 1..])
  {
    var lo := if FreeAt(cells, i - 1) then i - 1 else i;
    if lo > 0 { assert cells[..lo][lo - 1] == cells[lo - 1] && EndOf(cells[lo - 1]) <= cells[lo].addr; }
  }

  lemma NextStaysSound(cells: seq<Cell>, op: Op, base: int, bytes: nat)
    requires Sound(cells, base, bytes) && Allowed(cells, op) && IsClean(cells, op)
    ensures Sound(Next(cells, op), base, bytes)
  {
    match op
    case DoAlloc(j, request) => AllocStaysSound(cells, j, request, base, bytes);
    case DoFree(i, marked) => FreeStaysSound(cells, i, marked, base, bytes);
  }

  /**
   * In every state of every run the blocks are in order and apart, no two free ones are neighbours, and sizes and bytes
   * lost to alignment make up the memory.
   */
  lemma {:induction false} EveryRunIsSound(run: seq<seq<Cell>>, ops: seq<Op>, base: int, bytes: nat, k: nat)
    requires IsRun(run, ops, base, bytes) && k < |run|
    ensures Sound(run[k], base, bytes)
  {
    if k == 0 {
      assert Weight(run[0]) == bytes;
    } else {
      EveryRunIsSound(run, ops, base, bytes, k - 1);
      NextStaysSound(run[k - 1], ops[k - 1], base, bytes);
    }
  }

  /** Once everything has been given back, the memory is one free block again, as it was at first. */
  lemma AllBackIsWhole(run: seq<seq<Cell>>, ops: seq<Op>, base: int, bytes: nat, k: nat)
    requires IsRun(run, ops, base, bytes) && k < |run|
    requires forall i :: 0 <= i < |run[k]| ==> run[k][i].isFree
    ensures run[k] == [Cell(base, bytes, true)]
  {
    EveryRunIsSound(run, ops, base, bytes, k);
    assert Weight(run[k]) == run[k][0].size;
  }

  // ---------------------------------------------------------------- last out, first back

  /** Blocks in use that touch one another, and behind them a free block, if there is any. */
  predicate IsStack(cells: seq<Cell>) {
    cells != [] && forall i :: 0 <= i < |cells| - 1 ==> Touching(cells, i) && !cells[i].isFree
  }

  /** A request that needs no padding, or the return of the last block handed out. */
  predicate IsStackOp(cells: seq<Cell>, op: Op) {
    match op
    case DoAlloc(_, request) => request >= MIN_BLOCK
    case DoFree(i, marked) => !marked && i + (if |cells| > 0 && cells[|cells| - 1].isFree then 2 else 1) == |cells|
  }

  lemma StackAlloc(cells: seq<Cell>, k: nat, request: nat)
    requires IsStack(cells) && k < |cells| && cells[k].isFree && cells[k].addr % 8 == 0 && cells[k].size >= MIN_BLOCK
    requires MIN_BLOCK <= request <= WORD - 24 && Needed(request) <= cells[k].size
    ensures IsStack(Split(cells, k, Needed(request))) && AllLarge(Parts(cells[k], Needed(request)))
  {
    NeededAligns(request);
    PartsFit(cells[k], Needed(request));
    var parts, after := Parts(cells[k], Needed(request)), Split(cells, k, Needed(request));
    assert k == |cells| - 1 && (|parts| == 2 ==> parts[1].addr == EndOf(parts[0]));
    hide Parts;
    forall i | 0 <= i < |after| - 1 ensures Touching(after, i) && !after[i].isFree {
      if i < k { assert Touching(cells, i) && after[i] == cells[i] && after[i + 1].addr == cells[i + 1].addr; }
    }
  }

  lemma StackFree(cells: seq<Cell>, i: nat, marked: bool)
    requires IsStack(cells) && i < |cells| && !cells[i].isFree && IsStackOp(cells, DoFree(i, marked))
    ensures SeesNeighbours(cells, i, marked) && LeavesRoom(cells, i) && IsStack(Coalesced(cells, i))
  {
    assert i > 0 ==> Touching(cells, i - 1) && !cells[i - 1].isFree;
    assert i + 1 < |cells| ==> Touching(cells, i);
    var after := Coalesced(cells, i);
    assert |after| == i + 1 && after[i].addr == cells[i].addr;
    forall j | 0 <= j < i ensures Touching(after, j) && !after[j].isFree {
      assert Touching(cells, j) && after[j] == cells[j] && after[j + 1].addr == cells[j + 1].addr;
    }
  }

  lemma StackOpIsClean(cells: seq<Cell>, op: Op, base: int, bytes: nat)
    requires Sound(cells, base, bytes) && IsStack(cells) && Allowed(cells, op) && IsStackOp(cells, op)
    ensures IsClean(cells, op) && IsStack(Next(cells, op))
  {
    match op
    case DoAlloc(k, request) => StackAlloc(cells, k, request);
    case DoFree(i, marked) => StackFree(cells, i, marked);
  }

  /** Operations from a fresh arena, whether or not the frees are clean. */
  ghost predicate Follows(run: seq<seq<Cell>>, ops: seq<Op>, base: int, bytes: nat) {
    && base % 8 == 0 && bytes >= MIN_BLOCK && |run| == |ops| + 1 && run[0] == [Cell(base, bytes, true)]
    && forall k :: 0 <= k < |ops| ==> Allowed(run[k], ops[k]) && run[k + 1] == Next(run[k], ops[k])
  }

  /** Callers that give back the last block first, and ask for no less than the least size, keep every free clean. */
  lemma {:induction false} StackRunsAreClean(run: seq<seq<Cell>>, ops: seq<Op>, base: int, bytes: nat, k: nat)
    requires Follows(run, ops, base, bytes) && k < |run|
    requires forall j :: 0 <= j < |ops| ==> IsStackOp(run[j], ops[j])
    ensures IsRun(run[..k + 1], ops[..k], base, bytes) && IsStack(run[k])
  {
    hide Sound, Weight, Coalesced, Split, SeesNeighbours, LeavesRoom, IsStackOp;
    if k > 0 {
      StackRunsAreClean(run, ops, base, bytes, k - 1);
      EveryRunIsSound(run[..k], ops[..k - 1], base, bytes, k - 1);
      StackOpIsClean(run[k - 1], ops[k - 1], base, bytes);
      forall j | 0 <= j < k
        ensures Allowed(run[j], ops[j]) && IsClean(run[j], ops[j]) && run[j + 1] == Next(run[j], ops[j])
      {
        if j < k - 1 { assert run[..k][j] == run[j] && ops[..k - 1][j] == ops[j]; }
      }
    }
  }

  // ---------------------------------------------------------------- the words of a run

  /** The links of a block, behind its header. */
  predicate LinkIn(c: Cell, a: int) { a == c.addr + 8 || a == c.addr + 16 }

  ghost predicate IsLink(cells: seq<Cell>, a: int) { exists i: nat :: i < |cells| && LinkIn(cells[i], a) }

  /** Writes to links, of blocks that are free or were, destroy no header and no tail. */
  method WriteLinks(words: Words, links: seq<int>, garbage: int -> Word, ghost cells: seq<Cell>)
    requires Holds(words.memory, cells) && Apart(cells) && AllLarge(cells)
    requires forall l :: 0 <= l < |links| ==> IsLink(cells, links[l])
    modifies words
    ensures Holds(words.memory, cells)
  {
    for l := 0 to |links|
      invariant Holds(words.memory, cells)
    {
      assert IsLink(cells, links[l]);
      ghost var i: nat :| i < |cells| && LinkIn(cells[i], links[l]);
      LinksFitIff(cells[i]);
      hide Holds, Apart;
      words.WriteInside(links[l], garbage(links[l]), cells, i);
    }
  }

  /**
   * One operation on headers and tails is one step of the run, whatever it writes into the links of the free list;
   * links are not followed here.
   */
  method Perform(words: Words, op: Op, address: int, links: seq<int>, garbage: int -> Word, ghost cells: seq<Cell>,
          ghost bytes: nat)
    requires Sound(cells, words.base, bytes) && words.end == words.base + bytes && Holds(words.memory, cells)
    requires Allowed(cells, op) && IsClean(cells, op)
    requires address == cells[if op.DoAlloc? then op.k else op.i].addr
    requires op.DoFree? ==>
               var behind := EndOf(cells[op.i]);
               op.marked == (behind < words.end && Read(words.memory, behind, garbage).free)
    requires forall l :: 0 <= l < |links| ==> IsLink(Next(cells, op), links[l])
    modifies words
    ensures Holds(words.memory, Next(cells, op))
  {
    match op {
      case DoAlloc(k, request) =>
        NeededAligns(request);
        words.Take(address, Needed(request), garbage, cells, k);
      case DoFree(i, _) =>
        LastFits(cells, words.base, bytes);
        words.Free(address, garbage, cells, i);
    }
    NextStaysSound(cells, op, words.base, bytes);
    hide Next;
    WriteLinks(words, links, garbage, Next(cells, op));
  }

  lemma LastFits(cells: seq<Cell>, base: int, bytes: nat)
    requires Sound(cells, base, bytes)
    ensures cells[|cells| - 1].addr < base + bytes
  {
    var last := |cells| - 1;
    assert cells[last..] == [cells[last]];
    OneWeighs(cells[last]);
    assert cells[last].addr + Weight(cells[last..]) <= base + bytes;
  }

  // ---------------------------------------------------------------- frees that are not clean

  function Forty(base: int, n: nat, bytes: int): seq<Cell> {
    seq(n, i => Cell(base + 56 * i, 63, false)) + [Cell(base + 56 * n, bytes - 63 * n, true)]
  }

  lemma AnotherForty(base: int, n: nat, bytes: int)
    requires base % 8 == 0 && bytes - 63 * n >= 63 + MIN_BLOCK
    ensures Allowed(Forty(base, n, bytes), DoAlloc(n, 40))
    ensures IsClean(Forty(base, n, bytes), DoAlloc(n, 40))
    ensures Next(Forty(base, n, bytes), DoAlloc(n, 40)) == Forty(base, n + 1, bytes)
  {
    var cells := Forty(base, n, bytes);
    var c := cells[n];
    assert Needed(40) == 63;
    PartsFit(c, 63);
    assert Parts(c, 63) == [Cell(c.addr, 63, false), Cell(c.addr + 56, c.size - 63, true)];
    assert cells[..n] + Parts(c, 63) + cells[n + 1..] == Forty(base, n + 1, bytes);
  }

  lemma SecondOfThree(base: int, bytes: int)
    ensures var s3, s4 := Forty(base, 3, bytes), Forty(base, 3, bytes)[1 := Cell(base + 56, 63, true)];
            && SeesNeighbours(s3, 1, false) && LeavesRoom(s3, 1) && Coalesced(s3, 1) == s4
            && SeesNeighbours(s4, 0, false) && !LeavesRoom(s4, 0)
            && Joined(s4, 0) == Cell(base, 126, true) && s4[2] == Cell(base + 112, 63, false)
  {
    var s3 := Forty(base, 3, bytes);
    var s4 := s3[1 := Cell(base + 56, 63, true)];
    assert s3[0] == Cell(base, 63, false) && s3[1] == Cell(base + 56, 63, false);
    assert s3[2] == Cell(base + 112, 63, false);
    assert Coalesced(s3, 1) == s4;
    assert Touching(s3, 0) && Touching(s3, 1) && Touching(s4, 0);
  }

  /**
   * Of three blocks of 40 bytes the second is freed and then the first: the first grows over the second, and its tail
   * is written over the header of the third, which is in use.
   */
  lemma TailOverHeader(base: int, bytes: nat) returns (run: seq<seq<Cell>>, ops: seq<Op>)
    requires base % 8 == 0 && bytes >= 4 * 63 + MIN_BLOCK
    ensures ops == [DoAlloc(0, 40), DoAlloc(1, 40), DoAlloc(2, 40), DoFree(1, false), DoFree(0, false)]
    ensures |run| == 5 && IsRun(run, ops[..4], base, bytes)
    ensures Allowed(run[4], ops[4]) && SeesNeighbours(run[4], 0, false) && !LeavesRoom(run[4], 0)
    ensures var joined, third := Joined(run[4], 0), run[4][2];
            !third.isFree && TailOf(joined.addr, joined.size) < third.addr < EndOf(joined)
  {
    var s0, s1, s2, s3 := Forty(base, 0, bytes), Forty(base, 1, bytes), Forty(base, 2, bytes), Forty(base, 3, bytes);
    var s4 := s3[1 := Cell(base + 56, 63, true)];
    assert s0 == [Cell(base, bytes, true)] && |s3| == 4 && !s3[0].isFree && !s3[1].isFree;
    AnotherForty(base, 0, bytes);
    AnotherForty(base, 1, bytes);
    AnotherForty(base, 2, bytes);
    SecondOfThree(base, bytes);
    hide Forty, Split, SeesNeighbours, LeavesRoom, Coalesced, Joined, IsBestFit;
    run := [s0, s1, s2, s3, s4];
    ops := [DoAlloc(0, 40), DoAlloc(1, 40), DoAlloc(2, 40), DoFree(1, false), DoFree(0, false)];
    assert ops[..4] == [DoAlloc(0, 40), DoAlloc(1, 40), DoAlloc(2, 40), DoFree(1, false)];
  }

  /**
   * A block of a small request ends one byte before the next header. Freeing it looks for that header where it is not;
   * if it finds no mark there, two free blocks lie side by side.
   */
  lemma SmallBlockStaysApart(base: int, bytes: nat, request: nat) returns (run: seq<seq<Cell>>, ops: seq<Op>)
    requires base % 8 == 0 && 0 < request < MIN_BLOCK && bytes > 62 + MIN_BLOCK
    ensures ops == [DoAlloc(0, request), DoFree(0, false)] && |run| == 2
    ensures IsRun(run, ops[..1], base, bytes) && Allowed(run[1], ops[1]) && !IsClean(run[1], ops[1])
    ensures |run[1]| == 2 && run[1][1].isFree && EndOf(run[1][0]) + 1 == run[1][1].addr
  {
    ops := [DoAlloc(0, request), DoFree(0, false)];
    var c := Cell(base, bytes, true);
    NeededAligns(request);
    PartsFit(c, 62);
    run := [[c], Split([c], 0, 62)];
    assert run[1] == Parts(c, 62);
  }
}
