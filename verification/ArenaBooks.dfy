/** The books of the arena's free list and the layout of its blocks in memory agree. */
module ArenaBooks {
  import opened ArenaLayout
  import opened ArenaModel
  import opened ArenaRuns
  import opened Basics

  function One(there: bool): nat { if there then 1 else 0 }

  /** How many blocks of a size are free, or in use. */
  function Tally(cells: seq<Cell>, free: bool, n: int): nat {
    if cells == [] then 0 else One(cells[0].isFree == free && cells[0].size == n) + Tally(cells[1..], free, n)
  }

  function Times(sizes: seq<nat>, n: int): nat { if sizes == [] then 0 else One(sizes[0] == n) + Times(sizes[1..], n) }

  ghost predicate Records(sizes: seq<nat>, cells: seq<Cell>, free: bool) {
    forall n :: Times(sizes, n) == Tally(cells, free, n)
  }

  // ---------------------------------------------------------------- counting

  lemma {:induction false} TallyJoins(a: seq<Cell>, b: seq<Cell>, free: bool, n: int)
    ensures Tally(a + b, free, n) == Tally(a, free, n) + Tally(b, free, n)
  {
    if a == [] {
      assert a + b == b;
    } else {
      TallyJoins(a[1..], b, free, n);
      assert (a + b)[1..] == a[1..] + b;
    }
  }

  lemma TallyReplaced(a: seq<Cell>, mid: seq<Cell>, mid': seq<Cell>, b: seq<Cell>, free: bool, n: int)
    ensures Tally(a + mid' + b, free, n) + Tally(mid, free, n) == Tally(a + mid + b, free, n) + Tally(mid', free, n)
  {
    TallyJoins(a + mid, b, free, n);
    TallyJoins(a, mid, free, n);
    TallyJoins(a + mid', b, free, n);
    TallyJoins(a, mid', free, n);
  }

  lemma TallyOfOne(c: Cell, free: bool, n: int)
    ensures Tally([c], free, n) == One(c.isFree == free && c.size == n)
  {
  }

  lemma {:induction false} TimesAfterInsert(sizes: seq<nat>, k: nat, x: nat, n: int)
    requires k <= |sizes|
    ensures Times(Inserted(sizes, k, x), n) == Times(sizes, n) + One(x == n)
  {
    if k == 0 {
      assert ([x] + sizes)[1..] == sizes;
    } else {
      TimesAfterInsert(sizes[1..], k - 1, x, n);
      assert Inserted(sizes, k, x)[1..] == Inserted(sizes[1..], k - 1, x);
    }
  }

  lemma {:induction false} TimesAfterRemoval(sizes: seq<nat>, k: nat, n: int)
    requires k < |sizes|
    ensures Times(Without(sizes, k), n) + One(sizes[k] == n) == Times(sizes, n)
  {
    if k > 0 {
      TimesAfterRemoval(sizes[1..], k - 1, n);
      assert Without(sizes, k)[1..] == Without(sizes[1..], k - 1);
    }
  }

  /** A size that is recorded has a place in the list. */
  lemma {:induction false} PlaceOf(sizes: seq<nat>, n: int) returns (k: nat)
    requires Times(sizes, n) > 0
    ensures k < |sizes| && sizes[k] == n
  {
    if sizes[0] == n {
      k := 0;
    } else {
      k := PlaceOf(sizes[1..], n);
      k := k + 1;
    }
  }

  lemma {:induction false} BlockOf(cells: seq<Cell>, n: int) returns (j: nat)
    requires Tally(cells, true, n) > 0
    ensures j < |cells| && cells[j].isFree && cells[j].size == n
  {
    if cells[0].isFree && cells[0].size == n {
      j := 0;
    } else {
      j := BlockOf(cells[1..], n);
      j := j + 1;
    }
  }

  lemma {:induction false} BlockIsCounted(cells: seq<Cell>, j: nat)
    requires j < |cells|
    ensures Tally(cells, cells[j].isFree, cells[j].size) > 0
  {
    if j > 0 { BlockIsCounted(cells[1..], j - 1); }
  }

  lemma {:induction false} SizeIsCounted(sizes: seq<nat>, k: nat)
    requires k < |sizes|
    ensures Times(sizes, sizes[k]) > 0
  {
    if k > 0 { SizeIsCounted(sizes[1..], k - 1); }
  }

  // ---------------------------------------------------------------- freeing

  function SizeNext(cells: seq<Cell>, i: int): int { if FreeAt(cells, i) then cells[i].size else 0 }

  lemma AroundCounts(cells: seq<Cell>, i: nat, n: int)
    requires i < |cells| && !cells[i].isFree
    ensures Tally(Around(cells, i), true, n) == One(FreeAt(cells, i - 1) && SizeNext(cells, i - 1) == n)
                                                + One(FreeAt(cells, i + 1) && SizeNext(cells, i + 1) == n)
    ensures Tally(Around(cells, i), false, n) == One(cells[i].size == n)
  {
    var a := if FreeAt(cells, i - 1) then [cells[i - 1]] else [];
    var b := if FreeAt(cells, i + 1) then [cells[i + 1]] else [];
    assert Around(cells, i) == a + [cells[i]] + b;
    NextCounts(cells, i - 1, true, n);
    NextCounts(cells, i + 1, true, n);
    NextCounts(cells, i - 1, false, n);
    NextCounts(cells, i + 1, false, n);
    TallyOfOne(cells[i], true, n);
    TallyOfOne(cells[i], false, n);
    hide Tally, Around, SizeNext;
    TallyJoins(a + [cells[i]], b, true, n);
    TallyJoins(a, [cells[i]], true, n);
    TallyJoins(a + [cells[i]], b, false, n);
    TallyJoins(a, [cells[i]], false, n);
  }

  lemma NextCounts(cells: seq<Cell>, i: int, free: bool, n: int)
    ensures Tally(if FreeAt(cells, i) then [cells[i]] else [], free, n)
            == One(free && FreeAt(cells, i) && SizeNext(cells, i) == n)
  {
  }

  /** What a free does to the counts. */
  lemma CoalescedCounts(cells: seq<Cell>, i: nat, n: int)
    requires i < |cells| && !cells[i].isFree
    ensures Tally(Coalesced(cells, i), true, n)
            == Tally(cells, true, n) - One(FreeAt(cells, i - 1) && SizeNext(cells, i - 1) == n)
               - One(FreeAt(cells, i + 1) && SizeNext(cells, i + 1) == n)
               + One(cells[i].size + SizeNext(cells, i - 1) + SizeNext(cells, i + 1) == n)
    ensures Tally(Coalesced(cells, i), false, n) == Tally(cells, false, n) - One(cells[i].size == n)
  {
    var lo, hi := if FreeAt(cells, i - 1) then i - 1 else i, if FreeAt(cells, i + 1) then i + 2 else i + 1;
    var a, mid, j, b := cells[..lo], Around(cells, i), Joined(cells, i), cells[hi..];
    assert j.isFree && j.size == cells[i].size + SizeNext(cells, i - 1) + SizeNext(cells, i + 1);
    AroundAre(cells, i);
    AroundCounts(cells, i, n);
    hide Tally, Coalesced, Around, Joined, SizeNext;
    TallyReplaced(a, mid, [j], b, true, n);
    TallyReplaced(a, mid, [j], b, false, n);
    TallyOfOne(j, true, n);
    TallyOfOne(j, false, n);
  }

  /** Absorbing a free neighbour takes its size out of the list. */
  lemma AbsorbedTimes(sizes: seq<nat>, size: nat, there: bool, next: nat) returns (k: nat)
    requires (there ==> Times(sizes, next) > 0) && (!there ==> next == 0)
    ensures Absorbed(sizes, size, k).1 == size + next
    ensures forall n :: Times(Absorbed(sizes, size, k).0, n) == Times(sizes, n) - One(there && next == n)
  {
    if there {
      k := PlaceOf(sizes, next);
      forall n ensures Times(Without(sizes, k), n) == Times(sizes, n) - One(next == n) {
        TimesAfterRemoval(sizes, k, n);
      }
    } else {
      k := |sizes|;
    }
  }

  /** Freeing in the books, with two neighbours whose sizes are in the list. */
  lemma FreedTimes(books: Books, size: nat, p: bool, x: nat, q: bool, y: nat) returns (before: nat, after: nat)
    requires (p ==> Times(books.sizes, x) > 0) && (!p ==> x == 0) && (!q ==> y == 0)
    requires q ==> Times(books.sizes, y) > One(p && x == y)
    ensures forall n :: Times(Freed(books, size, before, after).sizes, n)
                        == Times(books.sizes, n) - One(p && x == n) - One(q && y == n) + One(size + x + y == n)
  {
    hide Times, Absorbed, Inserted;
    before := AbsorbedTimes(books.sizes, size, p, x);
    var (others, m) := Absorbed(books.sizes, size, before);
    after := AbsorbedTimes(others, m, q, y);
    var (rest, total) := Absorbed(others, m, after);
    forall n ensures Times(Added(rest, total), n) == Times(rest, n) + One(total == n) {
      TimesAfterInsert(rest, FirstAtLeast(rest, total), total, n);
    }
  }

  /** Freeing a block joins, in the books, the same free blocks as in memory. */
  lemma FreeMatchesBooks(cells: seq<Cell>, i: nat, books: Books) returns (before: nat, after: nat)
    requires i < |cells| && !cells[i].isFree && (forall j :: 0 <= j < |cells| ==> cells[j].size > 0)
    requires Records(books.sizes, cells, true)
    ensures Records(Freed(books, cells[i].size, before, after).sizes, Coalesced(cells, i), true)
  {
    var p, q, x, y := FreeAt(cells, i - 1), FreeAt(cells, i + 1), SizeNext(cells, i - 1), SizeNext(cells, i + 1);
    hide Tally, Times, Coalesced, Freed;
    CoalescedCounts(cells, i, x);
    CoalescedCounts(cells, i, y);
    before, after := FreedTimes(books, cells[i].size, p, x, q, y);
    forall n { CoalescedCounts(cells, i, n); }
  }

  // ---------------------------------------------------------------- allocating

  /** The best fit in memory has the size of the first fit in the books. */
  lemma BestIsFirst(cells: seq<Cell>, k: nat, needed: nat, books: Books)
    requires IsBestFit(cells, k, needed) && Balanced(books) && Records(books.sizes, cells, true)
    ensures var f := FirstAtLeast(books.sizes, needed);
            f < |books.sizes| && books.sizes[f] == cells[k].size && books.size >= needed
  {
    hide Tally, Times, Sum;
    BlockIsCounted(cells, k);
    var m := PlaceOf(books.sizes, cells[k].size);
    var f := FirstAtLeast(books.sizes, needed);
    assert f <= m;
    SizeIsCounted(books.sizes, f);
    var j := BlockOf(cells, books.sizes[f]);
    ElementAtMostSum(books.sizes, f);
  }

  lemma PartsCount(cells: seq<Cell>, k: nat, needed: int, n: int)
    requires k < |cells| && cells[k].isFree && MIN_BLOCK <= needed <= cells[k].size
    ensures var parts := Parts(cells[k], needed);
            && Tally(Split(cells, k, needed), true, n)
               == Tally(cells, true, n) - One(cells[k].size == n) + One(|parts| == 2 && parts[|parts| - 1].size == n)
            && Tally(Split(cells, k, needed), false, n) == Tally(cells, false, n) + One(parts[0].size == n)
  {
    var parts, a, b := Parts(cells[k], needed), cells[..k], cells[k + 1..];
    PartsFit(cells[k], needed);
    assert cells == a + [cells[k]] + b;
    TallyOfOne(cells[k], true, n);
    TallyOfOne(cells[k], false, n);
    TallyOfOne(parts[0], true, n);
    TallyOfOne(parts[0], false, n);
    if |parts| == 2 {
      assert parts == [parts[0]] + [parts[1]];
      TallyOfOne(parts[1], true, n);
      TallyOfOne(parts[1], false, n);
    } else {
      assert parts == [parts[0]];
    }
    hide Tally, Parts;
    if |parts| == 2 {
      TallyJoins([parts[0]], [parts[1]], true, n);
      TallyJoins([parts[0]], [parts[1]], false, n);
    }
    TallyReplaced(a, [cells[k]], parts, b, true, n);
    TallyReplaced(a, [cells[k]], parts, b, false, n);
  }

  lemma TakenTimes(books: Books, f: nat, rest: nat, padding: nat, n: int)
    requires f < |books.sizes| && padding < 8 && (rest != 0 ==> rest >= 8)
    ensures Times(Taken(books, f, rest, padding).sizes, n)
            == Times(books.sizes, n) - One(books.sizes[f] == n) + One(rest != 0 && rest - padding == n)
  {
    var others := Without(books.sizes, f);
    TimesAfterRemoval(books.sizes, f, n);
    if rest != 0 { TimesAfterInsert(others, FirstAtLeast(others, rest - padding), rest - padding, n); }
  }

  /** Handing out a block takes, in the books, a block of the same size, and puts back the same rest. */
  lemma AllocMatchesBooks(cells: seq<Cell>, k: nat, needed: nat, books: Books) returns (padding: nat)
    requires IsBestFit(cells, k, needed) && needed >= MIN_BLOCK
    requires Balanced(books) && Records(books.sizes, cells, true)
    ensures padding < 8 && Served(books, needed)
    ensures Records(Allocated(books, needed, padding).sizes, Split(cells, k, needed), true)
    ensures var size := books.sizes[FirstAtLeast(books.sizes, needed)];
            && size == cells[k].size && Parts(cells[k], needed) != []
            && Parts(cells[k], needed)[0].size == size - Remainder(size, needed)
  {
    BestIsFirst(cells, k, needed, books);
    PartsFit(cells[k], needed);
    var parts, f := Parts(cells[k], needed), FirstAtLeast(books.sizes, needed);
    var rest := Remainder(cells[k].size, needed);
    padding := if |parts| == 2 then parts[1].addr - EndOf(parts[0]) else 0;
    assert Allocated(books, needed, padding) == Taken(books, f, rest, padding);
    hide Tally, Times, Taken, Split, Parts, Allocated, FirstAtLeast, Balanced, IsBestFit;
    forall n ensures Times(Taken(books, f, rest, padding).sizes, n) == Tally(Split(cells, k, needed), true, n) {
      TakenTimes(books, f, rest, padding, n);
      PartsCount(cells, k, needed, n);
    }
  }

  // ---------------------------------------------------------------- runs

  /** The ledger records the free blocks and those in use. */
  ghost predicate Accounts(ledger: Ledger, cells: seq<Cell>) {
    Records(ledger.books.sizes, cells, true) && Records(ledger.live, cells, false)
  }

  lemma TakeIs(ledger: Ledger, request: nat, padding: nat)
    requires 0 < request < WORD && padding < 8 && Served(ledger.books, Needed(request))
    ensures var needed, sizes := Needed(request), ledger.books.sizes;
            var size := sizes[FirstAtLeast(sizes, needed)];
            Remainder(size, needed) <= size &&
            ArenaModel.Next(ledger, Take(request, padding))
            == Ledger(Allocated(ledger.books, needed, padding), [size - Remainder(size, needed)] + ledger.live)
  {
    hide Allocated, Needed;
  }

  lemma AllocIsAccounted(ledger: Ledger, cells: seq<Cell>, k: nat, request: nat) returns (step: Step)
    requires Accounts(ledger, cells) && Balanced(ledger.books) && Allowed(cells, DoAlloc(k, request))
    ensures Accounts(ArenaModel.Next(ledger, step), Split(cells, k, Needed(request)))
  {
    NeededAligns(request);
    assert IsBestFit(cells, k, Needed(request)) && Needed(request) <= cells[k].size && cells[k].isFree;
    hide Tally, Times, Split, Parts, Allocated, Remainder, Needed, FirstAtLeast, Balanced, IsBestFit, ArenaModel.Next;
    var padding := AllocMatchesBooks(cells, k, Needed(request), ledger.books);
    step := Take(request, padding);
    TakeIs(ledger, request, padding);
    var given := Parts(cells[k], Needed(request))[0].size;
    forall n ensures Times([given] + ledger.live, n) == Tally(Split(cells, k, Needed(request)), false, n) {
      PartsCount(cells, k, Needed(request), n);
      TimesOfMore(given, ledger.live, n);
    }
  }

  lemma TimesOfMore(size: nat, live: seq<nat>, n: int)
    ensures Times([size] + live, n) == One(size == n) + Times(live, n)
  {
    assert ([size] + live)[1..] == live;
  }

  lemma FreeIsAccounted(ledger: Ledger, cells: seq<Cell>, i: nat) returns (step: Step)
    requires Accounts(ledger, cells) && i < |cells| && !cells[i].isFree
    requires forall j :: 0 <= j < |cells| ==> cells[j].size > 0
    ensures Accounts(ArenaModel.Next(ledger, step), Coalesced(cells, i))
  {
    hide Tally, Times, Coalesced, Freed, Without;
    var before, after := FreeMatchesBooks(cells, i, ledger.books);
    BlockIsCounted(cells, i);
    var j := PlaceOf(ledger.live, cells[i].size);
    step := Give(j, before, after);
    forall n ensures Times(Without(ledger.live, j), n) == Tally(Coalesced(cells, i), false, n) {
      TimesAfterRemoval(ledger.live, j, n);
      CoalescedCounts(cells, i, n);
    }
  }

  lemma StepIsAccounted(ledger: Ledger, cells: seq<Cell>, op: Op, base: int, bytes: nat) returns (step: Step)
    requires Accounts(ledger, cells) && Balanced(ledger.books) && Sound(cells, base, bytes) && Allowed(cells, op)
    ensures Accounts(ArenaModel.Next(ledger, step), ArenaRuns.Next(cells, op))
  {
    assert forall j :: 0 <= j < |cells| ==> cells[j].size >= OVERHEAD;
    hide Accounts, Split, Coalesced, ArenaModel.Next, Sound, Balanced;
    match op {
      case DoAlloc(j, request) => step := AllocIsAccounted(ledger, cells, j, request);
      case DoFree(i, _) => step := FreeIsAccounted(ledger, cells, i);
    }
  }

  /** Every run is one of the books: the neighbours that the books are told of are those that lie next in memory. */
  lemma {:induction false} RunIsAccounted(run: seq<seq<Cell>>, ops: seq<Op>, base: int, bytes: nat, k: nat)
    returns (steps: seq<Step>)
    requires IsRun(run, ops, base, bytes) && k < |run|
    ensures |steps| == k && Accounts(After(bytes, steps), run[k])
  {
    if k == 0 {
      steps := [];
      FreshIsAccounted(base, bytes);
    } else {
      var front := RunIsAccounted(run, ops, base, bytes, k - 1);
      EveryRunIsSound(run, ops, base, bytes, k - 1);
      EveryRunBalances(bytes, front);
      hide Accounts, ArenaModel.Next, ArenaRuns.Next, Sound, IsClean, Allowed, Balanced, Sum;
      var step := StepIsAccounted(After(bytes, front), run[k - 1], ops[k - 1], base, bytes);
      steps := front + [step];
      assert steps[..|steps| - 1] == front;
    }
  }

  lemma FreshIsAccounted(base: int, bytes: nat)
    ensures Accounts(Ledger(Books([bytes], bytes, 0), []), [Cell(base, bytes, true)])
  {
    forall n ensures Times([bytes], n) == One(bytes == n) {
      TimesOfMore(bytes, [], n);
    }
  }
}
