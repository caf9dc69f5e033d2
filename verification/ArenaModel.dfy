/** The sizes of the arena's free blocks, in the order of its free list. */
module ArenaModel {
  import opened Basics

  /** What a block needs beyond the bytes asked for: header, tail and room to align. */
  const OVERHEAD := 23
  const MIN_BLOCK := OVERHEAD + 16

  function Sum(sizes: seq<nat>): nat { if sizes == [] then 0 else sizes[0] + Sum(sizes[1..]) }

  predicate Ascending(sizes: seq<nat>) { forall i, j :: 0 <= i < j < |sizes| ==> sizes[i] <= sizes[j] }

  /** The first index whose size is at least `n`, or the number of sizes. */
  function FirstAtLeast(sizes: seq<nat>, n: nat): (k: nat)
    ensures k <= |sizes| && (k < |sizes| ==> n <= sizes[k]) && forall i :: 0 <= i < k ==> sizes[i] < n
  {
    if sizes == [] || n <= sizes[0] then 0 else 1 + FirstAtLeast(sizes[1..], n)
  }

  lemma FirstAtLeastIs(sizes: seq<nat>, n: nat, k: nat)
    requires k <= |sizes| && (k < |sizes| ==> n <= sizes[k]) && forall i :: 0 <= i < k ==> sizes[i] < n
    ensures FirstAtLeast(sizes, n) == k
  {
  }

  function Inserted<T>(s: seq<T>, k: nat, x: T): (r: seq<T>)
    requires k <= |s|
    ensures |r| == |s| + 1
  {
    if k == 0 then [x] + s else [s[0]] + Inserted(s[1..], k - 1, x)
  }

  function Without<T>(s: seq<T>, k: nat): (r: seq<T>)
    requires k < |s|
    ensures |r| == |s| - 1
  {
    if k == 0 then s[1..] else [s[0]] + Without(s[1..], k - 1)
  }

  lemma {:induction false} InsertedAt<T>(s: seq<T>, k: nat, x: T)
    requires k <= |s|
    ensures Inserted(s, k, x) == s[..k] + [x] + s[k..]
  {
    if k > 0 {
      InsertedAt(s[1..], k - 1, x);
      assert s[..k] == [s[0]] + s[1..][..k - 1];
    }
  }

  lemma {:induction false} WithoutAt<T>(s: seq<T>, k: nat)
    requires k < |s|
    ensures Without(s, k) == s[..k] + s[k + 1..]
  {
    if k > 0 {
      WithoutAt(s[1..], k - 1);
      assert s[..k] == [s[0]] + s[1..][..k - 1];
    }
  }

  lemma MembersAfterInsert<T>(s: seq<T>, k: nat, x: T)
    requires k <= |s|
    ensures forall y :: y in Inserted(s, k, x) <==> y == x || y in s
  {
    InsertedAt(s, k, x);
    assert s == s[..k] + s[k..];
  }

  lemma MembersAfterRemoval<T>(s: seq<T>, k: nat)
    requires k < |s|
    ensures forall y :: y in Without(s, k) ==> y in s
    ensures forall y :: y in s && y != s[k] ==> y in Without(s, k)
  {
    WithoutAt(s, k);
    assert s == s[..k] + [s[k]] + s[k + 1..];
  }

  lemma {:induction false} InsertedSum(sizes: seq<nat>, k: nat, n: nat)
    requires k <= |sizes|
    ensures Sum(Inserted(sizes, k, n)) == Sum(sizes) + n
  {
    var r := Inserted(sizes, k, n);
    if k == 0 {
      assert r[1..] == sizes;
    } else {
      InsertedSum(sizes[1..], k - 1, n);
      assert r[1..] == Inserted(sizes[1..], k - 1, n);
    }
  }

  lemma {:induction false} WithoutSum(sizes: seq<nat>, k: nat)
    requires k < |sizes|
    ensures Sum(Without(sizes, k)) + sizes[k] == Sum(sizes)
  {
    if k > 0 {
      WithoutSum(sizes[1..], k - 1);
      assert Without(sizes, k)[1..] == Without(sizes[1..], k - 1);
    }
  }

  lemma InsertedAscends(sizes: seq<nat>, n: nat)
    requires Ascending(sizes)
    ensures Ascending(Inserted(sizes, FirstAtLeast(sizes, n), n))
  {
    var k := FirstAtLeast(sizes, n);
    InsertedAt(sizes, k, n);
    forall i | k <= i < |sizes| ensures n <= sizes[i] {
      assert sizes[k] <= sizes[i];
    }
  }

  lemma WithoutAscends(sizes: seq<nat>, k: nat)
    requires Ascending(sizes) && k < |sizes|
    ensures Ascending(Without(sizes, k))
  {
    WithoutAt(sizes, k);
  }

  /** The block size a request needs, in words: aligned to 8 bytes or raised to the minimum, plus the overhead. */
  function Needed(size: nat): (n: nat)
    requires size < WORD
    ensures n < WORD
  {
    ((if size < MIN_BLOCK then MIN_BLOCK else (size + 7) % WORD / 8 * 8) + OVERHEAD) % WORD
  }

  /**
   * The block has room for the request exactly if the request is not so large that the sum wraps; it is then less than
   * 31 bytes larger than the request, or the least block there is, of 62 bytes.
   */
  lemma NeededCoversIff(size: nat)
    requires size < WORD
    ensures Needed(size) >= size + OVERHEAD <==> size <= WORD - 24
    ensures size <= WORD - 24 ==> if size < 39 then Needed(size) == 62 else size + 23 <= Needed(size) < size + 31
    ensures size <= WORD - 24 && size >= 39 ==> Needed(size) % 8 == 7
  {
  }

  /** In a list in ascending order the first block that fits is the smallest that fits. */
  lemma FirstFitIsBestFit(sizes: seq<nat>, n: nat)
    requires Ascending(sizes)
    ensures var k := FirstAtLeast(sizes, n);
            && (k < |sizes| <==> exists i :: 0 <= i < |sizes| && n <= sizes[i])
            && (k < |sizes| ==> forall i :: 0 <= i < |sizes| && n <= sizes[i] ==> sizes[k] <= sizes[i])
  {
    var k := FirstAtLeast(sizes, n);
    if k < |sizes| {
      forall i | 0 <= i < |sizes| && n <= sizes[i] ensures sizes[k] <= sizes[i] {
        assert i >= k;
      }
    }
  }

  lemma {:induction false} ElementAtMostSum(sizes: seq<nat>, i: nat)
    requires i < |sizes|
    ensures sizes[i] <= Sum(sizes)
  {
    WithoutSum(sizes, i);
  }

  // ---- the books over whole runs ----

  /** The sizes of the free blocks, the bytes counted as free, and those lost to alignment. */
  datatype Books = Books(sizes: seq<nat>, size: int, slack: nat)

  predicate Balanced(books: Books) { Ascending(books.sizes) && books.size == Sum(books.sizes) + books.slack }

  /** What is left of a block for another one, or nothing if that would be too little. */
  function Remainder(total: nat, needed: nat): (rest: nat)
    ensures needed <= total ==> rest <= total && (rest != 0 ==> rest >= MIN_BLOCK)
  {
    if total < needed + MIN_BLOCK then 0 else total - needed
  }

  function Added(sizes: seq<nat>, n: nat): seq<nat> { Inserted(sizes, FirstAtLeast(sizes, n), n) }

  predicate Served(books: Books, needed: nat) { FirstAtLeast(books.sizes, needed) < |books.sizes| }

  /** The books after taking the block at `k` and putting back the rest, less what alignment takes. */
  function Taken(books: Books, k: nat, rest: nat, padding: nat): Books
    requires k < |books.sizes| && padding < 8 && (rest != 0 ==> rest >= 8)
  {
    var others, given := Without(books.sizes, k), books.sizes[k] - rest;
    if rest == 0 then Books(others, books.size - given, books.slack)
    else Books(Added(others, rest - padding), books.size - given, books.slack + padding)
  }

  lemma TakingBalances(books: Books, k: nat, rest: nat, padding: nat)
    requires Balanced(books) && k < |books.sizes| && padding < 8 && (rest != 0 ==> rest >= 8)
    ensures Balanced(Taken(books, k, rest, padding))
  {
    WithoutSum(books.sizes, k);
    WithoutAscends(books.sizes, k);
    hide Sum, Ascending, Added, Without;
    if rest != 0 {
      AddingBalances(Without(books.sizes, k), rest - padding);
    }
  }

  /** Allocating takes the first block that fits and puts back what is left, if that is worth it. */
  function Allocated(books: Books, needed: nat, padding: nat): Books
    requires padding < 8
  {
    var k := FirstAtLeast(books.sizes, needed);
    if k == |books.sizes| || books.size < needed then books
    else Taken(books, k, Remainder(books.sizes[k], needed), padding)
  }

  /** Freeing merges with the neighbours that are free, each given by its index in the list. */
  function Freed(books: Books, n: nat, before: nat, after: nat): Books {
    var (sizes, m) := Merged(books.sizes, n, before, after);
    Books(Added(sizes, m), books.size + n, books.slack)
  }

  function Merged(sizes: seq<nat>, n: nat, before: nat, after: nat): (seq<nat>, nat) {
    var (others, m) := Absorbed(sizes, n, before);
    Absorbed(others, m, after)
  }

  /** A neighbour's block joins the one being freed; an index past the end stands for no neighbour. */
  function Absorbed(sizes: seq<nat>, n: nat, k: nat): (seq<nat>, nat) {
    if k < |sizes| then (Without(sizes, k), n + sizes[k]) else (sizes, n)
  }

  /** Allocation serves a request with no more than a small block beyond what it needs. */
  lemma {:induction false} AllocationBalances(books: Books, needed: nat, padding: nat)
    requires Balanced(books) && padding < 8
    ensures Balanced(Allocated(books, needed, padding))
    ensures Served(books, needed) ==>
              var k := FirstAtLeast(books.sizes, needed);
              var given := books.sizes[k] - Remainder(books.sizes[k], needed);
              needed <= given < needed + MIN_BLOCK && Allocated(books, needed, padding).size + given == books.size
  {
    var k := FirstAtLeast(books.sizes, needed);
    if k < |books.sizes| {
      ElementAtMostSum(books.sizes, k);
      TakingBalances(books, k, Remainder(books.sizes[k], needed), padding);
    }
  }

  lemma AllocatedIs(books: Books, needed: nat, padding: nat, k: nat, rest: nat, after: Books)
    requires Balanced(books) && padding < 8 && k == FirstAtLeast(books.sizes, needed) < |books.sizes|
    requires rest == Remainder(books.sizes[k], needed)
    requires after.sizes == if rest == 0 then Without(books.sizes, k)
             else Added(Without(books.sizes, k), rest - padding)
    requires after.size == books.size - (books.sizes[k] - rest)
             && after.slack == books.slack + if rest == 0 then 0 else padding
    ensures after == Allocated(books, needed, padding) && Balanced(after)
  {
    ElementAtMostSum(books.sizes, k);
    assert after == Taken(books, k, rest, padding);
    TakingBalances(books, k, rest, padding);
  }

  lemma AddingBalances(sizes: seq<nat>, n: nat)
    requires Ascending(sizes)
    ensures Ascending(Added(sizes, n)) && Sum(Added(sizes, n)) == Sum(sizes) + n
  {
    InsertedSum(sizes, FirstAtLeast(sizes, n), n);
    InsertedAscends(sizes, n);
  }

  lemma {:induction false} FreeingBalances(books: Books, n: nat, before: nat, after: nat)
    requires Balanced(books)
    ensures Balanced(Freed(books, n, before, after))
    ensures Freed(books, n, before, after).size == books.size + n
  {
    var (others, m) := Absorbed(books.sizes, n, before);
    AbsorbingBalances(books.sizes, n, before);
    AbsorbingBalances(others, m, after);
    var (sizes, m') := Merged(books.sizes, n, before, after);
    AddingBalances(sizes, m');
  }

  lemma FreedIs(books: Books, n: nat, before: nat, after: nat, freed: Books)
    requires Balanced(books)
    requires freed.sizes == var (others, m) := Merged(books.sizes, n, before, after); Added(others, m)
    requires freed.size == books.size + n && freed.slack == books.slack
    ensures freed == Freed(books, n, before, after) && Balanced(freed)
  {
    FreeingBalances(books, n, before, after);
  }

  lemma AbsorbingBalances(sizes: seq<nat>, n: nat, k: nat)
    requires Ascending(sizes)
    ensures Ascending(Absorbed(sizes, n, k).0)
            && Sum(Absorbed(sizes, n, k).0) + Absorbed(sizes, n, k).1 == Sum(sizes) + n
  {
    if k < |sizes| {
      WithoutSum(sizes, k);
      WithoutAscends(sizes, k);
    }
  }

  /** The books, and the sizes of the blocks handed out and not given back. */
  datatype Ledger = Ledger(books: Books, live: seq<nat>)

  /** A request of some bytes, or the return of the `i`-th block handed out, with where its free neighbours are. */
  datatype Step = Take(request: nat, padding: nat) | Give(i: nat, before: nat, after: nat)

  function Next(ledger: Ledger, step: Step): Ledger {
    var books, live := ledger.books, ledger.live;
    match step
    case Take(request, padding) =>
      if 0 < request < WORD && padding < 8 && Served(books, Needed(request)) then
        var block := books.sizes[FirstAtLeast(books.sizes, Needed(request))];
        Ledger(Allocated(books, Needed(request), padding), [block - Remainder(block, Needed(request))] + live)
      else ledger
    case Give(i, before, after) =>
      if i < |live| then Ledger(Freed(books, live[i], before, after), Without(live, i)) else ledger
  }

  function After(memory: nat, steps: seq<Step>): Ledger {
    if steps == [] then Ledger(Books([memory], memory, 0), [])
    else Next(After(memory, steps[..|steps| - 1]), steps[|steps| - 1])
  }

  /** No byte is lost or made up: what is free, what alignment took and what is handed out is all of the memory. */
  predicate Conserved(ledger: Ledger, memory: nat) {
    Balanced(ledger.books) && Sum(ledger.books.sizes) + ledger.books.slack + Sum(ledger.live) == memory
  }

  lemma StepConserves(ledger: Ledger, step: Step, memory: nat)
    requires Conserved(ledger, memory)
    ensures Conserved(Next(ledger, step), memory)
  {
    var books, live := ledger.books, ledger.live;
    match step
    case Take(request, padding) =>
      if 0 < request < WORD && padding < 8 && Served(books, Needed(request)) {
        AllocationBalances(books, Needed(request), padding);
        assert Next(ledger, step).live[1..] == live;
      }
    case Give(i, before, after) =>
      if i < |live| {
        FreeingBalances(books, live[i], before, after);
        WithoutSum(live, i);
      }
  }

  /**
   * After every run the list is in order, and free blocks, bytes lost to alignment and blocks handed out add up to the
   * memory; once everything has been given back, only what alignment took is missing from the free blocks.
   */
  lemma {:induction false} EveryRunBalances(memory: nat, steps: seq<Step>)
    ensures Conserved(After(memory, steps), memory)
    ensures After(memory, steps).live == [] ==> After(memory, steps).books.size == memory
  {
    if steps == [] {
      assert Sum([memory]) == memory + Sum([memory][1..]) == memory;
    } else {
      EveryRunBalances(memory, steps[..|steps| - 1]);
      StepConserves(After(memory, steps[..|steps| - 1]), steps[|steps| - 1], memory);
    }
  }
}
