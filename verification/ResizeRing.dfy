/** The ring buffer of scanlines, and the two vertical resampling loops that slide it over the image. */
module ResizeRing {
  import opened Arithmetic
  import opened ResizeWindows

  /** `x % n`, where the ring buffer never looks more than one lap ahead. */
  function Wrap(x: int, n: int): (r: int)
    requires 0 <= x < 2 * n
    ensures r == if x < n then x else x - n
  {
    if x >= n then
      ModBelowTwice(x, n);
      x % n
    else x % n
  }

  /** Which contributions an output row or a scanline entry is made of: contributor ranges, both ends included. */
  type Contributors = seq<Window>

  class Ring<T> {
    const entries: array<T>
    const empty: T
    // index of the first scanline's entry; negative when the ring is empty
    var begin: int
    var first: int
    var last: int

    constructor (size: int, zero: T)
      requires size > 0
      ensures begin < 0 && entries.Length == size && empty == zero && fresh(entries)
    {
      entries := new T[size](_ => zero);
      empty := zero;
      begin, first, last := -1, 0, 0;
    }

    /** The ring is empty, or scanline `k` of `first..last` is in its entry, as `content(k)`. */
    ghost predicate Holds(content: int -> T)
      reads this, entries
    {
      begin >= 0 ==>
        && begin < entries.Length && first <= last < first + entries.Length
        && forall k :: first <= k <= last ==> entries[Wrap(begin + (k - first), entries.Length)] == content(k)
    }

    /** Opens the entry for scanline `n`; the check that it is not the first scanline's entry is the assertion here. */
    method AddEmptyEntry(n: int, ghost content: int -> T) returns (index: int)
      requires entries.Length > 0 && Holds(content)
      requires begin >= 0 ==> n == last + 1 && n - first < entries.Length
      modifies this, entries
      ensures 0 <= begin < entries.Length && last == n && first <= last < first + entries.Length
      ensures if old(begin) < 0 then first == n else first == old(first) && begin == old(begin)
      ensures index == Wrap(begin + (n - first), entries.Length) && entries[index] == empty
      ensures forall k :: first <= k < n ==> entries[Wrap(begin + (k - first), entries.Length)] == content(k)
    {
      last := n;
      if begin < 0 {
        begin := 0;
        index := 0;
        first := n;
      } else {
        index := Wrap(begin + (last - first), entries.Length);
        assert index != begin;
      }
      entries[index] := empty;
    }

    /** Drops the first scanline; dropping the only one leaves the ring empty. */
    method DropFirst(ghost content: int -> T)
      requires 0 <= begin && Holds(content)
      modifies this
      ensures Holds(content)
      ensures if old(first) == old(last) then begin < 0 && first == 0 && last == 0
              else 0 <= begin && first == old(first) + 1 && last == old(last)
    {
      if first == last {
        begin := -1;
        first := 0;
        last := 0;
      } else {
        first := first + 1;
        begin := Wrap(begin + 1, entries.Length);
      }
    }

    function Scanline(k: int): T
      requires 0 <= begin < entries.Length && first <= k < first + entries.Length
      reads this, entries
    {
      entries[Wrap(begin + (k - first), entries.Length)]
    }
  }

  // ---------------------------------------------------------------- enlarging

  predicate Within(range: Window, w: Window) {
    range.first > range.last || (w.first <= range.first && range.last <= w.last)
  }

  /** Windows that never outgrow `size`, never move back, and leave no gap between neighbours. */
  ghost predicate Slides(window: int -> Window, size: int) {
    && (forall n :: window(n).first <= window(n).last && window(n).last - window(n).first + 1 <= size)
    && (forall n, m :: n <= m ==> window(n).first <= window(m).first && window(n).last <= window(m).last)
    && (forall n, m :: m == n + 1 ==> window(m).first <= window(n).last + 1)
  }

  /** The decoded scanlines that output row `y` combines, in order. */
  function Sources<T>(range: Window, decode: int -> T): seq<T> {
    if range.first <= range.last then seq(range.last - range.first + 1, i => decode(range.first + i)) else []
  }

  lemma SourcesAre<T>(range: Window, decode: int -> T)
    ensures var row := Sources(range, decode);
            && |row| == Max(range.last - range.first + 1, 0)
            && forall k :: 0 <= k < |row| ==> row[k] == decode(range.first + k)
  {
  }

  method DecodeInto<T>(ring: Ring<T>, n: int, decode: int -> T)
    requires ring.entries.Length > 0 && ring.Holds(decode)
    requires ring.begin >= 0 ==> n == ring.last + 1 && n - ring.first < ring.entries.Length
    modifies ring, ring.entries
    ensures 0 <= ring.begin && ring.Holds(decode) && ring.last == n
    ensures ring.first == if old(ring.begin) < 0 then n else old(ring.first)
  {
    var index := ring.AddEmptyEntry(n, decode);
    ring.entries[index] := decode(n);
  }

  /** Resamples one output row from the ring entries of its contributors. */
  method ResampleVertical<T>(ring: Ring<T>, range: Window, ghost decode: int -> T) returns (row: seq<T>)
    requires 0 <= ring.begin && ring.Holds(decode)
    requires Within(range, Window(ring.first, ring.last))
    ensures row == Sources(range, decode)
  {
    row := [];
    hide Wrap;
    var k := range.first;
    while k <= range.last
      invariant range.first <= k <= range.last + 1 || k == range.first > range.last
      invariant |row| == k - range.first && forall i :: 0 <= i < |row| ==> row[i] == decode(range.first + i)
    {
      row := row + [ring.Scanline(k)];
      k := k + 1;
    }
  }

  /** Slides the ring to the window of the next output row, decoding every scanline that is new. */
  method SlideUp<T>(ring: Ring<T>, w: Window, decode: int -> T)
    requires ring.entries.Length > 0 && ring.Holds(decode)
    requires w.first <= w.last && w.last - w.first + 1 <= ring.entries.Length
    requires ring.begin >= 0 ==> ring.first <= w.first <= ring.last + 1 && ring.last <= w.last
    modifies ring, ring.entries
    ensures 0 <= ring.begin && ring.Holds(decode) && ring.first == w.first && ring.last == w.last
  {
    if ring.begin >= 0 {
      while w.first > ring.first
        invariant ring.Holds(decode) && 0 <= ring.begin && ring.first <= w.first && ring.last == old(ring.last)
        decreases w.first - ring.first
      {
        var wasLast := ring.first == ring.last;
        ring.DropFirst(decode);
        if wasLast {
          break;
        }
      }
    }
    if ring.begin < 0 {
      DecodeInto(ring, w.first, decode);
    }
    while w.last > ring.last
      invariant 0 <= ring.begin && ring.Holds(decode) && ring.first == w.first && ring.last <= w.last
      decreases w.last - ring.last
    {
      DecodeInto(ring, ring.last + 1, decode);
    }
  }

  /** One output row: the ring slides to the row's window, then the row is resampled from it. */
  method ResampleRow<T>(ring: Ring<T>, w: Window, range: Window, decode: int -> T) returns (row: seq<T>)
    requires ring.entries.Length > 0 && ring.Holds(decode) && Within(range, w)
    requires w.first <= w.last && w.last - w.first + 1 <= ring.entries.Length
    requires ring.begin >= 0 ==> ring.first <= w.first <= ring.last + 1 && ring.last <= w.last
    modifies ring, ring.entries
    ensures 0 <= ring.begin && ring.Holds(decode) && ring.first == w.first && ring.last == w.last
    ensures row == Sources(range, decode)
  {
    assert w.last - w.first + 1 <= ring.entries.Length;
    SlideUp(ring, w, decode);
    row := ResampleVertical(ring, range, decode);
  }

  /** The upsampling loop over given windows. */
  method UpsampleOver<T>(ring: Ring<T>, window: int -> Window, outputH: int, ranges: Contributors, decode: int -> T)
    returns (rows: seq<seq<T>>)
    requires ring.begin < 0 && ring.entries.Length > 0 && Slides(window, ring.entries.Length)
    requires |ranges| == outputH && forall y :: 0 <= y < outputH ==> Within(ranges[y], window(y))
    modifies ring, ring.entries
    ensures |rows| == outputH && forall y :: 0 <= y < outputH ==> rows[y] == Sources(ranges[y], decode)
  {
    rows := [];
    var y := 0;
    while y < outputH
      invariant |rows| == y <= outputH && forall j :: 0 <= j < y ==> rows[j] == Sources(ranges[j], decode)
      invariant ring.Holds(decode)
      invariant ring.begin >= 0 ==> y > 0 && ring.first == window(y - 1).first && ring.last == window(y - 1).last
    {
      var row := ResampleRow(ring, window(y), ranges[y], decode);
      rows := rows + [row];
      y := y + 1;
    }
  }

  /** Step-by-step sliding is sliding over any distance. */
  lemma StepsSlide(window: int -> Window, size: int)
    requires forall n, m :: m == n + 1 ==> StepsTo(window(n), window(m), size)
    ensures Slides(window, size)
  {
    forall n ensures window(n).first <= window(n).last && window(n).last - window(n).first + 1 <= size {
      assert StepsTo(window(n), window(n + 1), size);
    }
    forall n, m | n <= m ensures window(n).first <= window(m).first && window(n).last <= window(m).last {
      StepsForward(window, size, n, m);
    }
  }

  lemma {:induction false} StepsForward(window: int -> Window, size: int, n: int, m: int)
    requires n <= m && forall i, j :: j == i + 1 ==> StepsTo(window(i), window(j), size)
    ensures window(n).first <= window(m).first && window(n).last <= window(m).last
    decreases m - n
  {
    if n < m {
      StepsForward(window, size, n, m - 1);
      assert StepsTo(window(m - 1), window(m), size);
    }
  }

  lemma UpWindowsSlide(filter: Filter, scale: real, shift: real)
    requires UseUpsampling(scale)
    ensures RingEntries(filter, scale) > 0 && Slides(n => UpWindow(filter, scale, shift, n), RingEntries(filter, scale))
  {
    UpWindowSlides(filter, scale, shift, 0);
    var window := n => UpWindow(filter, scale, shift, n);
    forall n, m | m == n + 1 ensures StepsTo(window(n), window(m), RingEntries(filter, scale)) {
      UpWindowSlides(filter, scale, shift, n);
    }
    StepsSlide(window, RingEntries(filter, scale));
  }

  /**
   * Every output row is resampled from exactly the decoded scanlines of its contributor range: zero coefficients can
   * only have narrowed the row's window, and the ring never loses or overwrites a scanline the row needs.
   */
  method BufferLoopUpsample<T>(filter: Filter, scale: real, shift: real, outputH: int, ranges: Contributors,
          decode: int -> T, zero: T)
    returns (rows: seq<seq<T>>)
    requires UseUpsampling(scale)
    requires |ranges| == outputH && forall y :: 0 <= y < outputH ==>
             Within(ranges[y], UpWindow(filter, scale, shift, y))
    ensures |rows| == outputH && forall y :: 0 <= y < outputH ==> rows[y] == Sources(ranges[y], decode)
  {
    UpWindowsSlide(filter, scale, shift);
    var ring := new Ring<T>(RingEntries(filter, scale), zero);
    rows := UpsampleOver(ring, n => UpWindow(filter, scale, shift, n), outputH, ranges, decode);
  }

  // ---------------------------------------------------------------- shrinking

  /** The input scanlines of `lo..hi-1`, in order, whose contributor range holds output row `k`. */
  function Feeding(ranges: Contributors, margin: int, lo: int, hi: int, k: int): seq<int>
    requires 0 <= lo + margin && hi + margin <= |ranges|
    decreases hi - lo
  {
    if lo >= hi then []
    else Feeding(ranges, margin, lo, hi - 1, k)
         + if ranges[hi - 1 + margin].first <= k <= ranges[hi - 1 + margin].last then [hi - 1] else []
  }

  /** An encoded output row: its number and the input scanlines accumulated in it. */
  datatype Row = Row(index: int, sources: seq<int>)

  function Emitted(lo: int, hi: int, content: int -> seq<int>): seq<Row>
    decreases hi - lo
  {
    if lo >= hi then [] else Emitted(lo, hi - 1, content) + [Row(hi - 1, content(hi - 1))]
  }

  lemma NoneEmitted(lo: int, hi: int, content: int -> seq<int>)
    ensures hi <= lo ==> Emitted(lo, hi, content) == []
  {
  }

  lemma {:induction false} EmittedJoin(lo: int, mid: int, hi: int, content: int -> seq<int>)
    requires lo <= mid <= hi
    ensures Emitted(lo, hi, content) == Emitted(lo, mid, content) + Emitted(mid, hi, content)
    decreases hi - mid
  {
    if mid < hi { EmittedJoin(lo, mid, hi - 1, content); }
  }

  lemma {:induction false} EmittedAgrees(lo: int, hi: int, a: int -> seq<int>, b: int -> seq<int>)
    requires forall k :: lo <= k < hi ==> a(k) == b(k)
    ensures Emitted(lo, hi, a) == Emitted(lo, hi, b)
    decreases hi - lo
  {
    if lo < hi { EmittedAgrees(lo, hi - 1, a, b); }
  }

  function Max(a: int, b: int): int { if a > b then a else b }

  function Min(a: int, b: int): int { if a < b then a else b }

  /** Encodes the ring's first row, unless it is outside the image, and drops it. */
  method EncodeFirst(ring: Ring<seq<int>>, outputH: int, ghost content: int -> seq<int>) returns (encoded: seq<Row>)
    requires 0 <= ring.begin && ring.Holds(content)
    modifies ring
    ensures ring.Holds(content)
    ensures encoded == if 0 <= old(ring.first) < outputH then [Row(old(ring.first), content(old(ring.first)))] else []
    ensures if old(ring.first) == old(ring.last) then ring.begin < 0
            else 0 <= ring.begin && ring.first == old(ring.first) + 1 && ring.last == old(ring.last)
  {
    encoded := [];
    if 0 <= ring.first < outputH {
      encoded := [Row(ring.first, ring.Scanline(ring.first))];
    }
    ring.DropFirst(content);
  }

  /** Encodes and drops every ring row above the first one still needed; rows outside the image are only dropped. */
  method EmptyRingBuffer(ring: Ring<seq<int>>, needed: int, outputH: int, ghost content: int -> seq<int>)
    returns (encoded: seq<Row>)
    requires ring.Holds(content)
    modifies ring
    ensures ring.Holds(content)
    ensures old(ring.begin) < 0 ==> encoded == [] && ring.begin < 0
    ensures old(ring.begin) >= 0 ==>
              if old(ring.last) < needed then
                ring.begin < 0 && encoded == Emitted(Max(old(ring.first), 0), Min(old(ring.last) + 1, outputH), content)
              else
                && 0 <= ring.begin && ring.first == Max(old(ring.first), needed) && ring.last == old(ring.last)
                && encoded == Emitted(Max(old(ring.first), 0), Min(ring.first, outputH), content)
  {
    encoded := [];
    if ring.begin >= 0 {
      ghost var lo := Max(ring.first, 0);
      var done := false;
      assert Emitted(lo, Min(ring.first, outputH), content) == [];
      hide Emitted, Ring.Holds;
      while needed > ring.first && !done
        invariant old(ring.first) <= ring.first || done
        invariant Draining(ring, needed, outputH, content, encoded, lo, old(ring.first), old(ring.last), done)
        decreases if done then 0 else needed - ring.first
      {
        encoded, done := DrainOne(ring, needed, outputH, content, encoded, lo, old(ring.first), old(ring.last));
      }
    }
  }

  /** Encodes or drops the oldest row; `done` says that the ring is empty then. */
  method DrainOne(ring: Ring<seq<int>>, needed: int, outputH: int, ghost content: int -> seq<int>, encoded: seq<Row>,
          ghost lo: int, ghost first: int, ghost last: int)
    returns (more: seq<Row>, done: bool)
    requires needed > ring.first && lo == Max(first, 0)
    requires Draining(ring, needed, outputH, content, encoded, lo, first, last, false)
    modifies ring
    ensures Draining(ring, needed, outputH, content, more, lo, first, last, done)
    ensures !done ==> ring.first == old(ring.first) + 1
  {
    hide Emitted, Ring.Holds;
    EmittedStep(lo, ring.first, outputH, content);
    done := ring.first == ring.last;
    var row := EncodeFirst(ring, outputH, content);
    more := encoded + row;
  }

  /** Part-way through emptying the ring: the rows from `lo` up to the ring's first one are out, or all of them are. */
  ghost predicate Draining(ring: Ring<seq<int>>, needed: int, outputH: int, content: int -> seq<int>, encoded: seq<Row>,
                           lo: int, first: int, last: int, done: bool)
    reads ring, ring.entries
  {
    && ring.Holds(content)
    && if done then ring.begin < 0 && last < needed && encoded == Emitted(lo, Min(last + 1, outputH), content)
       else
         && 0 <= ring.begin && ring.last == last && first <= ring.first <= Max(first, needed)
         && encoded == Emitted(lo, Min(ring.first, outputH), content)
  }

  lemma EmittedStep(lo: int, at: int, outputH: int, content: int -> seq<int>)
    requires lo == Max(at, 0) || 0 <= lo <= at
    ensures Emitted(lo, Min(at + 1, outputH), content) ==
            Emitted(lo, Min(at, outputH), content) + if 0 <= at < outputH then [Row(at, content(at))] else []
  {
  }

  /** Contributor ranges, indexed from input scanline `-margin`, lie inside their windows and inside the image. */
  ghost predicate Feeds(ranges: Contributors, margin: int, window: int -> Window, outputH: int) {
    forall j :: 0 <= j < |ranges| ==> Within(ranges[j], window(j - margin)) && Within(ranges[j], Window(0, outputH - 1))
  }

  /** A row below every window so far has been fed nothing. */
  lemma {:induction false} NothingYet(ranges: Contributors, margin: int, window: int -> Window, outputH: int,
          size: int, hi: int, k: int)
    requires Slides(window, size) && Feeds(ranges, margin, window, outputH)
    requires -margin <= hi && hi + margin <= |ranges|
    requires k < 0 || (hi > -margin ==> k > window(hi - 1).last)
    ensures Feeding(ranges, margin, -margin, hi, k) == []
    decreases hi + margin
  {
    if hi > -margin {
      assert window(hi - 2).last <= window(hi - 1).last && Within(ranges[hi - 1 + margin], window(hi - 1));
      NothingYet(ranges, margin, window, outputH, size, hi - 1, k);
    }
  }

  /** A row above the current window, or below the image, is fed nothing more. */
  lemma {:induction false} NothingMore(ranges: Contributors, margin: int, window: int -> Window, outputH: int,
          size: int, from: int, hi: int, k: int)
    requires Slides(window, size) && Feeds(ranges, margin, window, outputH)
    requires -margin <= from <= hi && hi + margin <= |ranges|
    requires k < window(from).first || k < 0 || k >= outputH
    ensures Feeding(ranges, margin, -margin, hi, k) == Feeding(ranges, margin, -margin, from, k)
    decreases hi - from
  {
    if from < hi {
      assert window(from).first <= window(hi - 1).first && Within(ranges[hi - 1 + margin], window(hi - 1));
      NothingMore(ranges, margin, window, outputH, size, from, hi - 1, k);
    }
  }

  /** Adds the horizontal buffer of scanline `y` to the entries of its contributor range. */
  method ResampleVerticalDown(ring: Ring<seq<int>>, range: Window, y: int, ghost content: int -> seq<int>,
          ghost after: int -> seq<int>)
    requires 0 <= ring.begin && ring.Holds(content)
    requires Within(range, Window(ring.first, ring.last))
    requires forall k :: after(k) == if range.first <= k <= range.last then content(k) + [y] else content(k)
    modifies ring.entries
    ensures ring.Holds(after)
  {
    hide Wrap;
    var k := range.first;
    while k <= range.last
      invariant range.first <= k <= range.last + 1 || k == range.first > range.last
      invariant forall j :: ring.first <= j <= ring.last ==>
        ring.entries[Wrap(ring.begin + (j - ring.first), ring.entries.Length)]
        == if range.first <= j < k then after(j) else content(j)
    {
      var slot := Wrap(ring.begin + (k - ring.first), ring.entries.Length);
      ring.entries[slot] := ring.entries[slot] + [y];
      k := k + 1;
    }
  }

  /** Opens entries until the ring covers the window. */
  method GrowDown(ring: Ring<seq<int>>, w: Window, ghost content: int -> seq<int>)
    requires ring.entries.Length > 0 && ring.empty == [] && ring.Holds(content)
    requires w.first <= w.last && w.last - w.first + 1 <= ring.entries.Length
    requires ring.begin >= 0 ==> ring.first == w.first && ring.last <= w.last
    requires forall k :: (if ring.begin < 0 then w.first else ring.last + 1) <= k <= w.last ==> content(k) == []
    modifies ring, ring.entries
    ensures 0 <= ring.begin && ring.Holds(content) && ring.first == w.first && ring.last == w.last
  {
    if ring.begin < 0 {
      var _ := ring.AddEmptyEntry(w.first, content);
    }
    while w.last > ring.last
      invariant 0 <= ring.begin && ring.Holds(content) && ring.first == w.first && ring.last <= w.last
      invariant forall k :: ring.last + 1 <= k <= w.last ==> content(k) == []
      decreases w.last - ring.last
    {
      var _ := ring.AddEmptyEntry(ring.last + 1, content);
    }
  }

  /** What has been accumulated in each row by the input scanlines above `hi`. */
  ghost function FedBefore(ranges: Contributors, margin: int, hi: int): int -> seq<int>
    requires -margin <= hi && hi + margin <= |ranges|
  {
    k => Feeding(ranges, margin, -margin, hi, k)
  }

  /** Rows above the current window are final. */
  lemma EmittedIsFinal(ranges: Contributors, margin: int, window: int -> Window, outputH: int, size: int, y: int,
          lo: int, hi: int)
    requires Slides(window, size) && Feeds(ranges, margin, window, outputH)
    requires -margin <= y && y + margin <= |ranges| && (y + margin < |ranges| ==> hi <= window(y).first)
    ensures Emitted(lo, hi, FedBefore(ranges, margin, y))
            == Emitted(lo, hi, FedBefore(ranges, margin, |ranges| - margin))
  {
    if y + margin < |ranges| {
      forall k | lo <= k < hi
        ensures FedBefore(ranges, margin, y)(k) == FedBefore(ranges, margin, |ranges| - margin)(k)
      {
        NothingMore(ranges, margin, window, outputH, size, y, |ranges| - margin, k);
      }
    }
    EmittedAgrees(lo, hi, FedBefore(ranges, margin, y), FedBefore(ranges, margin, |ranges| - margin));
  }

  /** Where the loop stands before it visits input scanline `y`: which rows are out, and which the ring holds. */
  ghost predicate Standing(ring: Ring<seq<int>>, encoded: seq<Row>, ranges: Contributors, margin: int,
          window: int -> Window, outputH: int, y: int)
    requires -margin <= y && y + margin <= |ranges|
    reads ring, ring.entries
  {
    && ring.Holds(FedBefore(ranges, margin, y))
    && if ring.begin < 0 then
         encoded == [] && (y == -margin || window(y - 1).last < 0 || window(-margin).first >= outputH)
       else
         && y > -margin && window(-margin).first <= ring.first < outputH && 0 <= ring.last
         && encoded == Emitted(Max(window(-margin).first, 0), Max(ring.first, 0),
            FedBefore(ranges, margin, |ranges| - margin))
         && (Window(ring.first, ring.last) == window(y - 1)
            || (window(y - 1).first >= outputH && ring.last >= outputH - 1))
  }

  /** Rows that become final are encoded, and the ring is opened up to the window of scanline `y`. */
  method MakeRoom(ring: Ring<seq<int>>, encoded: seq<Row>, ranges: Contributors, margin: int, window: int -> Window,
          outputH: int, y: int)
    returns (more: seq<Row>)
    requires ring.entries.Length > 0 && Slides(window, ring.entries.Length) && Feeds(ranges, margin, window, outputH)
    requires -margin <= y && y + margin < |ranges| && ring.empty == []
    requires Standing(ring, encoded, ranges, margin, window, outputH, y)
    requires window(y).last >= 0 && window(y).first < outputH
    modifies ring, ring.entries
    ensures 0 <= ring.begin && ring.Holds(FedBefore(ranges, margin, y)) && Window(ring.first, ring.last) == window(y)
    ensures more == Emitted(Max(window(-margin).first, 0), Max(ring.first, 0),
            FedBefore(ranges, margin, |ranges| - margin))
  {
    hide Emitted, Feeding, Ring.Holds, Feeds;
    var w := window(y);
    assert window(-margin).first <= w.first;
    ghost var content, final := FedBefore(ranges, margin, y), FedBefore(ranges, margin, |ranges| - margin);
    ghost var lo, from := Max(window(-margin).first, 0), Max(ring.first, 0);
    var rows := EmptyRingBuffer(ring, w.first, outputH, content);
    more := encoded + rows;
    NoneEmitted(lo, Max(w.first, 0), final);
    NoneEmitted(from, w.first, content);
    if old(ring.begin) >= 0 {
      assert window(y - 1).first <= w.first <= window(y - 1).last + 1;
      EmittedIsFinal(ranges, margin, window, outputH, ring.entries.Length, y, from, w.first);
      assert rows == Emitted(from, w.first, content);
      if from <= w.first { EmittedJoin(lo, from, w.first, final); }
    }
    forall k | (if ring.begin < 0 then w.first else ring.last + 1) <= k ensures content(k) == [] {
      NothingYet(ranges, margin, window, outputH, ring.entries.Length, y, k);
    }
    GrowDown(ring, w, content);
  }

  lemma HoldsAgrees<T>(ring: Ring<T>, a: int -> T, b: int -> T)
    requires ring.Holds(a) && forall k :: a(k) == b(k)
    ensures ring.Holds(b)
  {
  }

  /** A scanline whose window misses the image changes nothing. */
  lemma SkippingKeeps(ring: Ring<seq<int>>, encoded: seq<Row>, ranges: Contributors, margin: int,
          window: int -> Window, size: int, outputH: int, y: int)
    requires Slides(window, size) && Feeds(ranges, margin, window, outputH) && outputH > 0
    requires -margin <= y && y + margin < |ranges|
    requires Standing(ring, encoded, ranges, margin, window, outputH, y)
    requires window(y).last < 0 || window(y).first >= outputH
    ensures Standing(ring, encoded, ranges, margin, window, outputH, y + 1)
  {
    assert Within(ranges[y + margin], window(y)) && Within(ranges[y + margin], Window(0, outputH - 1));
    forall k ensures FedBefore(ranges, margin, y)(k) == FedBefore(ranges, margin, y + 1)(k) {
    }
    HoldsAgrees(ring, FedBefore(ranges, margin, y), FedBefore(ranges, margin, y + 1));
    assert window(-margin).first <= window(y).first;
    if y > -margin {
      assert window(y - 1).last <= window(y).last && window(y - 1).first <= window(y).first <= window(y - 1).last + 1;
    }
  }

  /** The ring is as large as every window, which are those of the contributor ranges. */
  ghost predicate Serves(ring: Ring<seq<int>>, ranges: Contributors, margin: int, window: int -> Window, outputH: int) {
    && ring.entries.Length > 0 && ring.empty == [] && outputH > 0
    && Slides(window, ring.entries.Length) && Feeds(ranges, margin, window, outputH)
  }

  /** One turn of the loop: the contributions of input scanline `y`, or nothing if its window misses the image. */
  method VisitScanline(ring: Ring<seq<int>>, encoded: seq<Row>, ranges: Contributors, margin: int,
          window: int -> Window, outputH: int, y: int)
    returns (more: seq<Row>)
    requires Serves(ring, ranges, margin, window, outputH)
    requires -margin <= y && y + margin < |ranges| && Standing(ring, encoded, ranges, margin, window, outputH, y)
    modifies ring, ring.entries
    ensures Standing(ring, more, ranges, margin, window, outputH, y + 1)
  {
    var w := window(y);
    assert w.last - w.first + 1 <= ring.entries.Length;
    if w.last < 0 || w.first >= outputH {
      SkippingKeeps(ring, encoded, ranges, margin, window, ring.entries.Length, outputH, y);
      more := encoded;
    } else {
      assert window(-margin).first <= w.first && Within(ranges[y + margin], window(y));
      more := MakeRoom(ring, encoded, ranges, margin, window, outputH, y);
      ResampleVerticalDown(ring, ranges[y + margin], y, FedBefore(ranges, margin, y), FedBefore(ranges, margin, y + 1));
    }
  }

  /** Encodes what is left in the ring after the last scanline. */
  method Finish(ring: Ring<seq<int>>, encoded: seq<Row>, ranges: Contributors, margin: int, window: int -> Window,
          outputH: int, y: int)
    returns (all: seq<Row>)
    requires outputH > 0 && -margin < y && y + margin == |ranges|
             && Standing(ring, encoded, ranges, margin, window, outputH, y)
    requires window(y - 1).first <= window(y - 1).last
    modifies ring
    ensures IsEveryRow(all, Max(window(-margin).first, 0), Min(window(y - 1).last + 1, outputH),
            FedBefore(ranges, margin, y))
  {
    ghost var standing, content := ring.begin >= 0, FedBefore(ranges, margin, y);
    ghost var lo, from, to := Max(window(-margin).first, 0), Max(ring.first, 0), Min(ring.last + 1, outputH);
    var rows := EmptyRingBuffer(ring, outputH, outputH, content);
    all := encoded + rows;
    if standing {
      assert rows == Emitted(from, to, content);
      EmittedJoin(lo, from, to, content);
    }
    assert all == Emitted(lo, Min(window(y - 1).last + 1, outputH), content);
    EmittedIs(lo, Min(window(y - 1).last + 1, outputH), content);
  }

  lemma NothingStands(ring: Ring<seq<int>>, ranges: Contributors, margin: int, window: int -> Window, outputH: int)
    requires ring.begin < 0 && 0 <= margin + margin <= |ranges|
    ensures Standing(ring, [], ranges, margin, window, outputH, -margin)
  {
  }

  /** The downsampling loop over given windows. */
  method DownsampleOver(ring: Ring<seq<int>>, window: int -> Window, margin: int, inputH: int, outputH: int,
          ranges: Contributors)
    returns (encoded: seq<Row>)
    requires ring.begin < 0 && Serves(ring, ranges, margin, window, outputH)
    requires margin >= 0 && inputH > 0 && |ranges| == inputH + 2 * margin
    modifies ring, ring.entries
    ensures IsEveryRow(encoded, Max(window(-margin).first, 0), Min(window(inputH + margin - 1).last + 1, outputH),
                       FedBefore(ranges, margin, inputH + margin))
  {
    NothingStands(ring, ranges, margin, window, outputH);
    assert window(inputH + margin - 1).first <= window(inputH + margin - 1).last;
    hide *;
    encoded := VisitScanlines(ring, window, margin, inputH, outputH, ranges);
    encoded := Finish(ring, encoded, ranges, margin, window, outputH, inputH + margin);
  }

  /** The loop over the input scanlines, those of the margins included. */
  method VisitScanlines(ring: Ring<seq<int>>, window: int -> Window, margin: int, inputH: int, outputH: int,
          ranges: Contributors)
    returns (encoded: seq<Row>)
    requires margin >= 0 && inputH > 0 && |ranges| == inputH + 2 * margin
    requires Serves(ring, ranges, margin, window, outputH)
             && Standing(ring, [], ranges, margin, window, outputH, -margin)
    modifies ring, ring.entries
    ensures Standing(ring, encoded, ranges, margin, window, outputH, inputH + margin)
  {
    hide *;
    encoded := [];
    var maxY := inputH + margin;
    var y := -margin;
    while y < maxY
      invariant -margin <= y <= maxY
      invariant Standing(ring, encoded, ranges, margin, window, outputH, y)
    {
      encoded := VisitScanline(ring, encoded, ranges, margin, window, outputH, y);
      y := y + 1;
    }
  }

  /** The rows `lo..hi-1`, each once, in increasing order, each with what it has accumulated. */
  ghost predicate IsEveryRow(encoded: seq<Row>, lo: int, hi: int, content: int -> seq<int>) {
    |encoded| == Max(hi - lo, 0) && forall i :: 0 <= i < |encoded| ==> encoded[i] == Row(lo + i, content(lo + i))
  }

  lemma {:induction false} EmittedIs(lo: int, hi: int, content: int -> seq<int>)
    ensures IsEveryRow(Emitted(lo, hi, content), lo, hi, content)
    decreases hi - lo
  {
    if lo < hi { EmittedIs(lo, hi - 1, content); }
  }

  lemma DownWindowsSlide(filter: Filter, scale: real, shift: real)
    requires 0.0 < scale <= 1.0
    ensures RingEntries(filter, scale) > 0 && PixelMargin(filter, scale) >= 0
    ensures Slides(n => DownWindow(filter, scale, shift, n), RingEntries(filter, scale))
  {
    DownWindowSlides(filter, scale, shift, 0);
    var window := n => DownWindow(filter, scale, shift, n);
    forall n, m | m == n + 1 ensures StepsTo(window(n), window(m), RingEntries(filter, scale)) {
      DownWindowSlides(filter, scale, shift, n);
    }
    StepsSlide(window, RingEntries(filter, scale));
  }

  /**
   * For any scale up to 1 and any shift: the rows between the top of the first window and the bottom of the last one
   * that lie in the image are encoded, each once, in increasing order, and each from exactly the input scanlines that
   * feed it.
   */
  method BufferLoopDownsample(filter: Filter, scale: real, shift: real, inputH: int, outputH: int, ranges: Contributors)
    returns (encoded: seq<Row>)
    requires 0.0 < scale <= 1.0 && inputH > 0 && outputH > 0
    requires |ranges| == inputH + 2 * PixelMargin(filter, scale)
    requires Feeds(ranges, PixelMargin(filter, scale), n => DownWindow(filter, scale, shift, n), outputH)
    ensures var margin := PixelMargin(filter, scale);
            && margin >= 0
            && IsEveryRow(encoded, Max(DownWindow(filter, scale, shift, -margin).first, 0),
                          Min(DownWindow(filter, scale, shift, inputH + margin - 1).last + 1, outputH),
                          FedBefore(ranges, margin, inputH + margin))
  {
    hide RingEntries, PixelMargin, DownWindow, IsEveryRow, Slides, Feeds, FedBefore;
    DownWindowsSlide(filter, scale, shift);
    var ring := new Ring<seq<int>>(RingEntries(filter, scale), []);
    encoded := DownsampleOver(ring, n => DownWindow(filter, scale, shift, n), PixelMargin(filter, scale), inputH,
        outputH, ranges);
  }

  /** Shrinking any region 0 <= t0 < t1 <= 1 of an image encodes every output row exactly once, from row 0 down. */
  method ShrinkRegion(filter: Filter, inputH: int, outputH: int, t0: real, t1: real, ranges: Contributors)
    returns (encoded: seq<Row>)
    requires inputH > 0 && outputH > 0 && 0.0 <= t0 < t1 <= 1.0
    requires 0.0 < VerticalScale(inputH, outputH, t0, t1) <= 1.0
    requires |ranges| == inputH + 2 * PixelMargin(filter, VerticalScale(inputH, outputH, t0, t1))
    requires Feeds(ranges, PixelMargin(filter, VerticalScale(inputH, outputH, t0, t1)),
                   n => DownWindow(filter, VerticalScale(inputH, outputH, t0, t1), VerticalShift(outputH, t0, t1), n),
                   outputH)
    ensures var margin := PixelMargin(filter, VerticalScale(inputH, outputH, t0, t1));
            && margin >= 0 && |encoded| == outputH
            && forall r :: 0 <= r < outputH ==>
               encoded[r] == Row(r, Feeding(ranges, margin, -margin, inputH + margin, r))
  {
    RegionReachesAllRows(filter, inputH, outputH, t0, t1);
    encoded := BufferLoopDownsample(filter, VerticalScale(inputH, outputH, t0, t1), VerticalShift(outputH, t0, t1),
        inputH, outputH, ranges);
  }
}
