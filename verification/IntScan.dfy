/** Scanning an integer in any base from the start of a string. */
module IntScan {
  import opened Arithmetic
  import opened Basics
  import opened BitArithmetic
  import opened Decimal
  import opened IntPrint

  const ULLONG_MAX := 0xFFFF_FFFF_FFFF_FFFF
  const UINT_MAX := 0xFFFF_FFFF

  datatype Errno = NoError | Invalid | Range

  /** A scanned word, how much of the string it took, and the error code if one was set. */
  datatype Scanned = Scanned(value: nat, consumed: nat, errno: Errno)

  predicate IsSpace(c: char) { c == ' ' || '\t' <= c <= '\r' }

  /** What a character is worth as a digit; 255 for one that is not a digit in any base. */
  function Worth(c: char): (v: nat)
    ensures v < 36 || v == 255
  {
    if '0' <= c <= '9' then (c - '0') as nat
    else if 'A' <= c <= 'Z' then 10 + (c - 'A') as nat
    else if 'a' <= c <= 'z' then 10 + (c - 'a') as nat
    else 255
  }

  const FIGURES := "0123456789"
  const SMALL := "abcdefghijklmnopqrstuvwxyz"
  const CAPITALS := "ABCDEFGHIJKLMNOPQRSTUVWXYZ"

  lemma FiguresAre(i: nat)
    requires i < 10
    ensures FIGURES[i] as int == 48 + i
  {
  }

  lemma LettersAre(i: nat)
    requires i < 26
    ensures SMALL[i] as int == 97 + i && CAPITALS[i] as int == 65 + i
  {
  }

  /** Digits and the letters of both cases are worth their places. */
  lemma WorthIs(i: nat)
    ensures i < 10 ==> Worth(FIGURES[i]) == i
    ensures i < 26 ==> Worth(SMALL[i]) == Worth(CAPITALS[i]) == 10 + i
  {
    if i < 10 { FiguresAre(i); }
    if i < 26 { LettersAre(i); }
  }

  /** No other character is worth anything. */
  lemma OthersAreWorthNothing(c: char)
    ensures Worth(c) == 255 || c in FIGURES || c in SMALL || c in CAPITALS
  {
    if '0' <= c <= '9' {
      FiguresAre((c - '0') as nat);
      assert FIGURES[(c - '0') as nat] == c;
    } else if 'A' <= c <= 'Z' {
      LettersAre((c - 'A') as nat);
      assert CAPITALS[(c - 'A') as nat] == c;
    } else if 'a' <= c <= 'z' {
      LettersAre((c - 'a') as nat);
      assert SMALL[(c - 'a') as nat] == c;
    }
  }

  // ---- what is to be computed ----

  function SpacesEnd(s: string, i: nat): (e: nat)
    requires i <= |s|
    ensures i <= e <= |s| && !IsSpace(At(s, e))
    decreases |s| - i
  {
    if IsSpace(At(s, i)) then SpacesEnd(s, i + 1) else i
  }

  function DigitsEnd(s: string, i: nat, base: nat): (e: nat)
    requires i <= |s| && base <= 36
    ensures i <= e <= |s| && Worth(At(s, e)) >= base
    ensures forall j :: i <= j < e ==> Worth(s[j]) < base
    decreases |s| - i
  {
    if Worth(At(s, i)) < base then DigitsEnd(s, i + 1, base) else i
  }

  /** A number with one more digit after its last. */
  function Appended(y: nat, base: nat, d: nat): nat { y * base + d }

  /** The number that a stretch of digits denotes, without any limit. */
  function Number(s: string, i: nat, e: nat, base: nat): nat
    requires i <= e <= |s|
  {
    if i == e then 0 else Appended(Number(s, i, e - 1, base), base, Worth(s[e - 1]))
  }

  datatype Start = Digits(at: nat, base: nat) | Zero(consumed: nat) | Bad

  /** What follows the sign: digits in a base that a prefix may have set, a bare zero, or neither. */
  function StartOf(s: string, i: nat, base: nat, pok: bool): (start: Start)
    requires i <= |s| && base != 1 && base <= 36
    ensures start.Digits? ==> i <= start.at <= |s| && 2 <= start.base <= 36
  {
    if (base == 0 || base == 16) && At(s, i) == '0' then
      if At(s, i + 1) == 'x' || At(s, i + 1) == 'X' then
        if Worth(At(s, i + 2)) >= 16 then Zero(if pok then i + 1 else 0) else Digits(i + 2, 16)
      else Digits(i + 1, if base == 0 then 8 else base)
    else
      var base := if base == 0 then 10 else base;
      if Worth(At(s, i)) >= base then Bad else Digits(i, base)
  }

  /** Two's complement negation of a word. */
  function Negated(y: nat): nat
    requires y < WORD
  {
    if y == 0 then 0 else WORD - y
  }

  /** The greatest magnitude that is not out of range: odd limits are unsigned, even ones signed. */
  function Greatest(lim: nat, negative: bool): nat
    requires lim > 0
  {
    if lim % 2 == 0 && !negative then lim - 1 else lim
  }

  /**
   * The word for a number with its sign: saturated at the limit of its type, where a negative
   * number that does not even fit a word comes out as the negated limit.
   */
  function Limited(n: nat, negative: bool, lim: nat): nat
    requires 0 < lim < WORD
  {
    if n <= Greatest(lim, negative) then if negative then Negated(n) else n
    else if negative && lim % 2 == 0 && n > ULLONG_MAX then Negated(lim)
    else Greatest(lim, negative)
  }

  function Scan(s: string, base: nat, pok: bool, lim: nat): Scanned
    requires 0 < lim < WORD
  {
    if base > 36 || base == 1 then Scanned(0, 0, Invalid)
    else
      var i := SpacesEnd(s, 0);
      var signed := At(s, i) == '+' || At(s, i) == '-';
      match StartOf(s, if signed then i + 1 else i, base, pok)
      case Bad => Scanned(0, 0, Invalid)
      case Zero(consumed) => Scanned(0, consumed, NoError)
      case Digits(at, b) =>
        var e := DigitsEnd(s, at, b);
        var n := Number(s, at, e, b);
        Scanned(Limited(n, At(s, i) == '-', lim), e, if n > Greatest(lim, At(s, i) == '-') then Range else NoError)
  }

  // ---- the digit loops ----

  lemma {:induction false} NumberGrows(s: string, i: nat, e: nat, f: nat, base: nat)
    requires i <= e <= f <= |s| && base >= 1
    ensures Number(s, i, e, base) <= Number(s, i, f, base)
    decreases f - e
  {
    if e < f {
      NumberGrows(s, i, e, f - 1, base);
      MulAtLeast(base, Number(s, i, f - 1, base));
    }
  }

  /** The word accumulated from the digits before `e` is their number, so it has not wrapped. */
  predicate Accumulated(s: string, i: nat, base: nat, e: nat, y: nat)
    requires i <= |s| && base <= 36
  {
    i <= e <= DigitsEnd(s, i, base) && y == Number(s, i, e, base)
  }

  /** The loops have stopped at the last digit, or at one that would make the word wrap. */
  predicate Stopped(s: string, i: nat, base: nat, e: nat, y: nat)
    requires i <= |s| && base <= 36
  {
    && Accumulated(s, i, base, e, y) && y <= ULLONG_MAX
    && (e < DigitsEnd(s, i, base) ==> Appended(y, base, Worth(At(s, e))) > ULLONG_MAX)
  }

  lemma AnotherDigit(s: string, i: nat, base: nat, e: nat, y: nat)
    requires i <= |s| && 2 <= base <= 36 && Accumulated(s, i, base, e, y)
    ensures Worth(At(s, e)) < base <==> e < DigitsEnd(s, i, base)
    ensures e < DigitsEnd(s, i, base) ==> Accumulated(s, i, base, e + 1, Appended(y, base, Worth(At(s, e))))
  {
    if e < DigitsEnd(s, i, base) {
      assert Worth(s[e]) < base;
    }
  }

  /** Stopping early means that the whole number is too large for a word. */
  lemma StoppedEarly(s: string, i: nat, base: nat, e: nat, y: nat)
    requires i <= |s| && 2 <= base <= 36 && Stopped(s, i, base, e, y)
    ensures Number(s, i, DigitsEnd(s, i, base), base) > ULLONG_MAX <==> e < DigitsEnd(s, i, base)
  {
    AnotherDigit(s, i, base, e, y);
    if e < DigitsEnd(s, i, base) {
      NumberGrows(s, i, e + 1, DigitsEnd(s, i, base), base);
    }
  }

  /** Whether another digit fits into the word; the product is only formed if it does not wrap. */
  predicate Fits(y: nat, base: nat, d: nat)
    requires base > 0
  {
    y <= ULLONG_MAX / base && base * y <= ULLONG_MAX - d
  }

  lemma FitsIff(y: nat, base: nat, d: nat)
    requires 2 <= base <= 36 && d < base
    ensures Fits(y, base, d) <==> Appended(y, base, d) <= ULLONG_MAX
  {
    QuotientBelow(ULLONG_MAX, base, y);
  }

  lemma NarrowFits(x: nat, base: nat, d: nat)
    requires 2 <= base <= 36 && d < base && x <= UINT_MAX / 36 - 1
    ensures Appended(x, base, d) <= UINT_MAX
  {
    assert x * base <= x * 36;
  }

  /** In base ten: a 32-bit word while it is sure not to wrap, then a 64-bit one. */
  method ScanDecimal(s: string, i: nat) returns (e: nat, y: nat)
    requires i <= |s|
    ensures Stopped(s, i, 10, e, y)
  {
    var x: nat := 0;
    e := i;
    AnotherDigit(s, i, 10, e, x);
    while IsDigit(At(s, e)) && x <= UINT_MAX / 10 - 1
      invariant Accumulated(s, i, 10, e, x) && x <= UINT_MAX
      decreases DigitsEnd(s, i, 10) - e
    {
      AnotherDigit(s, i, 10, e, x);
      x := Appended(x, 10, Worth(At(s, e)));
      e := e + 1;
    }
    y := x;
    while IsDigit(At(s, e)) && Fits(y, 10, Worth(At(s, e)))
      invariant Accumulated(s, i, 10, e, y) && y <= ULLONG_MAX
      decreases DigitsEnd(s, i, 10) - e
    {
      AnotherDigit(s, i, 10, e, y);
      y := Appended(y, 10, Worth(At(s, e)));
      e := e + 1;
    }
    AnotherDigit(s, i, 10, e, y);
  }

  /** The shift for a power-of-two base, looked up by a multiplicative hash of the base. */
  function ShiftOf(base: bv16): nat {
    [0, 1, 2, 4, 7, 3, 6, 5][((((0x17 as bv16) * base) >> 5) & 7) as nat]
  }

  lemma ShiftIsLog(base: bv16)
    requires 2 <= base <= 36
    ensures base & (base - 1) == 0 ==> Pow2(ShiftOf(base)) == base as nat && ShiftOf(base) <= 5
  {
    if base & (base - 1) == 0 {
      assert base == 2 || base == 4 || base == 8 || base == 16 || base == 32;
      assert Pow2(5) == 2 * Pow2(4) == 4 * Pow2(3) == 8 * Pow2(2) == 16 * Pow2(1) == 32;
    }
  }

  /** Whether a word can be shifted without losing bits. */
  predicate Shiftable(y: nat, bs: nat) { y <= ULLONG_MAX / Pow2(bs) }

  lemma ShiftableIff(y: nat, base: nat, bs: nat, d: nat)
    requires base == Pow2(bs) && bs <= 5 && d < base
    ensures Shiftable(y, bs) <==> Appended(y, base, d) <= ULLONG_MAX
  {
    assert bs == 0 || bs == 1 || bs == 2 || bs == 3 || bs == 4 || bs == 5;
    assert Pow2(5) == 2 * Pow2(4) == 4 * Pow2(3) == 8 * Pow2(2) == 16 * Pow2(1) == 32;
  }

  lemma NarrowShifts(x: nat, base: nat, bs: nat, d: nat)
    requires base == Pow2(bs) && bs <= 5 && d < base && x <= UINT_MAX / 32
    ensures Appended(x, base, d) <= UINT_MAX
  {
    assert bs == 0 || bs == 1 || bs == 2 || bs == 3 || bs == 4 || bs == 5;
    assert Pow2(5) == 2 * Pow2(4) == 4 * Pow2(3) == 8 * Pow2(2) == 16 * Pow2(1) == 32;
  }

  /** In a power-of-two base digits are shifted in, first into a 32-bit word, then into a 64-bit one. */
  method ScanShifted(s: string, i: nat, base: nat, bs: nat) returns (e: nat, y: nat)
    requires i <= |s| && 2 <= base <= 36 && base == Pow2(bs) && bs <= 5
    ensures Stopped(s, i, base, e, y)
  {
    var x: nat := 0;
    e := i;
    while Worth(At(s, e)) < base && x <= UINT_MAX / 32
      invariant Accumulated(s, i, base, e, x) && x <= UINT_MAX
      decreases DigitsEnd(s, i, base) - e
    {
      AnotherDigit(s, i, base, e, x);
      NarrowShifts(x, base, bs, Worth(At(s, e)));
      ShiftOrAppends(x, bs, Worth(At(s, e)), UINT_MAX + 1);
      x := Or(ShiftLeft(x, bs, UINT_MAX + 1), Worth(At(s, e)));
      e := e + 1;
    }
    y := x;
    while Worth(At(s, e)) < base && Shiftable(y, bs)
      invariant Accumulated(s, i, base, e, y) && y <= ULLONG_MAX
      decreases DigitsEnd(s, i, base) - e
    {
      AnotherDigit(s, i, base, e, y);
      ShiftableIff(y, base, bs, Worth(At(s, e)));
      ShiftOrAppends(y, bs, Worth(At(s, e)), WORD);
      y := Or(ShiftLeft(y, bs, WORD), Worth(At(s, e)));
      e := e + 1;
    }
    AnotherDigit(s, i, base, e, y);
    if Worth(At(s, e)) < base {
      ShiftableIff(y, base, bs, Worth(At(s, e)));
    }
  }

  /** In any other base. */
  method ScanGeneral(s: string, i: nat, base: nat) returns (e: nat, y: nat)
    requires i <= |s| && 2 <= base <= 36
    ensures Stopped(s, i, base, e, y)
  {
    var x: nat := 0;
    e := i;
    while Worth(At(s, e)) < base && x <= UINT_MAX / 36 - 1
      invariant Accumulated(s, i, base, e, x) && x <= UINT_MAX
      decreases DigitsEnd(s, i, base) - e
    {
      AnotherDigit(s, i, base, e, x);
      NarrowFits(x, base, Worth(At(s, e)));
      x := Appended(x, base, Worth(At(s, e)));
      e := e + 1;
    }
    y := x;
    while Worth(At(s, e)) < base && Fits(y, base, Worth(At(s, e)))
      invariant Accumulated(s, i, base, e, y) && y <= ULLONG_MAX
      decreases DigitsEnd(s, i, base) - e
    {
      AnotherDigit(s, i, base, e, y);
      FitsIff(y, base, Worth(At(s, e)));
      y := Appended(y, base, Worth(At(s, e)));
      e := e + 1;
    }
    AnotherDigit(s, i, base, e, y);
    if Worth(At(s, e)) < base {
      FitsIff(y, base, Worth(At(s, e)));
    }
  }

  /** Accumulates the digits by whichever loop the base asks for. */
  method ScanDigits(s: string, i: nat, base: nat) returns (e: nat, y: nat)
    requires i <= |s| && 2 <= base <= 36
    ensures Stopped(s, i, base, e, y)
  {
    var bits := base as bv16;
    if base == 10 {
      e, y := ScanDecimal(s, i);
    } else if bits & (bits - 1) == 0 {
      ShiftIsLog(bits);
      e, y := ScanShifted(s, i, base, ShiftOf(bits));
    } else {
      e, y := ScanGeneral(s, i, base);
    }
  }

  // ---- the whole scan ----

  method SkipSpaces(s: string) returns (i: nat)
    ensures i == SpacesEnd(s, 0)
  {
    i := 0;
    while IsSpace(At(s, i))
      invariant i <= |s| && SpacesEnd(s, 0) == SpacesEnd(s, i)
      decreases |s| - i
    {
      i := i + 1;
    }
  }

  method SkipDigits(s: string, from: nat, base: nat) returns (e: nat)
    requires from <= |s| && base <= 36
    ensures e == DigitsEnd(s, from, base)
  {
    e := from;
    while Worth(At(s, e)) < base
      invariant e <= |s| && DigitsEnd(s, from, base) == DigitsEnd(s, e, base)
      decreases |s| - e
    {
      e := e + 1;
    }
  }

  lemma {:induction false} DigitsEndFrom(s: string, i: nat, e: nat, base: nat)
    requires i <= |s| && base <= 36 && i <= e <= DigitsEnd(s, i, base)
    ensures DigitsEnd(s, e, base) == DigitsEnd(s, i, base)
    decreases e - i
  {
    if i < e {
      DigitsEndFrom(s, i + 1, e, base);
    }
  }

  /** Applies the limit and the sign; `more` says that digits were left over. */
  method Saturate(accumulated: nat, more: bool, minus: bool, lim: nat, ghost n: nat) returns (value: nat, errno: Errno)
    requires 0 < lim < WORD && (more <==> n > ULLONG_MAX) && (!more ==> accumulated == n)
    ensures value == Limited(n, minus, lim) && errno == if n > Greatest(lim, minus) then Range else NoError
  {
    var y, neg := accumulated, minus;
    errno := NoError;
    if more {
      errno := Range;
      y := lim;
      if lim % 2 == 1 {
        neg := false;
      }
    }
    if y >= lim {
      if lim % 2 == 0 && !neg {
        return lim - 1, Range;
      } else if y > lim {
        return lim, Range;
      }
    }
    value := if neg then (WORD - 1 - y + 1) % WORD else y;
  }

  /** Scans the digits. */
  method ScanNumber(s: string, at: nat, base: nat, minus: bool, lim: nat) returns (r: Scanned)
    requires at <= |s| && 2 <= base <= 36 && 0 < lim < WORD
    ensures var n := Number(s, at, DigitsEnd(s, at, base), base);
            r == Scanned(Limited(n, minus, lim), DigitsEnd(s, at, base),
                         if n > Greatest(lim, minus) then Range else NoError)
  {
    var e, y := ScanDigits(s, at, base);
    AnotherDigit(s, at, base, e, y);
    StoppedEarly(s, at, base, e, y);
    DigitsEndFrom(s, at, e, base);
    var end := e;
    if Worth(At(s, e)) < base {
      end := SkipDigits(s, e, base);
    }
    var value, errno := Saturate(y, e < end, minus, lim, Number(s, at, DigitsEnd(s, at, base), base));
    return Scanned(value, end, errno);
  }

  /** Interprets the characters after the sign that decide the base. */
  method FindStart(s: string, i: nat, base: nat, pok: bool) returns (start: Start)
    requires i <= |s| && base != 1 && base <= 36
    ensures start == StartOf(s, i, base, pok)
  {
    var at, radix := i, base;
    if (radix == 0 || radix == 16) && At(s, at) == '0' {
      at := at + 1;
      if At(s, at) == 'x' || At(s, at) == 'X' {
        at := at + 1;
        if Worth(At(s, at)) >= 16 {
          return Zero(if pok then at + 1 - 2 else 0);
        }
        radix := 16;
      } else if radix == 0 {
        radix := 8;
      }
    } else {
      if radix == 0 {
        radix := 10;
      }
      if Worth(At(s, at)) >= radix {
        return Bad;
      }
    }
    return Digits(at, radix);
  }

  method IntScan(s: string, base: nat, pok: bool, lim: nat) returns (r: Scanned)
    requires 0 < lim < WORD
    ensures r == Scan(s, base, pok, lim)
  {
    if base > 36 || base == 1 {
      return Scanned(0, 0, Invalid);
    }
    var i := SkipSpaces(s);
    var neg := false;
    if At(s, i) == '+' || At(s, i) == '-' {
      neg := At(s, i) == '-';
      i := i + 1;
    }
    var start := FindStart(s, i, base, pok);
    match start
    case Bad =>
      return Scanned(0, 0, Invalid);
    case Zero(consumed) =>
      return Scanned(0, consumed, NoError);
    case Digits(at, radix) =>
      r := ScanNumber(s, at, radix, neg, lim);
  }

  // ---- what the callers promise ----

  const SIGNED_LIMIT := 0x8000_0000_0000_0000

  /** The integer that the string denotes, however large, if it starts with one. */
  function Denoted(s: string, base: nat): Option<int>
    requires base != 1 && base <= 36
  {
    var i := SpacesEnd(s, 0);
    match StartOf(s, if At(s, i) == '+' || At(s, i) == '-' then i + 1 else i, base, true)
    case Bad => None
    case Zero(_) => Some(0)
    case Digits(at, b) =>
      var n: int := Number(s, at, DigitsEnd(s, at, b), b);
      Some(if At(s, i) == '-' then -n else n)
  }

  function Clamped(d: int, low: int, high: int): int { if d < low then low else if d > high then high else d }

  /** Signed conversion clamps to the range of its type, with a range error exactly outside it. */
  lemma SignedConversionIsExact(s: string, base: nat)
    requires base != 1 && base <= 36
    ensures var r := Scan(s, base, true, SIGNED_LIMIT);
            match Denoted(s, base)
            case None => r == Scanned(0, 0, Invalid)
            case Some(d) =>
              && AsSigned(r.value) == Clamped(d, LLONG_MIN, LLONG_MAX)
              && r.errno == if LLONG_MIN <= d <= LLONG_MAX then NoError else Range
  {
  }

  const NARROW_LIMIT := 0x8000_0000

  /** A word cast to a signed type of 32 bits. */
  function Narrowed(word: nat): int {
    var low: int := word % 0x1_0000_0000;
    if low < NARROW_LIMIT then low else low - 0x1_0000_0000
  }

  /** The same holds for a signed type of 32 bits, to which the word is then cast. */
  lemma NarrowConversionIsExact(s: string, base: nat)
    requires base != 1 && base <= 36
    ensures var r := Scan(s, base, true, NARROW_LIMIT);
            match Denoted(s, base)
            case None => r == Scanned(0, 0, Invalid)
            case Some(d) =>
              && Narrowed(r.value) == Clamped(d, -NARROW_LIMIT, NARROW_LIMIT - 1)
              && r.errno == if -NARROW_LIMIT <= d < NARROW_LIMIT then NoError else Range
  {
    hide SpacesEnd, DigitsEnd, Number, StartOf;
  }

  /** Unsigned conversion wraps negative numbers, and saturates exactly when the magnitude is too large. */
  lemma UnsignedConversionIsExact(s: string, base: nat)
    requires base != 1 && base <= 36
    ensures var r := Scan(s, base, true, ULLONG_MAX);
            match Denoted(s, base)
            case None => r == Scanned(0, 0, Invalid)
            case Some(d) =>
              if -ULLONG_MAX <= d <= ULLONG_MAX then r.value == d % WORD && r.errno == NoError
              else r.value == ULLONG_MAX && r.errno == Range
  {
    match Denoted(s, base)
    case None =>
    case Some(d) =>
      if -ULLONG_MAX <= d < 0 {
        assert d % WORD == d + WORD;
      }
  }

  // ---- notations that are read back ----

  function DigitIn(d: nat): (c: char)
    requires d < 36
    ensures Worth(c) == d
  {
    if d < 10 then '0' + d as char else 'a' + (d - 10) as char
  }

  /** Shortest notation of a number in a base. */
  function ToBase(n: nat, base: nat): (s: string)
    requires 2 <= base <= 36
    ensures |s| > 0 && forall j :: 0 <= j < |s| ==> Worth(s[j]) < base
    ensures s[0] == '0' ==> n == 0
  {
    if n < base then [DigitIn(n)]
    else
      DivisionShrinks(n, base);
      ToBase(n / base, base) + [DigitIn(n % base)]
  }

  lemma {:induction false} DecimalIsBaseTen(n: nat)
    ensures ToDecimal(n) == ToBase(n, 10)
  {
    if n >= 10 {
      DecimalIsBaseTen(n / 10);
    }
  }

  lemma {:induction false} NumberOfNotation(s: string, i: nat, n: nat, base: nat)
    requires 2 <= base <= 36 && i + |ToBase(n, base)| <= |s| && s[i..i + |ToBase(n, base)|] == ToBase(n, base)
    ensures Number(s, i, i + |ToBase(n, base)|, base) == n
  {
    var text := ToBase(n, base);
    assert s[i + |text| - 1] == text[|text| - 1];
    if n >= base {
      var front := ToBase(n / base, base);
      assert text[..|front|] == front;
      assert s[i..i + |front|] == s[i..i + |text|][..|front|];
      DivisionShrinks(n, base);
      NumberOfNotation(s, i, n / base, base);
      assert Number(s, i, i + |text|, base) == Appended(n / base, base, n % base);
    } else {
      assert Number(s, i, i, base) == 0;
    }
  }

  lemma {:induction false} DigitsEndAfter(s: string, i: nat, e: nat, base: nat)
    requires i <= e <= |s| && base <= 36 && (forall j :: i <= j < e ==> Worth(s[j]) < base) && Worth(At(s, e)) >= base
    ensures DigitsEnd(s, i, base) == e
    decreases e - i
  {
    if i < e {
      DigitsEndAfter(s, i + 1, e, base);
    }
  }

  /** The notation of a number in some place of a text, with no digit after it. */
  ghost predicate Written(s: string, at: nat, n: nat, base: nat)
    requires 2 <= base <= 36
  {
    && at + |ToBase(n, base)| <= |s| && s[at..at + |ToBase(n, base)|] == ToBase(n, base)
    && Worth(At(s, at + |ToBase(n, base)|)) >= base
  }

  lemma ReadsNotation(s: string, at: nat, n: nat, base: nat)
    requires 2 <= base <= 36 && Written(s, at, n, base)
    ensures s[at] == ToBase(n, base)[0] && DigitsEnd(s, at, base) == at + |ToBase(n, base)|
    ensures Number(s, at, DigitsEnd(s, at, base), base) == n
  {
    hide ToBase, Number, DigitsEnd;
    var digits := ToBase(n, base);
    forall j | at <= j < at + |digits| ensures Worth(s[j]) < base {
      assert s[j] == digits[j - at];
    }
    assert s[at] == s[at..at + |digits|][0];
    DigitsEndAfter(s, at, at + |digits|, base);
    NumberOfNotation(s, at, n, base);
  }

  lemma WrittenBetween(prefix: string, n: nat, base: nat, rest: string)
    requires 2 <= base <= 36 && Worth(At(rest, 0)) >= base
    ensures Written(prefix + ToBase(n, base) + rest, |prefix|, n, base)
  {
    var digits := ToBase(n, base);
    var s := prefix + digits + rest;
    assert s[|prefix|..|prefix| + |digits|] == digits;
    assert At(s, |prefix| + |digits|) == At(rest, 0);
  }

  // ---- what may stand in front of the digits ----

  const WHITE := " \t\n\U{0B}\U{0C}\r"

  lemma WhiteIs(c: char)
    ensures IsSpace(c) <==> c in WHITE
  {
    assert |WHITE| == 6 && WHITE[0] == ' ' && WHITE[1] == '\t' && WHITE[2] == '\n' && WHITE[3] as int == 11
        && WHITE[4] as int == 12 && WHITE[5] == '\r';
    if IsSpace(c) && c != ' ' {
      assert WHITE[c as int - 8] == c;
    }
  }

  /** White space and perhaps a sign; without one, what follows is neither. */
  ghost predicate IsLead(space: string, sign: string, next: char) {
    && (forall c :: c in space ==> c in WHITE)
    && (sign == "+" || sign == "-" || (sign == "" && next !in WHITE && next != '+' && next != '-'))
  }

  lemma {:induction false} SpacesEndAt(s: string, i: nat, e: nat)
    requires i <= e <= |s| && (forall j :: i <= j < e ==> IsSpace(s[j])) && !IsSpace(At(s, e))
    ensures SpacesEnd(s, i) == e
    decreases e - i
  {
    if i < e {
      SpacesEndAt(s, i + 1, e);
    }
  }

  lemma LeadEnds(space: string, sign: string, rest: string)
    requires IsLead(space, sign, At(rest, 0))
    ensures var s, i := space + sign + rest, |space|;
            && SpacesEnd(s, 0) == i && At(s, i) == (if sign == "" then At(rest, 0) else sign[0])
            && (At(s, i) == '+' || At(s, i) == '-' <==> sign != "") && (At(s, i) == '-' <==> sign == "-")
            && |space + sign| == if sign == "" then i else i + 1
  {
    var s, i := space + sign + rest, |space|;
    forall j | 0 <= j < i ensures IsSpace(s[j]) {
      assert s[j] == space[j];
      WhiteIs(s[j]);
    }
    WhiteIs(At(s, i));
    SpacesEndAt(s, 0, i);
  }

  /** Where the digits start does not depend on what stands in front. */
  lemma StartIsBehind(lead: string, rest: string, base: nat, pok: bool)
    requires base != 1 && base <= 36
    ensures StartOf(lead + rest, |lead|, base, pok)
         == match StartOf(rest, 0, base, pok)
            case Digits(at, b) => Digits(|lead| + at, b)
            case Zero(_) => Zero(if pok then |lead| + 1 else 0)
            case Bad => Bad
  {
    var s := lead + rest;
    assert At(s, |lead|) == At(rest, 0) && At(s, |lead| + 1) == At(rest, 1) && At(s, |lead| + 2) == At(rest, 2);
  }

  /** There is no number, and nothing is taken, exactly if no digit of the base follows white space and sign. */
  lemma ScanFailsIff(space: string, sign: string, rest: string, base: nat, pok: bool, lim: nat)
    requires IsLead(space, sign, At(rest, 0)) && 0 < lim < WORD
    ensures var r := Scan(space + sign + rest, base, pok, lim);
            && (r.errno == Invalid <==>
                  base == 1 || base > 36 || Worth(At(rest, 0)) >= if base == 0 then 10 else base)
            && (r.errno == Invalid ==> r.value == r.consumed == 0)
  {
    if base != 1 && base <= 36 {
      LeadEnds(space, sign, rest);
      StartIsBehind(space + sign, rest, base, pok);
      hide SpacesEnd, DigitsEnd, Number, Limited, Greatest;
    }
  }

  /** A hexadecimal prefix without a digit after it is read as its zero alone, or as nothing. */
  lemma BarePrefixIsZero(space: string, sign: string, x: char, rest: string, base: nat, pok: bool, lim: nat)
    requires IsLead(space, sign, '0') && (x == 'x' || x == 'X') && Worth(At(rest, 0)) >= 16
    requires (base == 0 || base == 16) && 0 < lim < WORD
    ensures Scan(space + sign + (['0', x] + rest), base, pok, lim)
         == Scanned(0, if pok then |space| + |sign| + 1 else 0, NoError)
  {
    var t := ['0', x] + rest;
    LeadEnds(space, sign, t);
    StartIsBehind(space + sign, t, base, pok);
    assert At(t, 2) == At(rest, 0);
    hide SpacesEnd;
  }

  /** Which notations the scanner reads in a base: the base's own, those behind its prefix, and decimal by default. */
  predicate Accepts(prefix: string, n: nat, b: nat, base: nat, rest: string) {
    || (prefix == "" && b == base && (b == 16 && n == 0 ==> At(rest, 0) != 'x' && At(rest, 0) != 'X'))
    || (prefix == "" && b == 10 && base == 0 && n > 0)
    || (prefix == "" && b == 8 && base == 0 && n == 0 && At(rest, 0) != 'x' && At(rest, 0) != 'X')
    || ((prefix == "0x" || prefix == "0X") && b == 16 && (base == 0 || base == 16))
    || (prefix == "0" && b == 8 && base == 0)
  }

  /** The integer that a number with a sign is. */
  function Signed(sign: string, n: int): int { if sign == "-" then -n else n }

  /**
   * A number in any base, behind white space, a sign and the prefix that announces its base, is read back and taken
   * whole, whatever follows it.
   */
  lemma ScanInvertsNotation(space: string, sign: string, prefix: string, n: nat, b: nat, base: nat, rest: string,
                            pok: bool, lim: nat)
    requires 2 <= b <= 36 && Worth(At(rest, 0)) >= b && Accepts(prefix, n, b, base, rest)
    requires IsLead(space, sign, '0') && 0 < lim < WORD
    ensures var s, r := space + sign + (prefix + ToBase(n, b) + rest),
                        Scan(space + sign + (prefix + ToBase(n, b) + rest), base, pok, lim);
            && Denoted(s, base) == Some(Signed(sign, n)) && r.consumed == |s| - |rest|
            && (n < lim ==> r == Scanned(Signed(sign, n) % WORD, |s| - |rest|, NoError))
  {
    hide *;
    var t := prefix + ToBase(n, b) + rest;
    NotationReads(prefix, n, b, base, rest, pok);
    LeadStays(space, sign, prefix, n, b, base, rest);
    SmallIsExact(sign, n, lim);
    ScanBehindLead(space, sign, t, base, pok, lim);
  }

  /** What is scanned behind white space and a sign. */
  lemma ScanBehindLead(space: string, sign: string, t: string, base: nat, pok: bool, lim: nat)
    requires base != 1 && base <= 36 && 0 < lim < WORD && IsLead(space, sign, At(t, 0))
    requires StartOf(t, 0, base, pok).Digits? && StartOf(t, 0, base, true) == StartOf(t, 0, base, pok)
    ensures var s, start := space + sign + t, StartOf(t, 0, base, pok);
            var e := DigitsEnd(t, start.at, start.base);
            var n := Number(t, start.at, e, start.base);
            && Denoted(s, base) == Some(Signed(sign, n))
            && Scan(s, base, pok, lim) == Scanned(Limited(n, sign == "-", lim), |space + sign| + e,
                                                  if n > Greatest(lim, sign == "-") then Range else NoError)
  {
    hide *;
    var start := StartOf(t, 0, base, pok);
    StartBehindLead(space, sign, t, base, pok);
    StartBehindLead(space, sign, t, base, true);
    DigitsAreBehind(space + sign, t, start.at, start.base);
    ScanFrom(space + sign + t, base, pok, lim, sign, |space + sign| + start.at, start.base);
  }

  /** The scan of a string whose sign, and the start of whose digits, are known. */
  lemma ScanFrom(s: string, base: nat, pok: bool, lim: nat, sign: string, at: nat, b: nat)
    requires base != 1 && base <= 36 && 0 < lim < WORD && at <= |s| && 2 <= b <= 36
    requires At(s, SpacesEnd(s, 0)) == '-' <==> sign == "-"
    requires var i := SpacesEnd(s, 0);
             var from := if At(s, i) == '+' || At(s, i) == '-' then i + 1 else i;
             StartOf(s, from, base, pok) == StartOf(s, from, base, true) == Digits(at, b)
    ensures var e := DigitsEnd(s, at, b);
            var n := Number(s, at, e, b);
            && Denoted(s, base) == Some(Signed(sign, n))
            && Scan(s, base, pok, lim) == Scanned(Limited(n, sign == "-", lim), e,
                                                  if n > Greatest(lim, sign == "-") then Range else NoError)
  {
    hide SpacesEnd, DigitsEnd, Number, StartOf, Limited, Greatest;
  }

  lemma StartBehindLead(space: string, sign: string, t: string, base: nat, pok: bool)
    requires base != 1 && base <= 36 && IsLead(space, sign, At(t, 0)) && StartOf(t, 0, base, pok).Digits?
    ensures var s, start := space + sign + t, StartOf(t, 0, base, pok);
            var i := SpacesEnd(s, 0);
            && (At(s, i) == '-' <==> sign == "-")
            && StartOf(s, if At(s, i) == '+' || At(s, i) == '-' then i + 1 else i, base, pok)
               == Digits(|space + sign| + start.at, start.base)
  {
    LeadEnds(space, sign, t);
    StartIsBehind(space + sign, t, base, pok);
    hide SpacesEnd, StartOf, IsLead, At, WHITE;
  }

  lemma SmallIsExact(sign: string, n: nat, lim: nat)
    requires 0 < lim < WORD
    ensures n < lim ==> n <= Greatest(lim, sign == "-") && Limited(n, sign == "-", lim) == Signed(sign, n) % WORD
  {
  }

  /** Digits and their number do not depend on what stands in front. */
  lemma DigitsAreBehind(lead: string, rest: string, at: nat, base: nat)
    requires at <= |rest| && 2 <= base <= 36
    ensures DigitsEnd(lead + rest, |lead| + at, base) == |lead| + DigitsEnd(rest, at, base)
    ensures Number(lead + rest, |lead| + at, |lead| + DigitsEnd(rest, at, base), base)
         == Number(rest, at, DigitsEnd(rest, at, base), base)
  {
    var s, e := lead + rest, DigitsEnd(rest, at, base);
    forall j | |lead| + at <= j < |lead| + e ensures Worth(s[j]) < base {
      assert s[j] == rest[j - |lead|];
    }
    assert At(s, |lead| + e) == At(rest, e);
    DigitsEndAfter(s, |lead| + at, |lead| + e, base);
    NumberIsBehind(lead, rest, at, e, base);
  }

  lemma {:induction false} NumberIsBehind(lead: string, rest: string, at: nat, e: nat, base: nat)
    requires at <= e <= |rest|
    ensures Number(lead + rest, |lead| + at, |lead| + e, base) == Number(rest, at, e, base)
  {
    if at < e {
      NumberIsBehind(lead, rest, at, e - 1, base);
    }
  }

  /** A notation begins with a digit. */
  lemma LeadStays(space: string, sign: string, prefix: string, n: nat, b: nat, base: nat, rest: string)
    requires IsLead(space, sign, '0') && 2 <= b <= 36 && Accepts(prefix, n, b, base, rest)
    ensures IsLead(space, sign, At(prefix + ToBase(n, b) + rest, 0)) && base != 1 && base <= 36
  {
    var first := (prefix + ToBase(n, b))[0];
    assert At(prefix + ToBase(n, b) + rest, 0) == first && Worth(first) < 36;
    WhiteIs(first);
  }

  /** Without anything in front: the digits of the notation, or the zero alone, which starts like a prefix. */
  lemma NotationReads(prefix: string, n: nat, b: nat, base: nat, rest: string, pok: bool)
    requires 2 <= b <= 36 && Worth(At(rest, 0)) >= b && Accepts(prefix, n, b, base, rest)
    ensures var t := prefix + ToBase(n, b) + rest;
            var start := StartOf(t, 0, base, pok);
            && start.Digits? && start == StartOf(t, 0, base, true)
            && DigitsEnd(t, start.at, start.base) == |t| - |rest|
            && Number(t, start.at, |t| - |rest|, start.base) == n
  {
    hide *;
    var t := prefix + ToBase(n, b) + rest;
    if prefix == "" && n == 0 && (base == 0 || base == 16) {
      ZeroReads(b, base, rest, pok);
      ZeroReads(b, base, rest, true);
    } else {
      WrittenBetween(prefix, n, b, rest);
      ReadsNotation(t, |prefix|, n, b);
      StartsAfterPrefix(t, prefix, n, b, base, rest, pok);
      StartsAfterPrefix(t, prefix, n, b, base, rest, true);
    }
  }

  /** In base 16, or when the base is open, the zero itself is taken as the start of a prefix, and no digit is left. */
  lemma ZeroReads(b: nat, base: nat, rest: string, pok: bool)
    requires 2 <= b <= 36 && Worth(At(rest, 0)) >= b && Accepts("", 0, b, base, rest) && (base == 0 || base == 16)
    ensures b == 8 || b == 16
    ensures var t := "" + ToBase(0, b) + rest;
            |t| == 1 + |rest| && StartOf(t, 0, base, pok) == Digits(1, b)
            && DigitsEnd(t, 1, b) == 1 && Number(t, 1, 1, b) == 0
  {
    assert ToBase(0, b) == "0";
    assert At("" + ToBase(0, b) + rest, 1) == At(rest, 0);
  }

  lemma StartsAfterPrefix(s: string, prefix: string, n: nat, b: nat, base: nat, rest: string, pok: bool)
    requires 2 <= b <= 36 && Accepts(prefix, n, b, base, rest)
    requires prefix == "" && (base == 0 || base == 16) ==> n > 0
    requires prefix <= s && |prefix| < |s| && s[|prefix|] == ToBase(n, b)[0]
    ensures StartOf(s, 0, base, pok) == Digits(|prefix|, b)
  {
    assert s[..|prefix|] == prefix;
    if prefix != "" {
      assert s[0] == prefix[0];
      if |prefix| == 2 { assert s[1] == prefix[1]; }
    }
  }

  lemma SignedWord(d: int)
    requires LLONG_MIN < d <= LLONG_MAX
    ensures AsSigned(d % WORD) == d
  {
  }

  /** Scanning inverts printing, and takes exactly what was printed, whatever follows it. */
  lemma ScanInvertsPrint(d: int, rest: string)
    requires LLONG_MIN < d <= LLONG_MAX && (rest == "" || !IsDigit(rest[0]))
    ensures var r := Scan(Text(d, false) + rest, 10, true, SIGNED_LIMIT);
            AsSigned(r.value) == d && r.consumed == |Text(d, false)| && r.errno == NoError
  {
    var sign := if d < 0 then "-" else "";
    DecimalIsBaseTen(Magnitude(d));
    assert "" + sign + ("" + ToBase(Magnitude(d), 10) + rest) == Text(d, false) + rest;
    var n := Magnitude(d);
    ScanInvertsNotation("", sign, "", n, 10, 10, rest, true, SIGNED_LIMIT);
    SignedWord(d);
    hide Scan, ToBase, ToDecimal, Accepts, Denoted;
  }

  /**
   * A negative number out of range comes back as the limit or as the limit negated, and negated only if it does not
   * even fit a word; in the limit's own type both are the same.
   */
  lemma OutOfRangeIsNegatedIff(s: string, base: nat, lim: nat)
    requires base != 1 && base <= 36 && 0 < lim < WORD && lim % 2 == 0 && lim != SIGNED_LIMIT
    requires Denoted(s, base).Some? && Denoted(s, base).value + lim < 0
    ensures var r := Scan(s, base, true, lim);
            && r.value in {lim, WORD - lim} && (r.value == WORD - lim <==> Denoted(s, base).value < -ULLONG_MAX)
  {
    hide SpacesEnd, DigitsEnd, Number, StartOf;
  }
}
