/** Printing integers in decimal, digit by digit, into a bounded buffer. */
module IntPrint {
  import opened Arithmetic
  import opened Decimal

  const LLONG_MIN := -0x8000_0000_0000_0000
  const LLONG_MAX := 0x7FFF_FFFF_FFFF_FFFF
  const EOF := -1

  function Pow10(k: nat): (p: nat)
    ensures p > 0
  {
    if k == 0 then 1 else 10 * Pow10(k - 1)
  }

  /** The last `k + 1` decimal digits, most significant first. */
  function Fixed(d: nat, k: nat): (s: string)
    requires d < 10 * Pow10(k)
    ensures |s| == k + 1
  {
    if k == 0 then [DigitChar(d)]
    else
      LeadingDigit(d, k);
      [DigitChar(d / Pow10(k))] + Fixed(d % Pow10(k), k - 1)
  }

  lemma LeadingDigit(d: nat, k: nat)
    requires d < 10 * Pow10(k)
    ensures 0 <= d / Pow10(k) < 10 && d - d / Pow10(k) * Pow10(k) == d % Pow10(k)
  {
    var p := Pow10(k);
    QuotientBelow(d, p, 10);
    Division(d, p);
  }

  /** The first digit, and what is left to write and to divide by after it. */
  lemma FixedStep(d: nat, k: nat)
    requires d < 10 * Pow10(k)
    ensures d / Pow10(k) < 10 && Pow10(k) / 10 == if k == 0 then 0 else Pow10(k - 1)
    ensures k > 0 ==> d % Pow10(k) < 10 * Pow10(k - 1)
    ensures Fixed(d, k) == [DigitChar(d / Pow10(k))] + if k == 0 then "" else Fixed(d % Pow10(k), k - 1)
  {
    LeadingDigit(d, k);
  }

  lemma DivideTwice(d: nat, q: nat)
    requires q > 0
    ensures d / 10 / q == d / (10 * q) && d / 10 % q == d % (10 * q) / 10 && d % (10 * q) % 10 == d % 10
  {
    var p := 10 * q;
    var a, r := d / p, d % p;
    assert d == a * p + r;
    assert a * p == 10 * (a * q);
    RemainderIs(d, a * q + r / 10, r % 10, 10);
    RemainderIs(d / 10, a, r / 10, q);
  }

  lemma DividesFurther(d: nat, p: nat)
    requires p > 0 && d / p > 9
    ensures d / p / 10 == d / (p * 10) && p * 10 <= d
  {
    QuotientBelow(d, p, 10);
    var a, r := d / (p * 10), d % (p * 10);
    assert d == a * (p * 10) + r;
    assert a * (p * 10) == a * 10 * p;
    QuotientBelow(r, p, 10);
    Division(r, p);
    assert (a * 10 + r / p) * p == a * 10 * p + r / p * p;
    RemainderIs(d, a * 10 + r / p, r % p, p);
    RemainderIs(a * 10 + r / p, a, r / p, 10);
  }

  lemma {:induction false} FixedDropsLast(d: nat, k: nat)
    requires k > 0 && d < 10 * Pow10(k)
    ensures d / 10 < 10 * Pow10(k - 1) && Fixed(d, k) == Fixed(d / 10, k - 1) + [DigitChar(d % 10)]
    decreases k
  {
    LeadingDigit(d, k);
    var q := Pow10(k - 1);
    DivideTwice(d, q);
    if k > 1 {
      FixedDropsLast(d % Pow10(k), k - 1);
    }
  }

  /** Without leading zeros the fixed digits are the decimal notation. */
  lemma {:induction false} FixedIsDecimal(d: nat, k: nat)
    requires d < 10 * Pow10(k) && (k > 0 ==> Pow10(k) <= d)
    ensures Fixed(d, k) == ToDecimal(d)
  {
    if k > 0 {
      FixedDropsLast(d, k);
      FixedIsDecimal(d / 10, k - 1);
    }
  }

  function Magnitude(d: int): nat { if d < 0 then -d else d }

  /** What printing a number produces. */
  function Text(d: int, noSign: bool): string {
    (if d < 0 && !noSign then "-" else "") + ToDecimal(Magnitude(d))
  }

  /** As much of a text as there is room for. */
  function Clipped(text: string, room: nat): string { if |text| <= room then text else text[..room] }

  /** The effect on contents and room of writing a text. */
  predicate Wrote(before: string, room: nat, text: string, after: string, left: nat) {
    after == before + Clipped(text, room) && left + |Clipped(text, room)| == room
  }

  lemma WroteNothing(before: string, room: nat)
    ensures Wrote(before, room, "", before, room)
  {
  }

  lemma WroteBoth(before: string, room: nat, a: string, between: string, middle: nat, b: string, after: string,
          left: nat)
    requires Wrote(before, room, a, between, middle) && Wrote(between, middle, b, after, left)
    ensures Wrote(before, room, a + b, after, left)
  {
    assert after == before + (Clipped(a, room) + Clipped(b, middle));
    assert Clipped(a + b, room) == Clipped(a, room) + Clipped(b, middle);
  }

  /** A character buffer that keeps its last place free for a terminator. */
  class Sink {
    const data: array<char>
    var wp: nat

    ghost predicate Valid()
      reads this
    {
      wp < data.Length
    }

    ghost function Contents(): string
      requires Valid()
      reads this, data
    {
      data[..wp]
    }

    ghost function Room(): nat
      requires Valid()
      reads this
    {
      data.Length - 1 - wp
    }

    constructor (capacity: nat)
      requires capacity > 0
      ensures Valid() && fresh(data) && Contents() == "" && Room() == capacity - 1
    {
      data := new char[capacity];
      wp := 0;
    }

    method PutChar(c: char) returns (res: int)
      requires Valid()
      modifies this, data
      ensures Valid()
      ensures Wrote(old(Contents()), old(Room()), [c], Contents(), Room())
      ensures res == if old(Room()) > 0 then 1 else EOF
    {
      if data.Length - wp == 1 {
        return EOF;
      }
      data[wp] := c;
      wp := wp + 1;
      return 1;
    }
  }

  /** Writes the next character of a text of which a part has been written already. */
  method PutNext(sink: Sink, c: char, ghost before: string, ghost room: nat, ghost done: string, ghost rest: string)
    returns (res: int)
    requires sink.Valid() && Wrote(before, room, done, sink.Contents(), sink.Room()) && |done| <= room && rest != ""
             && rest[0] == c
    modifies sink, sink.data
    ensures sink.Valid()
    ensures res == if |done| < room then 1 else EOF
    ensures Wrote(before, room, done + if res == EOF then rest else [c], sink.Contents(), sink.Room())
  {
    res := sink.PutChar(c);
    WroteBoth(before, room, done, old(sink.Contents()), old(sink.Room()),
              if res == EOF then rest else [c], sink.Contents(), sink.Room());
  }

  /** Emits the digits from the most significant one down. */
  method PrintDigits(sink: Sink, number: nat, power: nat, ghost k: nat) returns (written: int)
    requires sink.Valid() && power == Pow10(k) && number < 10 * Pow10(k)
    modifies sink, sink.data
    ensures sink.Valid()
    ensures Wrote(old(sink.Contents()), old(sink.Room()), Fixed(number, k), sink.Contents(), sink.Room())
    ensures written == if k < old(sink.Room()) then k + 1 else EOF
  {
    hide Wrote, Fixed, Pow10, DigitChar;
    written := 0;
    var d: nat, power10: nat := number, power;
    LeadingDigit(d, k);
    var dd: nat := d / power10;
    ghost var before, room := sink.Contents(), sink.Room();
    ghost var left: nat, done: string := k, "";
    WroteNothing(before, room);
    while true
      invariant sink.Valid() && left <= k && power10 == Pow10(left) && d < 10 * Pow10(left)
      invariant dd == d / power10 < 10 && d - dd * power10 == d % power10
      invariant Fixed(number, k) == done + Fixed(d, left) && written == |done| <= room
      invariant Wrote(before, room, done, sink.Contents(), sink.Room())
      decreases left
    {
      FixedStep(d, left);
      ghost var rest := if left == 0 then "" else Fixed(d % Pow10(left), left - 1);
      assert done + Fixed(d, left) == (done + [DigitChar(dd)]) + rest;
      var res := PutNext(sink, DigitChar(dd), before, room, done, Fixed(d, left));
      if res == EOF {
        return EOF;
      }
      written := written + res;
      done := done + [DigitChar(dd)];
      d := d - dd * power10;
      power10 := power10 / 10;
      if power10 == 0 {
        assert done == done + rest == Fixed(number, k);
        return;
      }
      left := left - 1;
      LeadingDigit(d, left);
      dd := d / power10;
    }
  }

  /** One less than the number of decimal digits. */
  function Exponent(d: nat): nat { if d < 10 then 0 else 1 + Exponent(d / 10) }

  /** The highest power of ten that is not above a positive number. */
  method HighestPower(d: nat) returns (power10: nat)
    requires d > 0
    ensures power10 == Pow10(Exponent(d)) <= d < 10 * power10
  {
    var dd := d;
    power10 := 1;
    ghost var k: nat := 0;
    while dd > 9
      invariant power10 == Pow10(k) <= d && dd == d / power10 && Exponent(d) == k + Exponent(dd)
      decreases dd
    {
      DividesFurther(d, power10);
      dd := dd / 10;
      power10 := power10 * 10;
      k := k + 1;
    }
    QuotientBelow(d, power10, 10);
  }

  /** Prints the digits of a positive number. */
  method PrintMagnitude(sink: Sink, d: nat) returns (written: int)
    requires sink.Valid() && d > 0
    modifies sink, sink.data
    ensures sink.Valid()
    ensures Wrote(old(sink.Contents()), old(sink.Room()), ToDecimal(d), sink.Contents(), sink.Room())
    ensures written == if |ToDecimal(d)| <= old(sink.Room()) then |ToDecimal(d)| else EOF
  {
    hide Pow10, Exponent, Fixed, ToDecimal, Wrote;
    var power10 := HighestPower(d);
    FixedIsDecimal(d, Exponent(d));
    written := PrintDigits(sink, d, power10, Exponent(d));
  }

  /** Prints a number other than zero. */
  method PrintNonZero(sink: Sink, number: int, noSign: bool) returns (written: int)
    requires sink.Valid() && number != 0
    modifies sink, sink.data
    ensures sink.Valid()
    ensures Wrote(old(sink.Contents()), old(sink.Room()), Text(number, noSign), sink.Contents(), sink.Room())
    ensures written == if |Text(number, noSign)| <= old(sink.Room()) then |Text(number, noSign)| else EOF
  {
    written := 0;
    var d := number;
    ghost var sign := "";
    if d < 0 {
      if !noSign {
        var res := sink.PutChar('-');
        if res == EOF {
          return EOF;
        }
        written := written + 1;
        sign := "-";
      }
      d := d * -1;
    }
    hide ToDecimal, Wrote;
    label signed:
    var digits := PrintMagnitude(sink, d);
    WroteBoth(old(sink.Contents()), old(sink.Room()), sign, old@signed(sink.Contents()), old@signed(sink.Room()),
              ToDecimal(d), sink.Contents(), sink.Room());
    return if digits == EOF then EOF else written + digits;
  }

  /** Prints a number; `noSign` leaves the minus out. */
  method PrintDecimal(sink: Sink, number: int, noSign: bool) returns (written: int)
    requires sink.Valid() && LLONG_MIN < number <= LLONG_MAX
    modifies sink, sink.data
    ensures sink.Valid()
    ensures Wrote(old(sink.Contents()), old(sink.Room()), Text(number, noSign), sink.Contents(), sink.Room())
    ensures written == if |Text(number, noSign)| <= old(sink.Room()) then |Text(number, noSign)| else EOF
  {
    if number == 0 {
      written := sink.PutChar('0');
    } else {
      written := PrintNonZero(sink, number, noSign);
    }
  }

  /** A word passed for unsigned printing arrives as a signed number of the same bits. */
  function AsSigned(u: nat): int
    requires u < 0x1_0000_0000_0000_0000
  {
    if u <= LLONG_MAX then u else u - 0x1_0000_0000_0000_0000
  }

  /** Unsigned printing is right exactly for the numbers that are also signed ones. */
  lemma UnsignedIsPrintedIff(u: nat)
    requires u < 0x1_0000_0000_0000_0000 && AsSigned(u) != LLONG_MIN
    ensures Text(AsSigned(u), true) == ToDecimal(u) <==> u <= LLONG_MAX
  {
    DecimalRoundTrip(u);
    DecimalRoundTrip(Magnitude(AsSigned(u)));
  }
}
