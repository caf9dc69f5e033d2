/** Bitwise operations on machine words, written on the naturals they denote. */
module BitArithmetic {
  import opened Arithmetic

  function Xor(a: nat, b: nat): nat
  {
    if a == 0 then b
    else if b == 0 then a
    else (if a % 2 == b % 2 then 0 else 1) + 2 * Xor(a / 2, b / 2)
  }

  lemma {:induction false} XorCommutes(a: nat, b: nat)
    ensures Xor(a, b) == Xor(b, a)
  {
    if a != 0 && b != 0 {
      XorCommutes(a / 2, b / 2);
    }
  }

  lemma {:induction false} XorCancels(a: nat, b: nat)
    ensures Xor(a, Xor(a, b)) == b
  {
    if a != 0 && b != 0 {
      XorCancels(a / 2, b / 2);
      assert Xor(a, b) / 2 == Xor(a / 2, b / 2);
    } else {
      assert a != 0 ==> Xor(a, a) == 0 by { XorSelf(a); }
    }
  }

  lemma {:induction false} XorSelf(a: nat)
    ensures Xor(a, a) == 0
  {
    if a != 0 {
      XorSelf(a / 2);
    }
  }

  /**
   * The buddy test `(tag ^ last) == block`, with `tag = block ^ prev`, holds of the recorded predecessor and of
   * nothing else.
   */
  lemma XorTagNames(block: nat, prev: nat, last: nat)
    ensures Xor(Xor(block, prev), last) == block <==> prev == last
  {
    var tag := Xor(block, prev);
    XorCancels(block, prev);
    XorCancels(prev, block);
    XorCommutes(block, prev);
    XorCommutes(prev, tag);
    XorCancels(tag, last);
    XorCommutes(tag, block);
  }

  /** The three-step exclusive-or swap of two different variables exchanges them. */
  lemma XorSwaps(a: nat, b: nat)
    ensures var a1 := Xor(a, b); var b1 := Xor(b, a1); var a2 := Xor(a1, b1); a2 == b && b1 == a
  {
    XorCommutes(a, b);
    XorCancels(b, a);
    XorCommutes(Xor(a, b), a);
    XorCancels(a, b);
  }

  function Or(a: nat, b: nat): nat
  {
    if a == 0 then b
    else if b == 0 then a
    else (if a % 2 == 0 && b % 2 == 0 then 0 else 1) + 2 * Or(a / 2, b / 2)
  }

  /** A word with `size` values, shifted left: the bits that leave it at the top are lost. */
  function ShiftLeft(y: nat, bs: nat, size: nat): nat
    requires size > 0
  {
    y * Pow2(bs) % size
  }

  /** The bits of a digit do not overlap with those of a number shifted past it. */
  lemma {:induction false} OrIsSum(y: nat, bs: nat, d: nat)
    requires d < Pow2(bs)
    ensures Or(y * Pow2(bs), d) == y * Pow2(bs) + d
  {
    if bs != 0 {
      var half := y * Pow2(bs - 1);
      assert y * Pow2(bs) == 2 * half;
      OrIsSum(y, bs - 1, d / 2);
      assert Or(2 * half, d) == if half == 0 || d == 0 then 2 * half + d else d % 2 + 2 * Or(half, d / 2);
    }
  }

  /** Shifting a word and setting the freed bits multiplies and adds, as long as nothing is shifted out. */
  lemma ShiftOrAppends(y: nat, bs: nat, d: nat, size: nat)
    requires d < Pow2(bs) && y * Pow2(bs) + d < size
    ensures Or(ShiftLeft(y, bs, size), d) == y * Pow2(bs) + d
  {
    OrIsSum(y, bs, d);
    RemainderIs(y * Pow2(bs), 0, y * Pow2(bs), size);
  }
}
