/**
 * The string hash: a table of permutations built once from a random stream, and four interleaved byte hashes over
 * it.
 */
module StringHash {
  import opened BitArithmetic

  const TABLE := 256

  ghost predicate IsPermutation(t: seq<nat>) {
    && |t| == TABLE && (forall i :: 0 <= i < |t| ==> t[i] < TABLE) && forall i, j :: 0 <= i < j < |t| ==> t[i] != t[j]
  }

  lemma {:induction false} XorBelow(a: nat, b: nat, bits: nat)
    requires a < Power(bits) && b < Power(bits)
    ensures Xor(a, b) < Power(bits)
  {
    if a != 0 && b != 0 { XorBelow(a / 2, b / 2, bits - 1); }
  }

  function Power(bits: nat): nat { if bits == 0 then 1 else 2 * Power(bits - 1) }

  function Byte(x: nat, y: nat): (r: nat)
    requires x < TABLE && y < TABLE
    ensures r < TABLE
  {
    assert TABLE == Power(8);
    XorBelow(x, y, 8);
    Xor(x, y)
  }

  /** The remainder of the first character, a signed char, plus an offset, converted to a byte. */
  function Seed(first: nat, offset: nat): (r: nat)
    requires first < 256
    ensures r < TABLE
  {
    var c: int := (if first < 128 then first else first - 256) + offset;
    if c >= 0 then c % 255 else (256 - (-c) % 255) % 256
  }

  function HashFrom(table: seq<nat>, str: seq<nat>, h: nat): (r: nat)
    requires |table| == TABLE && (forall i :: 0 <= i < TABLE ==> table[i] < TABLE)
             && (forall i :: 0 <= i < |str| ==> 0 < str[i] < 256) && h < TABLE
    ensures r < TABLE
  {
    if str == [] then h else table[Byte(HashFrom(table, str[..|str| - 1], h), str[|str| - 1])]
  }

  /** The hash as a function of the table and the string; the empty string hashes to 0. */
  function Hash(table: seq<nat>, str: seq<nat>): nat
    requires |table| == TABLE && (forall i :: 0 <= i < TABLE ==> table[i] < TABLE)
             && forall i :: 0 <= i < |str| ==> 0 < str[i] < 256
  {
    if str == [] then 0
    else
      HashFrom(table, str, Seed(str[0], 0)) + 0x100 * HashFrom(table, str, Seed(str[0], 1))
      + 0x10000 * HashFrom(table, str, Seed(str[0], 2)) + 0x1000000 * HashFrom(table, str, Seed(str[0], 3))
  }

  // ---------------------------------------------------------------- one character makes four bytes differ

  /** With a permutation for a table, the byte before a step makes a difference, and so does the character. */
  lemma StepDiffers(table: seq<nat>, x: nat, y: nat, c: nat, d: nat)
    requires IsPermutation(table) && x < TABLE && y < TABLE && c < TABLE && d < TABLE
    ensures x != y ==> table[Byte(x, c)] != table[Byte(y, c)]
    ensures c != d ==> table[Byte(x, c)] != table[Byte(x, d)]
  {
    XorCancels(c, x);
    XorCancels(c, y);
    XorCommutes(c, x);
    XorCommutes(c, y);
    XorCancels(x, c);
    XorCancels(x, d);
  }

  predicate IsText(str: seq<nat>) { forall i :: 0 <= i < |str| ==> 0 < str[i] < 256 }

  /** Texts of one length that differ at one place and nowhere else. */
  predicate DifferAt(a: seq<nat>, b: seq<nat>, k: nat) {
    IsText(a) && IsText(b) && k < |a| == |b| && a[k] != b[k] && forall i :: 0 <= i < |a| && i != k ==> a[i] == b[i]
  }

  lemma {:induction false} HashesDiffer(table: seq<nat>, a: seq<nat>, b: seq<nat>, k: nat, h: nat)
    requires IsPermutation(table) && DifferAt(a, b, k) && h < TABLE
    ensures HashFrom(table, a, h) != HashFrom(table, b, h)
  {
    var a', b', last := a[..|a| - 1], b[..|b| - 1], |a| - 1;
    if k == last {
      assert a' == b';
    } else {
      HashesDiffer(table, a', b', k, h);
    }
    StepDiffers(table, HashFrom(table, a', h), HashFrom(table, b', h), a[last], b[last]);
  }

  function ByteOf(h: nat, j: nat): nat
    requires j < 4
  {
    (if j == 0 then h else if j == 1 then h / 0x100 else if j == 2 then h / 0x10000 else h / 0x1000000) % 0x100
  }

  lemma BytesOfSum(h0: nat, h1: nat, h2: nat, h3: nat)
    requires h0 < 256 && h1 < 256 && h2 < 256 && h3 < 256
    ensures var h := h0 + 0x100 * h1 + 0x10000 * h2 + 0x1000000 * h3;
            ByteOf(h, 0) == h0 && ByteOf(h, 1) == h1 && ByteOf(h, 2) == h2 && ByteOf(h, 3) == h3
  {
    var h := h0 + 0x100 * h1 + 0x10000 * h2 + 0x1000000 * h3;
    assert h / 0x1000000 == h3 && h / 0x10000 == h2 + 0x100 * h3;
    assert h / 0x100 == h1 + 0x100 * (h2 + 0x100 * h3);
  }

  lemma PermutationIsBelow(table: seq<nat>)
    requires IsPermutation(table)
    ensures |table| == TABLE && forall i :: 0 <= i < TABLE ==> table[i] < TABLE
  {
  }

  lemma BytesOfHash(table: seq<nat>, str: seq<nat>, j: nat)
    requires IsPermutation(table) && str != [] && IsText(str) && j < 4
    ensures ByteOf(Hash(table, str), j) == HashFrom(table, str, Seed(str[0], j))
  {
    hide ByteOf, HashFrom, Seed, IsPermutation;
    PermutationIsBelow(table);
    var h0, h1 := HashFrom(table, str, Seed(str[0], 0)), HashFrom(table, str, Seed(str[0], 1));
    BytesOfSum(h0, h1, HashFrom(table, str, Seed(str[0], 2)), HashFrom(table, str, Seed(str[0], 3)));
  }

  /** Texts that differ in one character after the first have hashes that differ in all four bytes. */
  lemma OneCharacterChangesAllBytes(table: seq<nat>, a: seq<nat>, b: seq<nat>, k: nat, j: nat)
    requires IsPermutation(table) && k > 0 && DifferAt(a, b, k) && j < 4
    ensures ByteOf(Hash(table, a), j) != ByteOf(Hash(table, b), j)
  {
    hide Hash, ByteOf, HashFrom, Seed;
    BytesOfHash(table, a, j);
    BytesOfHash(table, b, j);
    HashesDiffer(table, a, b, k, Seed(a[0], j));
  }

  lemma {:induction false} SeedsMatter(table: seq<nat>, str: seq<nat>, h: nat, h': nat)
    requires IsPermutation(table) && IsText(str) && h < TABLE && h' < TABLE && h != h'
    ensures HashFrom(table, str, h) != HashFrom(table, str, h')
  {
    if str != [] {
      var front, last := str[..|str| - 1], str[|str| - 1];
      SeedsMatter(table, front, h, h');
      StepDiffers(table, HashFrom(table, front, h), HashFrom(table, front, h'), last, last);
    }
  }

  /** Seeds count up from the first character, and only wrap between its signs. */
  lemma SeedIs(first: nat, offset: nat)
    requires first < 256 && offset < 4
    ensures Seed(first, offset) == if first + offset < 256 then first + offset else first + offset - 256
  {
    var c: int := (if first < 128 then first else first - 256) + offset;
    if c >= 0 {
      assert c % 255 == c;
    } else {
      assert (-c) % 255 == -c && (256 + c) % 256 == 256 + c;
    }
  }

  lemma SeedsDiffer(first: nat, j: nat, k: nat)
    requires first < 256 && j < k < 4
    ensures Seed(first, j) != Seed(first, k)
  {
    SeedIs(first, j);
    SeedIs(first, k);
    hide Seed;
  }

  /** The four bytes of a hash are different from each other. */
  lemma BytesDiffer(table: seq<nat>, str: seq<nat>, j: nat, k: nat)
    requires IsPermutation(table) && str != [] && IsText(str) && j < k < 4
    ensures ByteOf(Hash(table, str), j) != ByteOf(Hash(table, str), k)
  {
    SeedsDiffer(str[0], j, k);
    hide Hash, ByteOf, HashFrom, Seed;
    BytesOfHash(table, str, j);
    BytesOfHash(table, str, k);
    SeedsMatter(table, str, Seed(str[0], j), Seed(str[0], k));
  }

  class Hasher {
    const permutations: array<nat>

    constructor ()
      ensures fresh(permutations) && permutations.Length == TABLE && permutations[..] == seq(TABLE, _ => 0)
    {
      permutations := new nat[TABLE](_ => 0);
    }

    /** Before the first hash the table is all zeros; from then on it is a permutation of the bytes. */
    ghost predicate Valid()
      reads permutations
    {
      permutations.Length == TABLE && (permutations[..] == seq(TABLE, _ => 0) || IsPermutation(permutations[..]))
    }

    /** The exclusive-or swap of two different entries. */
    method Swap(i: nat, j: nat)
      requires i < permutations.Length && j < permutations.Length && i != j
      modifies permutations
      ensures permutations[..] == old(permutations[..])[i := old(permutations[j])][j := old(permutations[i])]
    {
      XorSwaps(permutations[i], permutations[j]);
      permutations[i] := Xor(permutations[i], permutations[j]);
      permutations[j] := Xor(permutations[j], permutations[i]);
      permutations[i] := Xor(permutations[i], permutations[j]);
    }

    /** Whatever the random stream, the shuffle leaves a permutation. */
    method Shuffle(rand: nat -> nat)
      requires permutations.Length == TABLE
      modifies permutations
      ensures IsPermutation(permutations[..])
    {
      for i := 0 to TABLE
        invariant forall k :: 0 <= k < i ==> permutations[k] == k
      {
        permutations[i] := i;
      }
      for i := 0 to 254
        invariant IsPermutation(permutations[..])
      {
        var index := i + 1 + rand(i) % (254 - i);
        SwapKeepsPermutation(permutations[..], i, index);
        Swap(i, index);
      }
      SwapKeepsPermutation(permutations[..], 254, 255);
      Swap(254, 255);
    }

    /** Hashes a string, building the table if this is the first time. */
    method HashString(str: seq<nat>, rand: nat -> nat) returns (h: nat)
      requires Valid() && forall i :: 0 <= i < |str| ==> 0 < str[i] < 256
      modifies permutations
      ensures Valid()
      ensures str == [] ==> h == 0 && permutations[..] == old(permutations[..])
      ensures str != [] ==> IsPermutation(permutations[..]) && h == Hash(permutations[..], str)
      ensures IsPermutation(old(permutations[..])) ==> permutations[..] == old(permutations[..])
    {
      if |str| == 0 {
        return 0;
      }
      if permutations[0] == permutations[1] {
        Shuffle(rand);
      }
      var h0 := HashByte(str, 0);
      var h1 := HashByte(str, 1);
      var h2 := HashByte(str, 2);
      var h3 := HashByte(str, 3);
      h := h0 + 0x100 * h1 + 0x10000 * h2 + 0x1000000 * h3;
    }

    method HashByte(str: seq<nat>, offset: nat) returns (h: nat)
      requires IsPermutation(permutations[..]) && str != [] && forall i :: 0 <= i < |str| ==> 0 < str[i] < 256
      ensures h == HashFrom(permutations[..], str, Seed(str[0], offset))
    {
      h := Seed(str[0], offset);
      assert str[..0] == [];
      for n := 0 to |str|
        invariant h == HashFrom(permutations[..], str[..n], Seed(str[0], offset))
      {
        assert str[..n + 1][..n] == str[..n];
        h := permutations[Byte(h, str[n])];
      }
      assert str[..|str|] == str;
    }
  }

  lemma SwapKeepsPermutation(t: seq<nat>, i: nat, j: nat)
    requires IsPermutation(t) && i < |t| && j < |t|
    ensures IsPermutation(t[i := t[j]][j := t[i]])
  {
  }

  /** Two hashes of the same non-empty string, with any other hashing in between, are equal. */
  method SameStringSameHash(hasher: Hasher, str: seq<nat>, others: seq<seq<nat>>, rand: nat -> nat)
    returns (first: nat, second: nat)
    requires hasher.Valid() && forall i :: 0 <= i < |str| ==> 0 < str[i] < 256
    requires forall k :: 0 <= k < |others| ==> forall i :: 0 <= i < |others[k]| ==> 0 < others[k][i] < 256
    modifies hasher.permutations
    ensures first == second
  {
    first := hasher.HashString(str, rand);
    ghost var table := hasher.permutations[..];
    for k := 0 to |others|
      invariant hasher.Valid() && (str != [] ==> hasher.permutations[..] == table)
    {
      var _ := hasher.HashString(others[k], rand);
    }
    second := hasher.HashString(str, rand);
  }
}
