/** The byte encoding of the value lists that a hive stores under its keys. */
module HivePack {
  import opened Basics

  type byte = b: nat | b < 256

  datatype Kind = IntKind | StrKind | PtrKind

  /** A value: its kind and the machine word it is stored as (the integer, or the pointer). */
  datatype HiveValue = HiveValue(kind: Kind, word: nat)

  predicate IsWord(v: HiveValue) { v.word < WORD }

  predicate AreWords(vs: seq<HiveValue>) { forall i :: 0 <= i < |vs| ==> IsWord(vs[i]) }

  function Tag(kind: Kind): byte {
    match kind
    case IntKind => 1
    case StrKind => 2
    case PtrKind => 3
  }

  // ---------------------------------------------------------------- little-endian words

  function Power256(n: nat): nat { if n == 0 then 1 else 256 * Power256(n - 1) }

  function ToBytes(x: nat, n: nat): (bytes: seq<byte>)
    ensures |bytes| == n
  {
    if n == 0 then [] else [x % 256] + ToBytes(x / 256, n - 1)
  }

  function FromBytes(bytes: seq<byte>): nat {
    if bytes == [] then 0 else bytes[0] + 256 * FromBytes(bytes[1..])
  }

  lemma {:induction false} BytesRoundTrip(x: nat, n: nat)
    requires x < Power256(n)
    ensures FromBytes(ToBytes(x, n)) == x
  {
    if n != 0 {
      BytesRoundTrip(x / 256, n - 1);
      assert ToBytes(x, n)[1..] == ToBytes(x / 256, n - 1);
    }
  }

  lemma WordRoundTrip(x: nat)
    requires x < WORD
    ensures FromBytes(ToBytes(x, 8)) == x
  {
    assert Power256(8) == 256 * 256 * 256 * 256 * Power256(4);
    BytesRoundTrip(x, 8);
  }

  // ---------------------------------------------------------------- packs

  /** A tag byte and eight bytes for each value. */
  function Encode(vs: seq<HiveValue>): (pack: seq<byte>)
    ensures |pack| == 9 * |vs|
  {
    if vs == [] then [] else [Tag(vs[0].kind)] + ToBytes(vs[0].word, 8) + Encode(vs[1..])
  }

  predicate IsTag(b: byte) { 1 <= b <= 3 }

  function KindOf(tag: byte): (kind: Kind)
    requires IsTag(tag)
    ensures Tag(kind) == tag
  {
    if tag == 1 then IntKind else if tag == 2 then StrKind else PtrKind
  }

  /** Reads values off the front while there is a tag with its word. */
  function Decode(pack: seq<byte>): seq<HiveValue> {
    if |pack| >= 9 && IsTag(pack[0]) then [HiveValue(KindOf(pack[0]), FromBytes(pack[1..9]))] + Decode(pack[9..])
        else []
  }

  /** Decoding inverts encoding. */
  lemma {:induction false} PackRoundTrip(vs: seq<HiveValue>)
    requires AreWords(vs)
    ensures Decode(Encode(vs)) == vs
  {
    if vs != [] {
      var pack := Encode(vs);
      assert pack[1..9] == ToBytes(vs[0].word, 8);
      assert pack[9..] == Encode(vs[1..]);
      WordRoundTrip(vs[0].word);
      PackRoundTrip(vs[1..]);
    }
  }
}
