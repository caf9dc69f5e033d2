/** Base64 (section 5.2 of RFC 1341): encoding and decoding byte strings. */
module Base64 {
  import opened Arithmetic
  import opened Basics

  const PAD: bv8 := 61
  const NO_VALUE: bv8 := 0x80

  /** The character code for six bits: the letters, the digits, plus and slash. */
  function Symbol(x: bv8): bv8 {
    if x < 26 then 65 + x else if x < 52 then 71 + x else if x < 62 then x - 4 else if x == 62 then 43 else 47
  }

  /** The six bits of a character code; padding counts as zero, and anything else has none. */
  function Value(c: bv8): (v: bv8)
    ensures v < 64 || v == NO_VALUE
  {
    if 65 <= c <= 90 then c - 65 else if 97 <= c <= 122 then c - 71 else if 48 <= c <= 57 then c + 4
    else if c == 43 then 62 else if c == 47 then 63 else if c == PAD then 0 else NO_VALUE
  }

  const CAPITALS := "ABCDEFGHIJKLMNOPQRSTUVWXYZ"
  const SMALL := "abcdefghijklmnopqrstuvwxyz"
  const FIGURES := "0123456789+/"

  lemma LettersAre(i: nat)
    requires i < 26
    ensures CAPITALS[i] as int == 65 + i && SMALL[i] as int == 97 + i
  {
  }

  lemma FiguresAre(i: nat)
    requires i < 12
    ensures FIGURES[i] as int == if i < 10 then 48 + i else if i == 10 then 43 else 47
  {
  }

  lemma ByteIs(x: bv8, i: nat)
    requires i < 64 && x as nat == i
    ensures Symbol(x) as nat == if i < 26 then 65 + i else if i < 52 then 71 + i else if i < 62 then i - 4
                                else if i == 62 then 43 else 47
  {
  }

  /** The alphabet of RFC 1341, in order. */
  lemma SymbolsAreTheAlphabet(x: bv8, i: nat)
    requires i < 64 && x as nat == i
    ensures Symbol(x) as int == (CAPITALS + SMALL + FIGURES)[i] as int
  {
    ByteIs(x, i);
    if i < 26 { LettersAre(i); } else if i < 52 { LettersAre(i - 26); } else { FiguresAre(i - 52); }
    hide Symbol;
  }

  lemma ValueInvertsSymbol(x: bv8)
    requires x < 64
    ensures Value(Symbol(x)) == x && Symbol(x) != PAD
  {
  }

  lemma SymbolInvertsValue(c: bv8)
    requires Value(c) != NO_VALUE && c != PAD
    ensures Symbol(Value(c)) == c
  {
  }

  // ---- encoding ----

  function Top(a: bv8): (x: bv8)
    ensures x < 64
  {
    a >> 2
  }

  function Across(a: bv8, b: bv8): (x: bv8)
    ensures x < 64
  {
    ((a & 0x03) << 4) | (b >> 4)
  }

  function Middle(b: bv8, c: bv8): (x: bv8)
    ensures x < 64
  {
    ((b & 0x0f) << 2) | (c >> 6)
  }

  function Bottom(c: bv8): (x: bv8)
    ensures x < 64
  {
    c & 0x3f
  }

  function Encoded(src: seq<bv8>): seq<bv8> {
    if src == [] then []
    else if |src| == 1 then [Symbol(Top(src[0])), Symbol(Across(src[0], 0)), PAD, PAD]
    else if |src| == 2 then [Symbol(Top(src[0])), Symbol(Across(src[0], src[1])), Symbol(Middle(src[1], 0)), PAD]
    else Quad(src[0], src[1], src[2]) + Encoded(src[3..])
  }

  function Quad(a: bv8, b: bv8, c: bv8): seq<bv8> {
    [Symbol(Top(a)), Symbol(Across(a, b)), Symbol(Middle(b, c)), Symbol(Bottom(c))]
  }

  /** Three bytes and four groups of six bits are the same 24 bits. */
  lemma QuadIsTheSameBits(a: bv8, b: bv8, c: bv8)
    ensures ((a as bv24) << 16) | ((b as bv24) << 8) | (c as bv24)
            == ((Top(a) as bv24) << 18) | ((Across(a, b) as bv24) << 12)
               | ((Middle(b, c) as bv24) << 6) | (Bottom(c) as bv24)
  {
  }

  /** One or two last bytes are filled up with zero bits, and padding stands for the groups that are missing. */
  lemma RestIsPadded(a: bv8, b: bv8)
    ensures PAD as int == '=' as int
    ensures Encoded([a]) == Quad(a, 0, 0)[..2] + [PAD, PAD] && Encoded([a, b]) == Quad(a, b, 0)[..3] + [PAD]
  {
  }

  lemma {:induction false} EncodedLength(src: seq<bv8>)
    ensures |Encoded(src)| == (|src| + 2) / 3 * 4 && |Encoded(src)| % 4 == 0
  {
    if |src| >= 3 {
      EncodedLength(src[3..]);
    }
  }

  /** The size of the buffer that is allocated, as a word. */
  function BufferSize(len: nat): nat
    requires len < WORD
  {
    var olen := (len * 4 % WORD / 3 + 4) % WORD;
    ((olen + olen / 72) % WORD + 1) % WORD
  }

  /** Only the first product can wrap. */
  lemma WrapsOnce(len: nat, turns: nat)
    requires len < WORD && turns * WORD <= len * 4 < (turns + 1) * WORD
    ensures var w := len * 4 - turns * WORD; var o := w / 3 + 4; BufferSize(len) == o + o / 72 + 1
  {
    var w := len * 4 - turns * WORD;
    RemainderIs(len * 4, turns, w, WORD);
    var o := w / 3 + 4;
    RemainderIs(o, 0, o, WORD);
    var p := o + o / 72;
    RemainderIs(p, 0, p, WORD);
    RemainderIs(p + 1, 0, p + 1, WORD);
  }

  /** The size has wrapped exactly if it is below the length, and otherwise has room for the text and a nul. */
  lemma BufferIsLargeEnoughIff(len: nat)
    requires len < WORD
    ensures BufferSize(len) < len <==> len >= WORD / 4
    ensures len < WORD / 4 ==> BufferSize(len) > (len + 2) / 3 * 4
  {
    var turns := if len < WORD / 4 then 0 else if len < WORD / 2 then 1 else if len < 3 * (WORD / 4) then 2 else 3;
    WrapsOnce(len, turns);
  }

  /** Encodes into a new buffer; none if the size wraps or there is no memory. */
  method Encode(src: seq<bv8>, memory: bool) returns (out: Option<array<bv8>>, length: nat)
    requires |src| < WORD
    ensures out.Some? <==> memory && |src| < WORD / 4
    ensures out.Some? ==>
              && fresh(out.value) && length == |Encoded(src)| < out.value.Length == BufferSize(|src|)
              && out.value[..length] == Encoded(src) && out.value[length] == 0
  {
    length := 0;
    var olen := BufferSize(|src|);
    BufferIsLargeEnoughIff(|src|);
    EncodedLength(src);
    if olen < |src| || !memory {
      return None, 0;
    }
    var buffer := new bv8[olen];
    length := EncodeInto(src, buffer);
    buffer[length] := 0;
    out := Some(buffer);
  }

  method EncodeInto(src: seq<bv8>, buffer: array<bv8>) returns (length: nat)
    requires |Encoded(src)| < buffer.Length
    modifies buffer
    ensures length == |Encoded(src)| && buffer[..length] == Encoded(src)
  {
    var i := 0;
    length := 0;
    ghost var done: seq<bv8> := [];
    assert src[0..] == src;
    while |src| - i >= 3
      invariant 0 <= i <= |src| && length + |Encoded(src[i..])| == |Encoded(src)|
      invariant done == buffer[..length] && done + Encoded(src[i..]) == Encoded(src)
    {
      NextQuad(src, i, done);
      PutQuad(buffer, length, src[i], src[i + 1], src[i + 2]);
      done := done + Quad(src[i], src[i + 1], src[i + 2]);
      i := i + 3;
      length := length + 4;
    }
    length := PutRest(buffer, length, src[i..]);
  }

  lemma NextQuad(src: seq<bv8>, i: nat, done: seq<bv8>)
    requires i + 3 <= |src|
    ensures |Encoded(src[i..])| == 4 + |Encoded(src[i + 3..])|
    ensures done + Encoded(src[i..]) == (done + Quad(src[i], src[i + 1], src[i + 2])) + Encoded(src[i + 3..])
  {
    assert src[i..][3..] == src[i + 3..];
  }

  method PutQuad(buffer: array<bv8>, at: nat, a: bv8, b: bv8, c: bv8)
    requires at + 4 <= buffer.Length
    modifies buffer
    ensures buffer[..at + 4] == old(buffer[..at]) + Quad(a, b, c)
  {
    buffer[at] := Symbol(Top(a));
    buffer[at + 1] := Symbol(Across(a, b));
    buffer[at + 2] := Symbol(Middle(b, c));
    buffer[at + 3] := Symbol(Bottom(c));
  }

  /** Encodes the last one or two bytes, if there are any, with padding. */
  method PutRest(buffer: array<bv8>, at: nat, rest: seq<bv8>) returns (end: nat)
    requires |rest| < 3 && at + |Encoded(rest)| <= buffer.Length
    modifies buffer
    ensures end == at + |Encoded(rest)| && buffer[..end] == old(buffer[..at]) + Encoded(rest)
  {
    end := at;
    if |rest| > 0 {
      buffer[at] := Symbol(Top(rest[0]));
      if |rest| == 1 {
        buffer[at + 1] := Symbol(Across(rest[0], 0));
        buffer[at + 2] := PAD;
      } else {
        buffer[at + 1] := Symbol(Across(rest[0], rest[1]));
        buffer[at + 2] := Symbol(Middle(rest[1], 0));
      }
      buffer[at + 3] := PAD;
      end := at + 4;
    }
  }

  // ---- decoding ----

  predicate Clean(s: seq<bv8>) { forall i :: 0 <= i < |s| ==> Value(s[i]) != NO_VALUE }

  /** The characters that count: the alphabet and padding. */
  function Significant(text: seq<bv8>): (s: seq<bv8>)
    ensures |s| <= |text|
  {
    if text == [] then []
    else if Value(text[0]) != NO_VALUE then [text[0]] + Significant(text[1..])
    else Significant(text[1..])
  }

  function IsPad(c: bv8): nat { if c == PAD then 1 else 0 }

  function Pads(s: seq<bv8>): (n: nat)
    ensures n <= |s|
  {
    if s == [] then 0 else IsPad(s[0]) + Pads(s[1..])
  }

  function First(v: bv8, w: bv8): bv8 { (v << 2) | (w >> 4) }

  function Second(v: bv8, w: bv8): bv8 { (v << 4) | (w >> 2) }

  function Third(v: bv8, w: bv8): bv8 { (v << 6) | w }

  /** Four groups of six bits as three bytes. */
  function Bytes(s: seq<bv8>): seq<bv8>
    requires |s| == 4
  {
    [First(Value(s[0]), Value(s[1])), Second(Value(s[1]), Value(s[2])), Third(Value(s[2]), Value(s[3]))]
  }

  /** Decodes groups of four up to the first with padding, which must be one or two characters. */
  function Groups(s: seq<bv8>): (r: Option<seq<bv8>>)
    requires |s| % 4 == 0
  {
    if s == [] then Some([])
    else
      var n := Pads(s[..4]);
      if n == 0 then Prefixed(Bytes(s[..4]), Groups(s[4..]))
      else if n <= 2 then Some(Bytes(s[..4])[..3 - n])
      else None
  }

  function Prefixed(a: seq<bv8>, r: Option<seq<bv8>>): Option<seq<bv8>> {
    match r
    case None => None
    case Some(b) => Some(a + b)
  }

  function Decoded(text: seq<bv8>): Option<seq<bv8>> {
    var s := Significant(text);
    if s == [] || |s| % 4 != 0 then None else Groups(s)
  }

  function Index(c: bv8): (i: nat)
    ensures i < 256
  {
    c as nat
  }

  lemma SameIndex(a: bv8, b: bv8)
    requires Index(a) == Index(b)
    ensures a == b
  {
  }

  /** An entry of the table when the first `i` symbols have been entered. */
  function Entry(c: bv8, i: bv8): bv8 { if c != PAD && Value(c) < i then Value(c) else NO_VALUE }

  lemma NextEntry(c: bv8, i: bv8)
    requires i < 64
    ensures Entry(c, i + 1) == if c == Symbol(i) then i else Entry(c, i)
  {
    ValueInvertsSymbol(i);
    if c != PAD && Value(c) == i {
      SymbolInvertsValue(c);
    }
  }

  /** Builds the table from character codes to their values. */
  method DecodingTable() returns (table: array<bv8>)
    ensures fresh(table) && IsDecodingTable(table)
  {
    table := new bv8[256](_ => NO_VALUE);
    var i: bv8 := 0;
    while i < 64
      invariant i <= 64 && forall c: bv8 :: table[Index(c)] == Entry(c, i)
      decreases 64 - i
    {
      SetEntry(table, Symbol(i), i);
      forall c: bv8 ensures table[Index(c)] == Entry(c, i + 1) {
        NextEntry(c, i);
      }
      i := i + 1;
    }
    SetEntry(table, PAD, 0);
  }

  method SetEntry(table: array<bv8>, at: bv8, v: bv8)
    requires table.Length == 256
    modifies table
    ensures forall c: bv8 :: table[Index(c)] == if c == at then v else old(table[Index(c)])
  {
    table[Index(at)] := v;
    forall c: bv8 ensures table[Index(c)] == if c == at then v else old(table[Index(c)]) {
      if Index(c) == Index(at) {
        SameIndex(c, at);
      }
    }
  }

  ghost predicate IsDecodingTable(table: array<bv8>)
    reads table
  {
    table.Length == 256 && forall c: bv8 :: table[Index(c)] == Value(c)
  }

  method CountSignificant(src: seq<bv8>, table: array<bv8>) returns (count: nat)
    requires IsDecodingTable(table)
    ensures count == |Significant(src)|
  {
    count := 0;
    for i := 0 to |src|
      invariant count + |Significant(src[i..])| == |Significant(src)|
    {
      assert src[i..][0] == src[i] && src[i..][1..] == src[i + 1..];
      if table[Index(src[i])] != NO_VALUE {
        count := count + 1;
      }
    }
  }

  /** The values of a group of characters, one of them still missing at most. */
  ghost predicate Holds(block: array<bv8>, group: seq<bv8>)
    reads block
  {
    block.Length == 4 && |group| <= 4 && forall k :: 0 <= k < |group| ==> block[k] == Value(group[k])
  }

  /** Writes the three bytes of a complete group. */
  method PutBytes(out: array<bv8>, at: nat, block: array<bv8>, ghost group: seq<bv8>)
    requires at + 3 <= out.Length && out != block && Holds(block, group) && |group| == 4
    modifies out
    ensures out[..at + 3] == old(out[..at]) + Bytes(group)
  {
    out[at] := First(block[0], block[1]);
    out[at + 1] := Second(block[1], block[2]);
    out[at + 2] := Third(block[2], block[3]);
  }

  /** Writes the three bytes of a complete group, of which padding takes up to two back. */
  method FlushGroup(out: array<bv8>, at: nat, block: array<bv8>, ghost group: seq<bv8>, pad: nat) returns (end: nat)
    requires at + 3 <= out.Length && out != block && Holds(block, group) && |group| == 4 && pad == Pads(group)
    modifies out
    ensures end == at + (if pad <= 2 then 3 - pad else 0)
    ensures pad <= 2 ==> out[..end] == old(out[..at]) + Bytes(group)[..3 - pad]
    ensures pad == 0 ==> out[..end] == old(out[..at]) + Bytes(group)
  {
    PutBytes(out, at, block, group);
    end := if pad <= 2 then at + 3 - pad else at;
    assert pad <= 2 ==> out[..end] == out[..at + 3][..end];
  }

  /** Adds a character to the group, with the running count of padding. */
  method Collect(block: array<bv8>, count: nat, c: bv8, v: bv8, ghost group: seq<bv8>, pad: nat) returns (more: nat)
    requires Holds(block, group) && count == |group| < 4 && v == Value(c) != NO_VALUE && pad == Pads(group)
    modifies block
    ensures Holds(block, group + [c]) && more == Pads(group + [c])
  {
    PadsAfter(group, c);
    more := pad + if c == PAD then 1 else 0;
    block[count] := v;
  }

  lemma {:induction false} PadsAfter(group: seq<bv8>, c: bv8)
    ensures Pads(group + [c]) == Pads(group) + IsPad(c)
  {
    if group == [] {
      assert [c][1..] == [];
    } else {
      PadsAfter(group[1..], c);
      assert (group + [c])[1..] == group[1..] + [c];
    }
  }

  lemma FullGroup(group: seq<bv8>, rest: seq<bv8>)
    requires |group| == 4 && |rest| % 4 == 0
    ensures |group + rest| % 4 == 0
    ensures Groups(group + rest) == if Pads(group) == 0 then Prefixed(Bytes(group), Groups(rest))
                                    else if Pads(group) <= 2 then Some(Bytes(group)[..3 - Pads(group)]) else None
  {
    assert (group + rest)[..4] == group && (group + rest)[4..] == rest;
  }

  lemma PrefixedTwice(a: seq<bv8>, b: seq<bv8>, r: Option<seq<bv8>>)
    ensures Prefixed(a, Prefixed(b, r)) == Prefixed(a + b, r)
  {
    if r.Some? {
      assert a + (b + r.value) == a + b + r.value;
    }
  }

  lemma PrefixedByNothing(r: Option<seq<bv8>>)
    ensures Prefixed([], r) == r && (r.Some? ==> Prefixed(r.value, Some([])) == r)
  {
    if r.Some? {
      assert [] + r.value == r.value && r.value + [] == r.value;
    }
  }

  /** Decodes into a new buffer; none if the text is not made of whole groups or its padding is wrong. */
  method Decode(src: seq<bv8>, memory: bool) returns (out: Option<array<bv8>>, length: nat)
    ensures out.Some? <==> memory && Decoded(src).Some?
    ensures out.Some? ==>
              fresh(out.value) && length <= out.value.Length == |Significant(src)| / 4 * 3
              && Decoded(src) == Some(out.value[..length])
  {
    var table := DecodingTable();
    var count := CountSignificant(src, table);
    if count == 0 || count % 4 != 0 || !memory {
      return None, 0;
    }
    var buffer := new bv8[count / 4 * 3];
    var ok;
    ok, length := DecodeInto(src, table, buffer);
    out := if ok then Some(buffer) else None;
  }

  /** What has been written, the group being filled and the rest of the text make up the whole. */
  ghost predicate InProgress(all: seq<bv8>, room: nat, done: seq<bv8>, group: seq<bv8>, rest: seq<bv8>)
    requires |all| % 4 == 0
  {
    var left := group + rest;
    |left| % 4 == 0 && |done| + |left| / 4 * 3 == room && Groups(all) == Prefixed(done, Groups(left))
  }

  lemma Starts(all: seq<bv8>, room: nat)
    requires |all| % 4 == 0 && room == |all| / 4 * 3
    ensures InProgress(all, room, [], [], all)
  {
    PrefixedByNothing(Groups(all));
    assert [] + all == all;
  }

  lemma TakesOne(all: seq<bv8>, room: nat, done: seq<bv8>, group: seq<bv8>, c: bv8, rest: seq<bv8>)
    requires |all| % 4 == 0 && InProgress(all, room, done, group, [c] + rest)
    ensures InProgress(all, room, done, group + [c], rest)
  {
    assert group + ([c] + rest) == (group + [c]) + rest;
  }

  lemma TakesGroup(all: seq<bv8>, room: nat, done: seq<bv8>, group: seq<bv8>, rest: seq<bv8>)
    requires |all| % 4 == 0 && InProgress(all, room, done, group, rest) && |group| == 4
    ensures |done| + 3 <= room
    ensures Pads(group) == 0 ==> InProgress(all, room, done + Bytes(group), [], rest)
    ensures 0 < Pads(group) <= 2 ==> Groups(all) == Some(done + Bytes(group)[..3 - Pads(group)])
    ensures Pads(group) > 2 ==> Groups(all) == None
  {
    assert |group + rest| == 4 + |rest| && [] + rest == rest;
    FullGroup(group, rest);
    PrefixedTwice(done, Bytes(group), Groups(rest));
    hide Groups, Bytes, Pads;
  }

  lemma Finishes(all: seq<bv8>, room: nat, done: seq<bv8>, group: seq<bv8>)
    requires |all| % 4 == 0 && InProgress(all, room, done, group, []) && |group| < 4
    ensures Groups(all) == Some(done)
  {
    assert group + [] == group == [];
    assert Groups(group) == Some([]);
    PrefixedByNothing(Some(done));
    hide Groups;
  }

  method DecodeInto(src: seq<bv8>, table: array<bv8>, out: array<bv8>) returns (ok: bool, length: nat)
    requires table != out && IsDecodingTable(table)
    requires |Significant(src)| % 4 == 0 && out.Length == |Significant(src)| / 4 * 3
    modifies out
    ensures length <= out.Length
    ensures Groups(Significant(src)) == if ok then Some(out[..length]) else None
  {
    hide *;
    var block := new bv8[4];
    ghost var group: seq<bv8>, done: seq<bv8>, all := [], [], Significant(src);
    var count, pad := 0, 0;
    length := 0;
    Starts(all, out.Length);
    HoldsNothing(block);
    assert src[0..] == src;
    for i := 0 to |src|
      invariant count == |group| < 4 && Holds(block, group) && pad == Pads(group)
      invariant length <= out.Length && done == out[..length]
      invariant InProgress(all, out.Length, done, group, Significant(src[i..]))
    {
      NextCharacter(src, i);
      TableGives(table, src[i]);
      var v := table[Index(src[i])];
      if v == NO_VALUE {
        continue;
      }
      TakesOne(all, out.Length, done, group, src[i], Significant(src[i + 1..]));
      pad := Collect(block, count, src[i], v, group, pad);
      group := group + [src[i]];
      count := count + 1;
      if count == 4 {
        TakesGroup(all, out.Length, done, group, Significant(src[i + 1..]));
        length := FlushGroup(out, length, block, group, pad);
        if pad != 0 {
          return pad <= 2, length;
        }
        done := done + Bytes(group);
        count, group := 0, [];
        HoldsNothing(block);
      }
    }
    NoneLeft(src);
    Finishes(all, out.Length, done, group);
    ok := true;
  }

  lemma HoldsNothing(block: array<bv8>)
    requires block.Length == 4
    ensures Holds(block, []) && Pads([]) == 0
  {
  }

  lemma TableGives(table: array<bv8>, c: bv8)
    requires IsDecodingTable(table)
    ensures Index(c) < table.Length && table[Index(c)] == Value(c)
  {
  }

  lemma NoneLeft(src: seq<bv8>)
    ensures Significant(src[|src|..]) == []
  {
  }

  lemma NextCharacter(src: seq<bv8>, i: nat)
    requires i < |src|
    ensures Significant(src[i..])
         == if Value(src[i]) != NO_VALUE then [src[i]] + Significant(src[i + 1..]) else Significant(src[i + 1..])
  {
    assert src[i..][0] == src[i] && src[i..][1..] == src[i + 1..];
  }

  // ---- round trip ----

  lemma {:induction false} SignificantInParts(a: seq<bv8>, b: seq<bv8>)
    ensures Significant(a + b) == Significant(a) + Significant(b)
  {
    if a == [] {
      assert a + b == b;
    } else {
      hide Significant, Value;
      SignificantInParts(a[1..], b);
      assert (a + b)[1..] == a[1..] + b;
      SignificantStep(a);
      SignificantStep(a + b);
      Regroup(if Value(a[0]) != NO_VALUE then [a[0]] else [], Significant(a[1..]), Significant(b));
    }
  }

  lemma Regroup(a: seq<bv8>, b: seq<bv8>, c: seq<bv8>)
    ensures a + (b + c) == a + b + c
  {
  }

  lemma SignificantStep(text: seq<bv8>)
    requires text != []
    ensures Significant(text) == (if Value(text[0]) != NO_VALUE then [text[0]] else []) + Significant(text[1..])
  {
  }

  lemma NoiseIsIgnored(a: seq<bv8>, noise: seq<bv8>, b: seq<bv8>)
    requires forall i :: 0 <= i < |noise| ==> Value(noise[i]) == NO_VALUE
    ensures Decoded(a + noise + b) == Decoded(a + b)
  {
    SignificantInParts(a + noise, b);
    SignificantInParts(a, noise);
    SignificantInParts(a, b);
    OnlyNoise(noise);
    assert Significant(a) + [] == Significant(a);
  }

  lemma {:induction false} OnlyNoise(noise: seq<bv8>)
    requires forall i :: 0 <= i < |noise| ==> Value(noise[i]) == NO_VALUE
    ensures Significant(noise) == []
  {
    if noise != [] {
      OnlyNoise(noise[1..]);
    }
  }

  lemma {:induction false} AllSignificant(s: seq<bv8>)
    requires Clean(s)
    ensures Significant(s) == s
  {
    if s != [] {
      AllSignificant(s[1..]);
    }
  }

  lemma BytesOfSextets(a: bv8, b: bv8, c: bv8)
    ensures First(Top(a), Across(a, b)) == a && Second(Across(a, b), Middle(b, c)) == b
            && Third(Middle(b, c), Bottom(c)) == c
  {
  }

  lemma PadsOfFour(a: bv8, b: bv8, c: bv8, d: bv8)
    ensures Pads([a, b, c, d]) == IsPad(a) + IsPad(b) + IsPad(c) + IsPad(d)
  {
    assert [a, b, c, d][1..] == [b, c, d] && [b, c, d][1..] == [c, d] && [c, d][1..] == [d] && [d][1..] == [];
    assert Pads([c, d]) == IsPad(c) + Pads([d]) && Pads([d]) == IsPad(d) + Pads([]);
  }

  lemma FourDecode(s: bv8, t: bv8, u: bv8, v: bv8)
    requires s < 64 && t < 64 && u < 64 && v < 64
    ensures var q := [Symbol(s), Symbol(t), Symbol(u), Symbol(v)];
            Clean(q) && Pads(q) == 0 && Bytes(q) == [First(s, t), Second(t, u), Third(u, v)]
  {
    ValueInvertsSymbol(s);
    ValueInvertsSymbol(t);
    ValueInvertsSymbol(u);
    ValueInvertsSymbol(v);
    PadsOfFour(Symbol(s), Symbol(t), Symbol(u), Symbol(v));
  }

  lemma ThreeDecode(s: bv8, t: bv8, u: bv8)
    requires s < 64 && t < 64 && u < 64
    ensures var q := [Symbol(s), Symbol(t), Symbol(u), PAD];
            Clean(q) && Pads(q) == 1 && Bytes(q)[..2] == [First(s, t), Second(t, u)]
  {
    ValueInvertsSymbol(s);
    ValueInvertsSymbol(t);
    ValueInvertsSymbol(u);
    PadsOfFour(Symbol(s), Symbol(t), Symbol(u), PAD);
  }

  lemma TwoDecode(s: bv8, t: bv8)
    requires s < 64 && t < 64
    ensures var q := [Symbol(s), Symbol(t), PAD, PAD];
            Clean(q) && Pads(q) == 2 && Bytes(q)[..1] == [First(s, t)]
  {
    ValueInvertsSymbol(s);
    ValueInvertsSymbol(t);
    PadsOfFour(Symbol(s), Symbol(t), PAD, PAD);
  }

  lemma QuadDecodes(a: bv8, b: bv8, c: bv8)
    ensures Clean(Quad(a, b, c)) && Pads(Quad(a, b, c)) == 0 && Bytes(Quad(a, b, c)) == [a, b, c]
  {
    FourDecode(Top(a), Across(a, b), Middle(b, c), Bottom(c));
    BytesOfSextets(a, b, c);
  }

  lemma NoBytes()
    ensures Clean(Encoded([])) && |Encoded([])| % 4 == 0 && Groups(Encoded([])) == Some([])
  {
  }

  lemma OneByte(a: bv8)
    ensures Clean(Encoded([a])) && |Encoded([a])| % 4 == 0 && Groups(Encoded([a])) == Some([a])
  {
    TwoDecode(Top(a), Across(a, 0));
    BytesOfSextets(a, 0, 0);
    var text := Encoded([a]);
    assert text[..4] == text;
  }

  lemma TwoBytes(a: bv8, b: bv8)
    ensures Clean(Encoded([a, b])) && |Encoded([a, b])| % 4 == 0 && Groups(Encoded([a, b])) == Some([a, b])
  {
    ThreeDecode(Top(a), Across(a, b), Middle(b, 0));
    BytesOfSextets(a, b, 0);
    var text := Encoded([a, b]);
    assert text[..4] == text;
  }

  lemma ThreeBytes(a: bv8, b: bv8, c: bv8, rest: seq<bv8>)
    requires Clean(Encoded(rest)) && |Encoded(rest)| % 4 == 0
    ensures Clean(Encoded([a, b, c] + rest)) && |Encoded([a, b, c] + rest)| % 4 == 0
    ensures Groups(Encoded([a, b, c] + rest)) == Prefixed([a, b, c], Groups(Encoded(rest)))
  {
    assert ([a, b, c] + rest)[3..] == rest;
    QuadDecodes(a, b, c);
    FullGroup(Quad(a, b, c), Encoded(rest));
  }

  lemma {:induction false} GroupsOfEncoded(src: seq<bv8>)
    ensures Clean(Encoded(src)) && |Encoded(src)| % 4 == 0
    ensures Groups(Encoded(src)) == Some(src)
  {
    hide Encoded, Groups, Clean;
    if src == [] {
      NoBytes();
    } else if |src| == 1 {
      OneByte(src[0]);
      assert src == [src[0]];
    } else if |src| == 2 {
      TwoBytes(src[0], src[1]);
      assert src == [src[0], src[1]];
    } else {
      GroupsOfEncoded(src[3..]);
      ThreeBytes(src[0], src[1], src[2], src[3..]);
      assert src == [src[0], src[1], src[2]] + src[3..];
    }
  }

  /** Decoding inverts encoding exactly for the byte strings that are not empty. */
  lemma RoundTripIff(src: seq<bv8>)
    ensures Decoded(Encoded(src)) == Some(src) <==> src != []
  {
    EncodedLength(src);
    GroupsOfEncoded(src);
    AllSignificant(Encoded(src));
  }
}
