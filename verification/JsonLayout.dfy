/** Objects laid out with any white space, and what the tokeniser makes of them. */
module JsonLayout {
  import opened Decimal
  import opened JsonModel

  datatype Loose = LooseNum(n: int) | LooseStr(s: string) | LooseObj(members: LooseMembers)

  /** An object's members with the white space around each token, and whether a comma follows the value. */
  datatype LooseMembers =
    | LooseEnd(space: string)
    | LooseMember(before: string, key: string, gap: string, lead: string, value: Loose, after: string, comma: bool,
        rest: LooseMembers)

  function Text(v: Loose): string {
    match v
    case LooseNum(n) => Number(n)
    case LooseStr(s) => Quoted(s)
    case LooseObj(members) => "{" + (MembersText(members) + "}")
  }

  function Comma(comma: bool): string { if comma then "," else "" }

  /** What follows a value inside the object. */
  function Behind(after: string, comma: bool, rest: string): string { after + (Comma(comma) + rest) }

  function MembersText(members: LooseMembers): string {
    match members
    case LooseEnd(space) => space
    case LooseMember(before, key, gap, lead, value, after, comma, rest) =>
      before + (Quoted(key) + (gap + (":" + (lead + (Text(value) + Behind(after, comma, MembersText(rest)))))))
  }

  /** Blanks, tabs and line breaks only. */
  predicate Blank(s: string) { forall i :: 0 <= i < |s| ==> s[i] == ' ' || s[i] == '\t' || s[i] == '\n' }

  /** White space is white space, and no text holds a quote or a brace. */
  predicate Laid(v: Loose) {
    match v
    case LooseNum(_) => true
    case LooseStr(s) => CleanText(s)
    case LooseObj(members) => LaidMembers(members)
  }

  predicate LaidMembers(members: LooseMembers) {
    match members
    case LooseEnd(space) => Blank(space)
    case LooseMember(before, key, gap, lead, value, after, _, rest) =>
      && Blank(before) && Blank(gap) && Blank(lead) && Blank(after)
      && CleanText(key) && Laid(value) && LaidMembers(rest)
  }

  /** The value without its layout. */
  function Bare(v: Loose): Value {
    match v
    case LooseNum(n) => Num(n)
    case LooseStr(s) => Str(s)
    case LooseObj(members) => Obj(BareMembers(members))
  }

  function BareMembers(members: LooseMembers): Members {
    match members
    case LooseEnd(_) => End
    case LooseMember(_, key, _, _, value, _, _, rest) => Member(key, Bare(value), BareMembers(rest))
  }

  function LooseToken(v: Loose): Token {
    match v
    case LooseNum(n) => NumberToken(Number(n))
    case LooseStr(s) => StringToken(Quoted(s))
    case LooseObj(members) => ObjectToken(MembersText(members))
  }

  /** Key, separator and value of each member. */
  function LooseTriples(members: LooseMembers): seq<Token> {
    match members
    case LooseEnd(_) => []
    case LooseMember(_, key, _, _, value, _, _, rest) =>
      [StringToken(Quoted(key)), KeyValueSeparator, LooseToken(value)] + LooseTriples(rest)
  }

  /** What the tokeniser needs: nothing directly at this level is `{}`, and no number ends the object's text. */
  predicate Spaced(members: LooseMembers) {
    match members
    case LooseEnd(_) => true
    case LooseMember(_, _, _, _, value, after, comma, rest) =>
      && (value.LooseNum? ==> Behind(after, comma, MembersText(rest)) != "")
      && (value.LooseObj? ==> MembersText(value.members) != "")
      && Spaced(rest)
  }

  // ---------------------------------------------------------------- white space

  lemma {:induction false} ScanBlank(space: string, rest: string, tail: string)
    requires Blank(space)
    ensures Scan(space + rest, tail) == Scan(rest, tail)
  {
    if space == "" {
      assert space + rest == rest;
    } else {
      ScanBlank(space[1..], rest, tail);
      assert (space + rest)[1..] == space[1..] + rest;
      assert (space + rest)[Spaces(space + rest)..] == (space[1..] + rest)[Spaces(space[1..] + rest)..];
    }
  }

  lemma ScanComma(comma: bool, rest: string, tail: string)
    ensures Scan(Comma(comma) + rest, tail) == Scan(rest, tail)
  {
    if comma {
      var t := "," + rest;
      assert t[0] == ',' && Spaces(t) == 0 && t[0..] == t && t[1..] == rest;
    } else {
      assert "" + rest == rest;
    }
  }

  lemma ScanBehind(after: string, comma: bool, rest: string, tail: string)
    requires Blank(after)
    ensures Scan(Behind(after, comma, rest), tail) == Scan(rest, tail)
  {
    ScanBlank(after, Comma(comma) + rest, tail);
    ScanComma(comma, rest, tail);
  }

  lemma ScanKey(before: string, key: string, gap: string, lead: string, rest: string, tail: string)
    requires Blank(before) && Blank(gap) && Blank(lead) && CleanText(key)
    ensures Scan(before + (Quoted(key) + (gap + (":" + (lead + rest)))), tail)
            == Prepend([StringToken(Quoted(key)), KeyValueSeparator], Scan(rest, tail))
  {
    assert Free(key, '\"');
    hide *;
    var colon := ":" + (lead + rest);
    ScanBlank(before, Quoted(key) + (gap + colon), tail);
    ScanQuoted(key, gap + colon, tail);
    ScanBlank(gap, colon, tail);
    ScanSeparates(lead + rest, tail);
    ScanBlank(lead, rest, tail);
    PrependTwice([StringToken(Quoted(key))], [KeyValueSeparator], Scan(rest, tail));
  }

  lemma ScanSeparates(rest: string, tail: string)
    ensures Scan(":" + rest, tail) == Prepend([KeyValueSeparator], Scan(rest, tail))
  {
    var t := ":" + rest;
    assert t[0] == ':' && Spaces(t) == 0 && t[0..] == t && t[1..] == rest;
  }

  // ---------------------------------------------------------------- braces

  lemma ClosingSkipsBlank(space: string, rest: string, level: int)
    requires Blank(space)
    ensures ClosingAt(space + rest, level) == |space| + ClosingAt(rest, level)
  {
    ClosingSkipsText(space, rest, level);
  }

  lemma ClosingSkipsKey(before: string, key: string, gap: string, lead: string, rest: string, level: int)
    requires Blank(before) && Blank(gap) && Blank(lead) && CleanText(key)
    ensures var text := before + (Quoted(key) + (gap + (":" + (lead + rest))));
            ClosingAt(text, level) == |text| - |rest| + ClosingAt(rest, level)
  {
    hide ClosingAt;
    ClosingSkipsBlank(before, Quoted(key) + (gap + (":" + (lead + rest))), level);
    ClosingSkipsText(Quoted(key), gap + (":" + (lead + rest)), level);
    ClosingSkipsBlank(gap, ":" + (lead + rest), level);
    ClosingSkipsText(":", lead + rest, level);
    ClosingSkipsBlank(lead, rest, level);
  }

  /** The brace count passes over the text of any value. */
  lemma {:induction false} ClosingSkipsLoose(v: Loose, rest: string, level: int)
    requires Laid(v) && level >= 1
    ensures ClosingAt(Text(v) + rest, level) == |Text(v)| + ClosingAt(rest, level)
    decreases v
  {
    hide ClosingAt, MembersText, Number;
    match v
    case LooseNum(n) => NumberHasNoBrace(n, rest, level);
    case LooseStr(s) => ClosingSkipsText(Quoted(s), rest, level);
    case LooseObj(members) =>
      ClosingSkipsLooseMembers(members, "}" + rest, level + 1);
      ClosingOfObject(MembersText(members), rest, level);
  }

  lemma NumberHasNoBrace(n: int, rest: string, level: int)
    ensures ClosingAt(Number(n) + rest, level) == |Number(n)| + ClosingAt(rest, level)
  {
    hide ClosingAt;
    ClosingSkipsText(Number(n), rest, level);
  }

  /** From an opening brace, past the text `m`, to the brace that closes it. */
  lemma ClosingOfObject(m: string, rest: string, level: int)
    requires level >= 0 && ClosingAt(m + ("}" + rest), level + 1) == |m| + ClosingAt("}" + rest, level + 1)
    ensures ClosingAt("{" + (m + "}") + rest, level) == |m| + 1 + if level == 0 then 0 else 1 + ClosingAt(rest, level)
  {
    assert "{" + (m + "}") + rest == "{" + (m + ("}" + rest));
    OpenThen(m + ("}" + rest), level);
    CloseThen(rest, level);
  }

  lemma {:induction false} ClosingSkipsLooseMembers(members: LooseMembers, rest: string, level: int)
    requires LaidMembers(members) && level >= 1
    ensures ClosingAt(MembersText(members) + rest, level) == |MembersText(members)| + ClosingAt(rest, level)
    decreases members
  {
    match members
    case LooseEnd(space) => ClosingSkipsBlank(space, rest, level);
    case LooseMember(before, key, gap, lead, value, after, comma, others) =>
      var more := MembersText(others);
      TextRegroups(before, Quoted(key), gap, lead, Text(value), after, Comma(comma), more, rest);
      ClosingSkipsKey(before, key, gap, lead, Text(value) + Behind(after, comma, more + rest), level);
      ClosingSkipsLoose(value, Behind(after, comma, more + rest), level);
      ClosingSkipsBlank(after, Comma(comma) + (more + rest), level);
      ClosingSkipsText(Comma(comma), more + rest, level);
      ClosingSkipsLooseMembers(others, rest, level);
  }

  lemma TextRegroups(a: string, b: string, c: string, d: string, e: string, f: string, g: string, h: string,
          rest: string)
    ensures a + (b + (c + (":" + (d + (e + (f + (g + h))))))) + rest
            == a + (b + (c + (":" + (d + (e + (f + (g + (h + rest))))))))
  {
  }

  // ---------------------------------------------------------------- tokens

  /** What one value yields: its token, unless it is a number that ends the text, or `{}`; a negative number spins. */
  function ValueTokens(v: Loose, behind: string, tail: string): Outcome {
    match v
    case LooseNum(n) =>
      if n < 0 then Spins else Prepend(if behind == "" then [] else [LooseToken(v)], Scan(behind, tail))
    case LooseStr(_) => Prepend([LooseToken(v)], Scan(behind, tail))
    case LooseObj(members) =>
      var text := MembersText(members);
      Prepend([ObjectToken(if text == "" then "}" + behind + tail else text)], Scan(behind, tail))
  }

  lemma ScanLooseValue(v: Loose, behind: string, tail: string)
    requires Laid(v) && (behind != "" ==> !IsDigit(behind[0]))
    ensures Scan(Text(v) + behind, tail) == ValueTokens(v, behind, tail)
  {
    match v
    case LooseNum(n) =>
      if behind != "" {
        ScanNumber(n, behind, tail);
      } else {
        ScanLastNumber(n, tail);
      }
    case LooseStr(s) => ScanQuoted(s, behind, tail);
    case LooseObj(members) =>
      ClosingSkipsLooseMembers(members, "}" + behind, 1);
      ClosingOfObject(MembersText(members), behind, 0);
      ScanLooseObject(MembersText(members), behind, tail);
  }

  /** A number at the very end of the text yields no token. */
  lemma ScanLastNumber(n: int, tail: string)
    ensures Scan(Number(n) + "", tail) == if n < 0 then Spins else Tokens([])
  {
    var t := Number(n);
    assert t + "" == t;
    ScanStarts(t, tail);
    if n >= 0 {
      DigitsEnd(t, "");
    }
  }

  lemma ScanOfBrace(s: string, inner: string, rest: string, tail: string)
    requires s != "" && s[0] == '{' && |inner| + 1 == ClosingAt(s, 0) < |s|
    requires s[1..|inner| + 1] == inner && s[|inner| + 2..] == rest
    ensures Scan(s, tail) == Prepend([ObjectToken(if inner == "" then s[1..] + tail else inner)], Scan(rest, tail))
  {
    ScanStarts(s, tail);
  }

  lemma BraceParts(m: string, behind: string, tail: string)
    ensures var t := "{" + (m + "}") + behind;
            && |t| == |m| + 2 + |behind| && t[0] == '{' && t[1..|m| + 1] == m && t[|m| + 2..] == behind
            && (m == "" ==> t[1..] + tail == "}" + behind + tail)
  {
    var t, rest := "{" + (m + "}") + behind, m + ("}" + behind);
    assert t == "{" + rest;
    assert rest[..|m|] == m && rest[|m| + 1..] == behind;
    if m == "" { assert t[1..] == "}" + behind; }
  }

  lemma ScanLooseObject(m: string, behind: string, tail: string)
    requires ClosingAt("{" + (m + "}") + behind, 0) == |m| + 1
    ensures Scan("{" + (m + "}") + behind, tail)
            == Prepend([ObjectToken(if m == "" then "}" + behind + tail else m)], Scan(behind, tail))
  {
    hide *;
    BraceParts(m, behind, tail);
    ScanOfBrace("{" + (m + "}") + behind, m, behind, tail);
  }

  lemma BehindStartsWithNoDigit(after: string, comma: bool, rest: LooseMembers)
    requires Blank(after) && LaidMembers(rest)
    ensures var t := Behind(after, comma, MembersText(rest)); t != "" ==> !IsDigit(t[0])
  {
    var t, more := Behind(after, comma, MembersText(rest)), MembersText(rest);
    if after != "" {
      assert t[0] == after[0];
    } else if comma {
      assert t[0] == ',';
    } else {
      assert t == more;
      if rest.LooseMember? && rest.before != "" { assert more[0] == rest.before[0]; }
      if rest.LooseMember? && rest.before == "" { assert more[0] == '\"'; }
    }
  }

  /** One member: its key, the separator, and what its value yields, before the tokens of the rest. */
  lemma ScanLooseMember(members: LooseMembers, tail: string)
    requires LaidMembers(members) && members.LooseMember?
    ensures var behind := Behind(members.after, members.comma, MembersText(members.rest));
            && Scan(behind, tail) == Scan(MembersText(members.rest), tail)
            && Scan(MembersText(members), tail)
               == Prepend([StringToken(Quoted(members.key)), KeyValueSeparator],
                          ValueTokens(members.value, behind, tail))
  {
    var behind := Behind(members.after, members.comma, MembersText(members.rest));
    BehindStartsWithNoDigit(members.after, members.comma, members.rest);
    ScanBehind(members.after, members.comma, MembersText(members.rest), tail);
    ScanLooseValue(members.value, behind, tail);
    hide Scan, ValueTokens;
    ScanKey(members.before, members.key, members.gap, members.lead, Text(members.value) + behind, tail);
  }

  /**
   * However the members of an object are laid out, the tokeniser spins if and only if a number at this level is
   * negative. Otherwise the tokens are one triple per member if and only if the layout has no `{}` at this level and
   * something behind the last number.
   */
  lemma {:induction false} ScanLooseMembers(members: LooseMembers, tail: string)
    requires LaidMembers(members)
    ensures Scan(MembersText(members), tail).Spins? <==> !NonNegative(BareMembers(members))
    ensures NonNegative(BareMembers(members)) ==>
              (Scan(MembersText(members), tail) == Tokens(LooseTriples(members)) <==> Spaced(members))
    decreases members
  {
    match members
    case LooseEnd(space) =>
      ScanBlank(space, "", tail);
      assert space + "" == space;
    case LooseMember(_, key, _, _, value, after, comma, rest) =>
      ScanLooseMember(members, tail);
      ScanLooseMembers(rest, tail);
      var behind := Behind(after, comma, MembersText(rest));
      TripleIff(members, Scan(behind, tail), behind, tail);
  }

  /** The token of a value that has one, or of the braces of an empty object. */
  function FirstOf(v: Loose, behind: string, tail: string): Token {
    if v.LooseObj? && MembersText(v.members) == "" then ObjectToken("}" + behind + tail) else LooseToken(v)
  }

  lemma PrependIff(a: Token, b: Token, c: Token, c': Token, more: Outcome, rest: seq<Token>)
    requires more.Tokens?
    ensures Prepend([a, b], Prepend([c], more)) == Tokens([a, b, c'] + rest) <==> c == c' && more.tokens == rest
  {
    assert [a, b] + ([c] + more.tokens) == [a, b, c] + more.tokens;
    var x, y := [a, b, c] + more.tokens, [a, b, c'] + rest;
    assert x[2] == c && y[2] == c' && x[3..] == more.tokens && y[3..] == rest;
  }

  /** A member's tokens are its triple and those of the rest exactly if its value is spaced and the rest's are right. */
  lemma TripleIff(members: LooseMembers, more: Outcome, behind: string, tail: string)
    requires members.LooseMember? && more == Scan(behind, tail)
    ensures var o := Prepend([StringToken(Quoted(members.key)), KeyValueSeparator],
                             ValueTokens(members.value, behind, tail));
            && (o.Spins? <==> more.Spins? || (members.value.LooseNum? && members.value.n < 0))
            && (!o.Spins? ==>
                 (o == Tokens(LooseTriples(members)) <==>
                   && more == Tokens(LooseTriples(members.rest))
                   && (members.value.LooseNum? ==> behind != "")
                   && (members.value.LooseObj? ==> MembersText(members.value.members) != "")))
  {
    var a, v := StringToken(Quoted(members.key)), members.value;
    if more.Tokens? {
      if v.LooseNum? && behind == "" {
        assert Spaces(behind) == 0 && more == Tokens([]);
        assert v.n >= 0 ==>
                 |Prepend([a, KeyValueSeparator], ValueTokens(v, behind, tail)).tokens| == 2 < |LooseTriples(members)|;
      } else {
        hide Scan;
        PrependIff(a, KeyValueSeparator, FirstOf(v, behind, tail), LooseToken(v), more, LooseTriples(members.rest));
      }
    }
  }

  // ---------------------------------------------------------------- looking values up

  /** The same at every level. */
  predicate SpacedThroughout(members: LooseMembers) {
    Spaced(members) && ValuesSpaced(members)
  }

  predicate ValuesSpaced(members: LooseMembers) {
    match members
    case LooseEnd(_) => true
    case LooseMember(_, _, _, _, value, _, _, rest) =>
      (value.LooseObj? ==> Spaced(value.members) && ValuesSpaced(value.members)) && ValuesSpaced(rest)
  }

  /** The first member with a key, or the end. */
  function FirstUnder(members: LooseMembers, key: string): LooseMembers {
    if members.LooseEnd? || members.key == key then members else FirstUnder(members.rest, key)
  }

  /** Looking up a quoted key among the tokens of a level finds the first value written for it. */
  lemma {:induction false} JsonValueFindsLoose(members: LooseMembers, key: string)
    ensures JsonValue(LooseTriples(members), Quoted(key)) ==
            var m := FirstUnder(members, key); if m.LooseEnd? then NullToken else LooseToken(m.value)
  {
    if members.LooseMember? {
      var k, v := members.key, LooseToken(members.value);
      var ts, rest := LooseTriples(members), LooseTriples(members.rest);
      assert ts[1..] == [KeyValueSeparator, v] + rest && ts[1..][1..] == [v] + rest && ts[1..][1..][1..] == rest;
      assert Quoted(k)[1..|Quoted(k)| - 1] == k && Quoted(key)[1..|Quoted(key)| - 1] == key;
      assert JsonValue(ts, Quoted(key)) == ValueFrom(ts[1..], Quoted(key), false, k == key)
          == ValueFrom([v] + rest, Quoted(key), false, k == key);
      JsonValueFindsLoose(members.rest, key);
    }
  }

  lemma {:induction false} FirstUnderIsFirst(members: LooseMembers, key: string)
    requires LaidMembers(members) && ValuesSpaced(members) && Spaced(members)
    ensures var m := FirstUnder(members, key);
            && FirstValue(BareMembers(members), key) ==
                 (if m.LooseEnd? then NullToken else ValueToken(Bare(m.value)))
            && FirstObject(BareMembers(members), key) ==
                 (if m.LooseMember? && m.value.LooseObj? then (true, BareMembers(m.value.members)) else (false, End))
            && (m.LooseMember? && m.value.LooseObj? ==>
                  && LaidMembers(m.value.members) && SpacedThroughout(m.value.members)
                  && MembersText(m.value.members) != "")
  {
    if members.LooseMember? && members.key != key { FirstUnderIsFirst(members.rest, key); }
  }

  /** The same answer, but for the layout inside an object. */
  predicate Alike(a: Lookup, b: Lookup) {
    a == b || (a.Found? && b.Found? && a.token.ObjectToken? && b.token.ObjectToken?)
  }

  /**
   * White space does not matter: any path of keys finds in the text what it finds in the tree, and is stuck where the
   * tree's lookup is, however the text is laid out, but for `{}` and numbers right before a brace.
   */
  lemma {:induction false} LooseLookupsAgree(members: LooseMembers, path: seq<string>)
    requires LaidMembers(members) && SpacedThroughout(members) && MembersText(members) != ""
    ensures Alike(LookupText(MembersText(members), path), LookupTree(BareMembers(members), path))
    decreases path
  {
    ScanLooseMembers(members, "");
    if path != [] && NonNegative(BareMembers(members)) {
      JsonValueFindsLoose(members, path[0]);
      FirstUnderIsFirst(members, path[0]);
      var m := FirstUnder(members, path[0]);
      if |path| > 1 && m.LooseMember? && m.value.LooseObj? { LooseLookupsAgree(m.value.members, path[1..]); }
    }
  }

  lemma OnlyNumber(key: string, n: nat, after: string)
    requires CleanText(key) && Blank(after)
    ensures Scan(Quoted(key) + (":" + (Number(n) + after)), "")
            == Prepend([StringToken(Quoted(key)), KeyValueSeparator], Scan(Number(n) + after, ""))
  {
    ScanKey("", key, "", "", Number(n) + after, "");
    var text := Number(n) + after;
    assert "" + text == text && "" + (":" + text) == ":" + text;
    assert "" + (Quoted(key) + (":" + text)) == Quoted(key) + (":" + text);
  }

  lemma ValueAmong(key: string, more: seq<Token>)
    ensures JsonValue([StringToken(Quoted(key)), KeyValueSeparator] + more, Quoted(key))
            == ValueFrom(more, Quoted(key), false, true)
  {
    var ts := [StringToken(Quoted(key)), KeyValueSeparator] + more;
    assert Quoted(key)[0] == '\"';
    assert ts[1..] == [KeyValueSeparator] + more && ts[1..][1..] == more;
    assert ValueFrom(ts, Quoted(key), true, false) == ValueFrom(ts[1..], Quoted(key), false, true);
  }

  /** Without a space behind it, the last number of an object is lost. */
  lemma NumberBeforeBraceIsLost(key: string, n: nat)
    requires CleanText(key)
    ensures LookupText(Quoted(key) + (":" + (Number(n) + "")), [key]) == Found(NullToken)
    ensures LookupText(Quoted(key) + (":" + (Number(n) + " ")), [key]) == Found(NumberToken(Number(n)))
  {
    OnlyNumber(key, n, "");
    OnlyNumber(key, n, " ");
    ScanLastNumber(n, "");
    ScanNumber(n, " ", "");
    ScanBlank(" ", "", "");
    assert " " + "" == " " && Scan("", "") == Tokens([]);
    var number := [NumberToken(Number(n))];
    assert ValueFrom(number, Quoted(key), false, true) == number[0] && number + [] == number;
    hide Scan, JsonValue, Quoted;
    ValueAmong(key, []);
    ValueAmong(key, number);
  }

  /** An empty slice adds no token and is not an error; one of white space trips the assertion that one was added. */
  lemma EmptyAndBlank(space: string, tail: string)
    requires Blank(space)
    ensures FinishOf("", tail) == Nothing && (space != "" ==> FinishOf(space, tail) == Trips)
    ensures LookupText("", ["key"]) == Found(NullToken)
  {
    ScanBlank(space, "", tail);
    assert space + "" == space && Scan("", tail) == Scan("", "") == Tokens([]);
  }

  // ---------------------------------------------------------------- what the writer lays out

  /** An object that is empty, or whose last value is one such. */
  predicate EndsEmpty(v: Value) { v.Obj? && MembersEndEmpty(v.members) }

  predicate MembersEndEmpty(members: Members) {
    members.End? || (if members.rest.End? then EndsEmpty(members.value) else MembersEndEmpty(members.rest))
  }

  function Lay(v: Value): Loose {
    match v
    case Num(n) => LooseNum(n)
    case Str(s) => LooseStr(s)
    case Obj(members) => LooseObj(LayMembers(members, " "))
  }

  /** One blank around every token; a comma before a further member, unless an empty object has just been closed. */
  function LayMembers(members: Members, before: string): LooseMembers {
    match members
    case End => LooseEnd(before + " ")
    case Member(key, value, rest) =>
      var comma := rest.Member? && !EndsEmpty(value);
      LooseMember(before, key, " ", " ", Lay(value), "", comma, LayMembers(rest, if comma then " " else ""))
  }

  lemma {:induction false} FlagAfter(v: Value)
    ensures Print(v, true).1 == !EndsEmpty(v)
    decreases v
  {
    if v.Obj? { FlagAfterMembers(v.members, false); }
  }

  lemma {:induction false} FlagAfterMembers(members: Members, hasKey: bool)
    ensures PrintMembers(members, hasKey).1 == if members.End? then hasKey else !MembersEndEmpty(members)
    decreases members
  {
    if members.Member? {
      FlagAfter(members.value);
      FlagAfterMembers(members.rest, Print(members.value, true).1);
    }
  }

  lemma {:induction false} WriterLaysOutValue(v: Value, hasKey: bool)
    ensures Print(v, hasKey).0 == Text(Lay(v))
    decreases v
  {
    if v.Obj? {
      WriterLaysOut(v.members, " ");
      var m := PrintMembers(v.members, false).0;
      assert "{" + (" " + m + " " + "}") == "{ " + m + " }";
    }
  }

  /** What the writer emits for the inside of an object is this layout. */
  lemma {:induction false} WriterLaysOut(members: Members, before: string)
    ensures MembersText(LayMembers(members, before)) == before + PrintMembers(members, false).0 + " "
    decreases members
  {
    hide Print, Quoted, Text, Number, EndsEmpty;
    if members.Member? {
      var key, value, rest := members.key, members.value, members.rest;
      var comma := rest.Member? && !EndsEmpty(value);
      FlagAfter(value);
      WriterLaysOutValue(value, true);
      var lead := if comma then " " else "";
      WriterLaysOut(rest, lead);
      SeparatorFirst(rest, Print(value, true).1);
      var body := PrintMembers(rest, false).0;
      assert PrintMembers(rest, Print(value, true).1).0 == Comma(comma) + (lead + body);
      MemberTexts(before, Quoted(key), Text(Lay(value)), Comma(comma), lead, body);
    } else {
      assert before + "" + " " == before + " ";
    }
  }

  lemma LeadApart(lead: string, key: string, value: string, more: string)
    ensures lead + key + " : " + value + more == lead + ("" + key + " : " + value + more)
  {
  }

  lemma SeparatorFirst(members: Members, hasKey: bool)
    ensures PrintMembers(members, hasKey).0
            == (if members.Member? then Separator(hasKey) else "") + PrintMembers(members, false).0
  {
    if members.Member? {
      var v := Print(members.value, true);
      var more := PrintMembers(members.rest, v.1).0;
      LeadApart(Separator(hasKey), Quoted(members.key), v.0, more);
      hide Print, Quoted;
    } else {
      assert "" + "" == "";
    }
  }

  lemma MemberTexts(before: string, key: string, value: string, comma: string, lead: string, body: string)
    ensures before + (key + (" " + (":" + (" " + (value + ("" + (comma + (lead + body + " "))))))))
            == before + ("" + key + " : " + value + (comma + (lead + body))) + " "
  {
    assert " " + (":" + (" " + (value + ("" + (comma + (lead + body + " "))))))
           == " : " + (value + (comma + (lead + body + " ")));
  }

  /** Members are separated by commas, and nothing else is followed by one. */
  predicate Punctuated(members: LooseMembers) {
    match members
    case LooseEnd(_) => true
    case LooseMember(_, _, _, _, value, _, comma, rest) =>
      comma == rest.LooseMember? && (value.LooseObj? ==> Punctuated(value.members)) && Punctuated(rest)
  }

  /** At no level is a member that ends with an empty object followed by another one. */
  predicate NoEmptyBefore(members: Members) {
    match members
    case End => true
    case Member(_, value, rest) =>
      && (rest.Member? ==> !EndsEmpty(value)) && (value.Obj? ==> NoEmptyBefore(value.members)) && NoEmptyBefore(rest)
  }

  /**
   * The writer emits the tree, in a layout that the tokeniser can read; its members are separated by commas throughout
   * if and only if no value that ends with an empty object is followed by another member.
   */
  lemma {:induction false} WriterPunctuatesIff(members: Members, before: string)
    requires Blank(before)
    ensures BareMembers(LayMembers(members, before)) == members
    ensures CleanMembers(members) ==> LaidMembers(LayMembers(members, before))
    ensures SpacedThroughout(LayMembers(members, before)) && MembersText(LayMembers(members, before)) != ""
    ensures Punctuated(LayMembers(members, before)) <==> NoEmptyBefore(members)
    decreases members
  {
    match members
    case End =>
    case Member(key, value, rest) =>
      var comma := rest.Member? && !EndsEmpty(value);
      WriterPunctuatesIff(rest, if comma then " " else "");
      if value.Obj? { WriterPunctuatesIff(value.members, " "); }
      assert Clean(value) ==> Laid(Lay(value));
  }
}
