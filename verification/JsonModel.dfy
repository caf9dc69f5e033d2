/** What the JSON writer emits for a tree of values, and how the tokeniser reads it back. */
module JsonModel {
  import opened Decimal

  datatype Value = Num(n: int) | Str(s: string) | Obj(members: Members)

  /** An object's keys and values, in the order they are written. */
  datatype Members = End | Member(key: string, value: Value, rest: Members)

  // ---------------------------------------------------------------- the writer

  function Quoted(s: string): string { "\"" + s + "\"" }

  function Number(n: int): string { if n < 0 then "-" + ToDecimal(-n) else ToDecimal(n) }

  /** A number is written as its sign, if it is negative, and the decimal notation of its magnitude. */
  lemma NumberDenotes(n: int)
    ensures if n < 0 then Number(n)[0] == '-' && AllDigits(Number(n)[1..]) && FromDecimal(Number(n)[1..]) == -n
            else AllDigits(Number(n)) && FromDecimal(Number(n)) == n
  {
    DecimalRoundTrip(if n < 0 then -n else n);
    assert n < 0 ==> Number(n)[1..] == ToDecimal(-n);
  }

  /** The text of a value, and the writer's "object has a key" flag afterwards, given the flag before. */
  function Print(v: Value, hasKey: bool): (string, bool)
  {
    match v
    case Num(n) => (Number(n), hasKey)
    case Str(s) => (Quoted(s), hasKey)
    case Obj(members) => ("{ " + PrintMembers(members, false).0 + " }", PrintMembers(members, false).1)
  }

  function Separator(hasKey: bool): string { if hasKey then ", " else "" }

  function PrintMembers(members: Members, hasKey: bool): (string, bool)
  {
    match members
    case End => ("", hasKey)
    case Member(key, value, rest) =>
      var v := Print(value, true);
      var more := PrintMembers(rest, v.1);
      (Separator(hasKey) + Quoted(key) + " : " + v.0 + more.0, more.1)
  }

  /** What lies between an object's braces. */
  function Inside(members: Members): string { " " + PrintMembers(members, false).0 + " " }

  // ---------------------------------------------------------------- the tokeniser

  datatype Token =
    | ObjectToken(text: string)
    | StringToken(text: string)
    | NumberToken(text: string)
    | KeyValueSeparator
    | NullToken

  /** The tokeniser ends with its tokens, or stays in the same state at the same character for ever. */
  datatype Outcome = Tokens(tokens: seq<Token>) | Spins

  function Prepend(ts: seq<Token>, o: Outcome): Outcome { if o.Spins? then Spins else Tokens(ts + o.tokens) }

  predicate IsSpace(c: char) { c == ' ' || c == '\t' || c == '\n' }

  function Spaces(s: string): (n: nat)
    ensures n <= |s| && (n < |s| ==> !IsSpace(s[n]))
  {
    if s != "" && IsSpace(s[0]) then 1 + Spaces(s[1..]) else 0
  }

  function Digits(s: string): (n: nat)
    ensures n <= |s| && (n < |s| ==> !IsDigit(s[n]))
  {
    if s != "" && IsDigit(s[0]) then 1 + Digits(s[1..]) else 0
  }

  /** Index of the first quote; the length if there is none. */
  function QuoteAt(s: string): (n: nat)
    ensures n <= |s| && (n < |s| ==> s[n] == '\"')
  {
    if s != "" && s[0] != '\"' then 1 + QuoteAt(s[1..]) else 0
  }

  /** Index of the brace that brings the nesting level back to zero; the length if there is none. */
  function ClosingAt(s: string, level: int): (n: nat)
    ensures n <= |s| && (n < |s| ==> s[n] == '}')
  {
    if s == "" then 0
    else if s[0] == '}' && level == 1 then 0
    else 1 + ClosingAt(s[1..], if s[0] == '{' then level + 1 else if s[0] == '}' then level - 1 else level)
  }

  /** Tokens of `s`; `tail` is the rest of the terminated string that `s` is a slice of. */
  function Scan(s: string, tail: string): Outcome
    decreases |s|, 1
  {
    ScanAt(s[Spaces(s)..], tail)
  }

  function ScanAt(s: string, tail: string): Outcome
    decreases |s|, 0
  {
    if s == "" then Tokens([])
    else if s[0] == ':' then Prepend([KeyValueSeparator], Scan(s[1..], tail))
    else if s[0] == ',' then Scan(s[1..], tail)
    else if s[0] == '\"' then
      var n := 1 + QuoteAt(s[1..]);
      if n == |s| then Tokens([]) else Prepend([StringToken(s[..n + 1])], Scan(s[n + 1..], tail))
    else if s[0] == '{' then
      var n := ClosingAt(s, 0);
      // a slice created with length zero runs to the end of the string
      if n == |s| then Tokens([])
      else Prepend([ObjectToken(if n == 1 then s[1..] + tail else s[1..n])], Scan(s[n + 1..], tail))
    else if IsDigit(s[0]) then
      var n := Digits(s);
      if n == |s| then Tokens([]) else Prepend([NumberToken(s[..n])], Scan(s[n..], tail))
    else Spins
  }

  /**
   * How a call of the tokeniser ends: with nothing for an empty slice, with the first token added, by tripping the
   * assertion that one was added, or never.
   */
  datatype Finish = Nothing | First(token: Token) | Trips | Never

  function FinishOf(s: string, tail: string): Finish {
    if s == "" then Nothing
    else
      match Scan(s, tail)
      case Spins => Never
      case Tokens(tokens) => if tokens == [] then Trips else First(tokens[0])
  }

  // ---------------------------------------------------------------- reading back what was written

  predicate Free(s: string, c: char) { forall i :: 0 <= i < |s| ==> s[i] != c }

  predicate CleanText(s: string) { Free(s, '\"') && Free(s, '{') && Free(s, '}') }

  /** No key and no string, at any depth, holds a quote or a brace. */
  predicate Clean(v: Value)
  {
    match v
    case Num(_) => true
    case Str(s) => CleanText(s)
    case Obj(members) => CleanMembers(members)
  }

  predicate CleanMembers(members: Members)
  {
    members.Member? ==> CleanText(members.key) && Clean(members.value) && CleanMembers(members.rest)
  }

  /** No number directly at this level is negative; deeper ones are free. */
  predicate NonNegative(members: Members) {
    members.Member? ==> (members.value.Num? ==> members.value.n >= 0) && NonNegative(members.rest)
  }

  function ValueToken(v: Value): Token {
    match v
    case Num(n) => NumberToken(Number(n))
    case Str(s) => StringToken(Quoted(s))
    case Obj(members) => ObjectToken(Inside(members))
  }

  /** Key, separator and value of each member. */
  function Triples(members: Members): seq<Token> {
    if members.End? then []
    else [StringToken(Quoted(members.key)), KeyValueSeparator, ValueToken(members.value)] + Triples(members.rest)
  }

  lemma ScanStarts(s: string, tail: string)
    requires s != "" && !IsSpace(s[0])
    ensures Scan(s, tail) == ScanAt(s, tail)
  {
    assert Spaces(s) == 0 && s[0..] == s;
  }

  lemma ScanSpace(s: string, tail: string)
    ensures Scan(" " + s, tail) == Scan(s, tail)
  {
    assert (" " + s)[1..] == s;
    assert (" " + s)[Spaces(" " + s)..] == s[Spaces(s)..];
  }

  lemma ScanSeparator(hasKey: bool, s: string, tail: string)
    ensures Scan(Separator(hasKey) + s, tail) == Scan(s, tail)
  {
    if hasKey {
      var t := ", " + s;
      assert t[0] == ',' && Spaces(t) == 0 && t[0..] == t && t[1..] == " " + s;
      ScanSpace(s, tail);
    } else {
      assert "" + s == s;
    }
  }

  lemma {:induction false} QuoteAtEnd(s: string, rest: string)
    requires Free(s, '\"')
    ensures QuoteAt(s + "\"" + rest) == |s|
  {
    var t := s + "\"" + rest;
    if s != "" {
      QuoteAtEnd(s[1..], rest);
      assert t[1..] == s[1..] + "\"" + rest;
    }
  }

  lemma ScanQuoted(s: string, rest: string, tail: string)
    requires Free(s, '\"')
    ensures Scan(Quoted(s) + rest, tail) == Prepend([StringToken(Quoted(s))], Scan(rest, tail))
  {
    var t := Quoted(s) + rest;
    assert t[1..] == s + "\"" + rest;
    QuoteAtEnd(s, rest);
    var n := 1 + |s|;
    assert t[0] == '\"' && Spaces(t) == 0 && t[0..] == t;
    assert t[..n + 1] == Quoted(s) && t[n + 1..] == rest;
  }

  lemma ScanColon(rest: string, tail: string)
    ensures Scan(" : " + rest, tail) == Prepend([KeyValueSeparator], Scan(rest, tail))
  {
    var t := ": " + rest;
    assert " : " + rest == " " + t;
    ScanSpace(t, tail);
    assert t[0] == ':' && Spaces(t) == 0 && t[0..] == t && t[1..] == " " + rest;
    ScanSpace(rest, tail);
  }

  lemma {:induction false} DigitsEnd(s: string, rest: string)
    requires AllDigits(s) && (rest != "" ==> !IsDigit(rest[0]))
    ensures Digits(s + rest) == |s|
  {
    if s != "" {
      DigitsEnd(s[1..], rest);
      assert (s + rest)[1..] == s[1..] + rest;
    } else {
      assert s + rest == rest;
    }
  }

  /** A non-negative number is a token when something else follows it; a negative one makes the tokeniser spin. */
  lemma ScanNumber(n: int, rest: string, tail: string)
    requires rest != "" && !IsDigit(rest[0])
    ensures Scan(Number(n) + rest, tail)
            == if n >= 0 then Prepend([NumberToken(Number(n))], Scan(rest, tail)) else Spins
  {
    var t := Number(n) + rest;
    assert t[0] == Number(n)[0];
    ScanStarts(t, tail);
    if n >= 0 {
      ScanDigits(ToDecimal(n), rest, tail);
    }
  }

  lemma ScanDigits(s: string, rest: string, tail: string)
    requires s != "" && AllDigits(s) && rest != "" && !IsDigit(rest[0])
    ensures ScanAt(s + rest, tail) == Prepend([NumberToken(s)], Scan(rest, tail))
  {
    DigitsEnd(s, rest);
    assert (s + rest)[..|s|] == s && (s + rest)[|s|..] == rest;
    hide Scan, Digits;
  }

  // ---------------------------------------------------------------- braces

  lemma {:induction false} ClosingSkipsText(s: string, rest: string, level: int)
    requires Free(s, '{') && Free(s, '}')
    ensures ClosingAt(s + rest, level) == |s| + ClosingAt(rest, level)
  {
    if s != "" {
      ClosingSkipsText(s[1..], rest, level);
      assert (s + rest)[1..] == s[1..] + rest;
    } else {
      assert s + rest == rest;
    }
  }

  lemma BracesRegroup(m: string, rest: string)
    ensures "{ " + m + " }" + rest == "{" + (" " + (m + (" " + ("}" + rest))))
  {
    assert "{ " == "{" + " " && " }" == " " + "}";
  }

  lemma MemberRegroups(lead: string, key: string, value: string, more: string, rest: string)
    ensures lead + key + " : " + value + more + rest == lead + (key + (" : " + (value + (more + rest))))
  {
  }

  /** From an opening brace, past the text `m`, to the brace that closes it. */
  lemma ClosingOfBraces(m: string, rest: string, level: int)
    requires level >= 0 && ClosingAt(m + (" " + ("}" + rest)), level + 1)
             == |m| + ClosingAt(" " + ("}" + rest), level + 1)
    ensures ClosingAt("{ " + m + " }" + rest, level) == |m| + 3 + if level == 0 then 0 else 1 + ClosingAt(rest, level)
  {
    var end := "}" + rest;
    BracesRegroup(m, rest);
    CloseThen(rest, level);
    hide ClosingAt;
    OpenThen(" " + (m + (" " + end)), level);
    ClosingSkipsText(" ", m + (" " + end), level + 1);
    ClosingSkipsText(" ", end, level + 1);
  }

  lemma CloseThen(rest: string, level: int)
    ensures ClosingAt("}" + rest, level + 1) == if level == 0 then 0 else 1 + ClosingAt(rest, level)
  {
    assert ("}" + rest)[1..] == rest;
  }

  lemma OpenThen(rest: string, level: int)
    ensures ClosingAt("{" + rest, level) == 1 + ClosingAt(rest, level + 1)
  {
    assert ("{" + rest)[1..] == rest;
  }

  lemma ClosingSkipsLead(hasKey: bool, key: string, rest: string, level: int)
    requires CleanText(key)
    ensures var lead := Separator(hasKey) + (Quoted(key) + (" : " + rest));
            ClosingAt(lead, level) == |lead| - |rest| + ClosingAt(rest, level)
  {
    hide ClosingAt;
    ClosingSkipsText(Separator(hasKey), Quoted(key) + (" : " + rest), level);
    ClosingSkipsText(Quoted(key), " : " + rest, level);
    ClosingSkipsText(" : ", rest, level);
  }

  /** The brace count passes over the text of any clean value. */
  lemma {:induction false} ClosingSkipsValue(v: Value, hasKey: bool, rest: string, level: int)
    requires Clean(v) && level >= 1
    ensures ClosingAt(Print(v, hasKey).0 + rest, level) == |Print(v, hasKey).0| + ClosingAt(rest, level)
  {
    match v
    case Num(n) => ClosingSkipsText(Number(n), rest, level);
    case Str(s) => ClosingSkipsText(Quoted(s), rest, level);
    case Obj(members) =>
      ClosingSkipsMembers(members, false, " " + ("}" + rest), level + 1);
      ClosingOfBraces(PrintMembers(members, false).0, rest, level);
  }

  lemma {:induction false} ClosingSkipsMembers(members: Members, hasKey: bool, rest: string, level: int)
    requires CleanMembers(members) && level >= 1
    ensures ClosingAt(PrintMembers(members, hasKey).0 + rest, level)
            == |PrintMembers(members, hasKey).0| + ClosingAt(rest, level)
  {
    match members
    case End => assert "" + rest == rest;
    case Member(key, value, others) =>
      var v := Print(value, true);
      var more := PrintMembers(others, v.1).0;
      MemberRegroups(Separator(hasKey), Quoted(key), v.0, more, rest);
      ClosingSkipsLead(hasKey, key, v.0 + (more + rest), level);
      ClosingSkipsValue(value, true, more + rest, level);
      ClosingSkipsMembers(others, v.1, rest, level);
  }

  lemma ScanObject(members: Members, hasKey: bool, rest: string, tail: string)
    requires CleanMembers(members)
    ensures Scan(Print(Obj(members), hasKey).0 + rest, tail)
            == Prepend([ObjectToken(Inside(members))], Scan(rest, tail))
  {
    var m := PrintMembers(members, false).0;
    ClosingSkipsMembers(members, false, " " + ("}" + rest), 1);
    ClosingOfBraces(m, rest, 0);
    ScanBraces(m, rest, tail);
  }

  lemma ScanBraces(m: string, rest: string, tail: string)
    requires ClosingAt("{ " + m + " }" + rest, 0) == |m| + 3
    ensures Scan("{ " + m + " }" + rest, tail) == Prepend([ObjectToken(" " + m + " ")], Scan(rest, tail))
  {
    var t := "{ " + m + " }" + rest;
    var n := |m| + 3;
    assert t[0] == '{' && Spaces(t) == 0 && t[0..] == t;
    assert t[1..n] == " " + m + " " && t[n + 1..] == rest;
  }

  lemma ScanValue(v: Value, rest: string, tail: string)
    requires Clean(v) && rest != "" && !IsDigit(rest[0])
    ensures Scan(Print(v, true).0 + rest, tail) ==
            if v.Num? && v.n < 0 then Spins else Prepend([ValueToken(v)], Scan(rest, tail))
  {
    match v
    case Num(n) => ScanNumber(n, rest, tail);
    case Str(s) => ScanQuoted(s, rest, tail);
    case Obj(members) => ScanObject(members, true, rest, tail);
  }

  lemma ScanLead(hasKey: bool, key: string, rest: string, tail: string)
    requires Free(key, '\"')
    ensures Scan(Separator(hasKey) + (Quoted(key) + (" : " + rest)), tail) ==
            Prepend([StringToken(Quoted(key)), KeyValueSeparator], Scan(rest, tail))
  {
    hide Scan;
    ScanSeparator(hasKey, Quoted(key) + (" : " + rest), tail);
    ScanQuoted(key, " : " + rest, tail);
    ScanColon(rest, tail);
    PrependTwice([StringToken(Quoted(key))], [KeyValueSeparator], Scan(rest, tail));
  }

  lemma PrependTwice(a: seq<Token>, b: seq<Token>, o: Outcome)
    ensures Prepend(a, Prepend(b, o)) == Prepend(a + b, o)
  {
    if o.Tokens? { assert a + (b + o.tokens) == a + b + o.tokens; }
  }

  /** One member and what follows it: its triple, then the tokens of the rest. */
  lemma ScanMember(hasKey: bool, key: string, value: Value, more: string, tail: string)
    requires CleanText(key) && Clean(value) && more != "" && !IsDigit(more[0])
    ensures Scan(Separator(hasKey) + (Quoted(key) + (" : " + (Print(value, true).0 + more))), tail) ==
            if value.Num? && value.n < 0 then Spins
            else Prepend([StringToken(Quoted(key)), KeyValueSeparator, ValueToken(value)], Scan(more, tail))
  {
    hide Scan, Print, Clean;
    var text := Print(value, true).0 + more;
    ScanLead(hasKey, key, text, tail);
    ScanValue(value, more, tail);
    PrependTwice([StringToken(Quoted(key)), KeyValueSeparator], [ValueToken(value)], Scan(more, tail));
  }

  /**
   * The members of an object, followed by a space: the tokens are one triple per member, unless a number at this level
   * is negative, and then the tokeniser never ends.
   */
  lemma {:induction false} ScanMembers(members: Members, hasKey: bool, tail: string)
    requires CleanMembers(members)
    ensures Scan(PrintMembers(members, hasKey).0 + " ", tail)
            == if NonNegative(members) then Tokens(Triples(members)) else Spins
  {
    if members.End? {
      assert "" + " " == " " + "";
      ScanSpace("", tail);
    } else {
      var v := Print(members.value, true);
      var more := PrintMembers(members.rest, v.1).0;
      ScanMembers(members.rest, v.1, tail);
      MembersStartWithNoDigit(members.rest, v.1);
      MemberRegroups(Separator(hasKey), Quoted(members.key), v.0, more, " ");
      ScanMember(hasKey, members.key, members.value, more + " ", tail);
      PrependTriple(members, Scan(more + " ", tail));
    }
  }

  lemma PrependTriple(members: Members, o: Outcome)
    requires members.Member? && o == if NonNegative(members.rest) then Tokens(Triples(members.rest)) else Spins
    ensures Prepend([StringToken(Quoted(members.key)), KeyValueSeparator, ValueToken(members.value)], o) ==
            if NonNegative(members.rest) then Tokens(Triples(members)) else Spins
  {
  }

  lemma MembersStartWithNoDigit(members: Members, hasKey: bool)
    ensures var t := PrintMembers(members, hasKey).0 + " "; t != "" && !IsDigit(t[0])
  {
    if members.Member? {
      var v := Print(members.value, true);
      MemberRegroups(Separator(hasKey), Quoted(members.key), v.0, PrintMembers(members.rest, v.1).0, " ");
    }
  }

  /** Tokenising what an object holds. */
  lemma ScanInside(members: Members, tail: string)
    requires CleanMembers(members)
    ensures Scan(Inside(members), tail) == if NonNegative(members) then Tokens(Triples(members)) else Spins
  {
    assert Inside(members) == " " + (PrintMembers(members, false).0 + " ");
    ScanSpace(PrintMembers(members, false).0 + " ", tail);
    ScanMembers(members, false, tail);
  }

  /** The call returns the first key, unless a number is negative or there is no member at all. */
  lemma InsideFinishes(members: Members, tail: string)
    requires CleanMembers(members)
    ensures FinishOf(Inside(members), tail) ==
            if !NonNegative(members) then Never
            else if members.End? then Trips else First(StringToken(Quoted(members.key)))
  {
    ScanInside(members, tail);
  }

  /** Tokenising a whole document gives its one object. */
  lemma ScanDocument(members: Members)
    requires CleanMembers(members)
    ensures Scan(Print(Obj(members), false).0, "") == Tokens([ObjectToken(Inside(members))])
  {
    var t := Print(Obj(members), false).0;
    assert t + "" == t;
    ScanObject(members, false, "", "");
  }

  // ---------------------------------------------------------------- looking values up

  /** The scan for a key, part-way: whether a string would now be a key, and whether the key has been seen. */
  function ValueFrom(tokens: seq<Token>, key: string, isKey: bool, found: bool): Token {
    if tokens == [] then NullToken
    else
      var t, rest := tokens[0], tokens[1..];
      match t
      case NumberToken(_) => if found then t else ValueFrom(rest, key, true, found)
      case ObjectToken(_) => if found then t else ValueFrom(rest, key, true, found)
      case StringToken(text) =>
        if isKey then ValueFrom(rest, key, false, found || (text != "" && key != "" && text == key))
        else if found then t
        else ValueFrom(rest, key, true, found)
      case KeyValueSeparator => ValueFrom(rest, key, false, found)
      case NullToken => ValueFrom(rest, key, isKey, found)
  }

  function JsonValue(tokens: seq<Token>, key: string): Token { ValueFrom(tokens, key, true, false) }

  /** The first value written under a key. */
  function FirstValue(members: Members, key: string): Token {
    if members.End? then NullToken
    else if members.key == key then ValueToken(members.value)
    else FirstValue(members.rest, key)
  }

  /** Looking up a quoted key among the tokens of a level finds the first value written for it. */
  lemma {:induction false} JsonValueFindsFirst(members: Members, key: string)
    ensures JsonValue(Triples(members), Quoted(key)) == FirstValue(members, key)
  {
    if members.Member? {
      var k, v := members.key, ValueToken(members.value);
      var ts, rest := Triples(members), Triples(members.rest);
      assert ts[1..] == [KeyValueSeparator, v] + rest && ts[1..][1..] == [v] + rest && ts[1..][1..][1..] == rest;
      assert Quoted(k)[1..|Quoted(k)| - 1] == k && Quoted(key)[1..|Quoted(key)| - 1] == key;
      assert JsonValue(ts, Quoted(key)) == ValueFrom(ts[1..], Quoted(key), false, k == key)
          == ValueFrom([v] + rest, Quoted(key), false, k == key);
      JsonValueFindsFirst(members.rest, key);
    }
  }

  /** A lookup finds a token, the null one among them, or gets stuck in the tokeniser. */
  datatype Lookup = Found(token: Token) | Stuck

  /** Descends through nested objects by tokenising the text of each in turn. */
  function LookupText(text: string, path: seq<string>): Lookup
    decreases path
  {
    if path == [] then Found(NullToken)
    else
      var o := Scan(text, "");
      if FinishOf(text, "").Trips? || o.Spins? then Stuck
      else
        var t := JsonValue(o.tokens, Quoted(path[0]));
        if |path| == 1 then Found(t) else if t.ObjectToken? then LookupText(t.text, path[1..]) else Found(NullToken)
  }

  /** The same descent in the tree itself, where every level on the way needs members, and no negative number. */
  function LookupTree(members: Members, path: seq<string>): Lookup
    decreases path
  {
    if path == [] then Found(NullToken)
    else if !NonNegative(members) || members.End? then Stuck
    else if |path| == 1 then Found(FirstValue(members, path[0]))
    else
      var sub := FirstObject(members, path[0]);
      if sub.0 then LookupTree(sub.1, path[1..]) else Found(NullToken)
  }

  /** The members of the first value written under a key, if that value is an object. */
  function FirstObject(members: Members, key: string): (bool, Members) {
    if members.End? then (false, End)
    else if members.key == key then (members.value.Obj?, if members.value.Obj? then members.value.members else End)
    else FirstObject(members.rest, key)
  }

  lemma {:induction false} FirstObjectIsFirstValue(members: Members, key: string)
    requires CleanMembers(members)
    ensures FirstObject(members, key).0 <==> FirstValue(members, key).ObjectToken?
    ensures FirstObject(members, key).0 ==>
              FirstValue(members, key) == ObjectToken(Inside(FirstObject(members, key).1))
                  && CleanMembers(FirstObject(members, key).1)
  {
    if members.Member? && members.key != key { FirstObjectIsFirstValue(members.rest, key); }
  }

  /** Any path of keys finds in the written text what it finds in the tree. */
  lemma {:induction false} LookupsAgree(members: Members, path: seq<string>)
    requires CleanMembers(members)
    ensures LookupText(Inside(members), path) == LookupTree(members, path)
    decreases path
  {
    ScanInside(members, "");
    InsideFinishes(members, "");
    if path != [] && NonNegative(members) {
      JsonValueFindsFirst(members, path[0]);
      FirstObjectIsFirstValue(members, path[0]);
      if |path| > 1 && FirstObject(members, path[0]).0 { LookupsAgree(FirstObject(members, path[0]).1, path[1..]); }
    }
  }
}
