/** The JSON stream writer, the tokeniser and the key lookup. */
module Json {
  import opened Decimal
  import opened JsonModel

  lemma AppendRegroups(a: string, b: string, c: string, d: string, e: string, f: string)
    ensures a + b + c + d + e + f == a + (b + c + d + e + f)
  {
  }

  class Writer {
    var stream: string
    var keysAdded: nat
    var objHasKey: bool

    constructor ()
      ensures stream == "" && keysAdded == 0 && !objHasKey
    {
      stream, keysAdded, objHasKey := "", 0, false;
    }

    method ObjectStart()
      modifies this
      ensures stream == old(stream) + "{ " && !objHasKey && keysAdded == old(keysAdded)
    {
      stream := stream + "{ ";
      objHasKey := false;
    }

    method ObjectEnd()
      modifies this
      ensures stream == old(stream) + " }" && objHasKey == old(objHasKey) && keysAdded == old(keysAdded)
    {
      stream := stream + " }";
    }

    method Key(name: string)
      modifies this
      ensures stream == old(stream) + Separator(old(objHasKey)) + Quoted(name) + " : " && objHasKey
              && keysAdded == old(keysAdded) + 1
    {
      if objHasKey {
        stream := stream + ", ";
      }
      objHasKey := true;
      keysAdded := keysAdded + 1;
      stream := stream + Quoted(name);
      stream := stream + " : ";
    }

    method WriteNumber(n: int)
      modifies this
      ensures stream == old(stream) + Number(n) && objHasKey == old(objHasKey) && keysAdded == old(keysAdded)
    {
      stream := stream + Number(n);
    }

    method WriteString(s: string)
      modifies this
      ensures stream == old(stream) + Quoted(s) && objHasKey == old(objHasKey) && keysAdded == old(keysAdded)
    {
      stream := stream + Quoted(s);
    }

    /** The calls that write a whole value. */
    method Write(v: Value)
      modifies this
      ensures stream == old(stream) + Print(v, old(objHasKey)).0 && objHasKey == Print(v, old(objHasKey)).1
      decreases v
    {
      match v
      case Num(n) => WriteNumber(n);
      case Str(s) => WriteString(s);
      case Obj(members) =>
        ObjectStart();
        WriteMembers(members);
        ObjectEnd();
    }

    method WriteMembers(members: Members)
      modifies this
      ensures stream == old(stream) + PrintMembers(members, old(objHasKey)).0
              && objHasKey == PrintMembers(members, old(objHasKey)).1
      decreases members
    {
      match members
      case End =>
      case Member(key, value, rest) =>
        ghost var before, flag := stream, objHasKey;
        Key(key);
        Write(value);
        WriteMembers(rest);
        AppendRegroups(before, Separator(flag), Quoted(key), " : ", Print(value, true).0,
            PrintMembers(rest, Print(value, true).1).0);
    }
  }

  // ---------------------------------------------------------------- the tokeniser

  method SkipSpaces(buffer: string, from: nat, end: nat) returns (rp: nat)
    requires from <= end <= |buffer|
    ensures rp == from + Spaces(buffer[from..end]) <= end
  {
    rp := from;
    while rp != end && IsSpace(buffer[rp])
      invariant from <= rp <= end && rp + Spaces(buffer[rp..end]) == from + Spaces(buffer[from..end])
    {
      assert buffer[rp..end][1..] == buffer[rp + 1..end];
      rp := rp + 1;
    }
  }

  method SkipDigits(buffer: string, from: nat, end: nat) returns (rp: nat)
    requires from <= end <= |buffer|
    ensures rp == from + Digits(buffer[from..end]) <= end
  {
    rp := from;
    while rp != end && IsDigit(buffer[rp])
      invariant from <= rp <= end && rp + Digits(buffer[rp..end]) == from + Digits(buffer[from..end])
    {
      assert buffer[rp..end][1..] == buffer[rp + 1..end];
      rp := rp + 1;
    }
  }

  method SeekQuote(buffer: string, from: nat, end: nat) returns (rp: nat)
    requires from <= end <= |buffer|
    ensures rp == from + QuoteAt(buffer[from..end]) <= end
  {
    rp := from;
    while rp != end && buffer[rp] != '\"'
      invariant from <= rp <= end && rp + QuoteAt(buffer[rp..end]) == from + QuoteAt(buffer[from..end])
    {
      assert buffer[rp..end][1..] == buffer[rp + 1..end];
      rp := rp + 1;
    }
  }

  lemma ClosingStep(s: string, level: int)
    requires s != ""
    ensures ClosingAt(s, level) ==
            if s[0] == '}' && level == 1 then 0
            else 1 + ClosingAt(s[1..], if s[0] == '{' then level + 1 else if s[0] == '}' then level - 1 else level)
  {
  }

  method SeekClosing(buffer: string, from: nat, end: nat) returns (rp: nat)
    requires from <= end <= |buffer|
    ensures rp == from + ClosingAt(buffer[from..end], 0) <= end
  {
    hide ClosingAt;
    rp := from;
    var level := 0;
    while rp != end
      invariant from <= rp <= end && rp + ClosingAt(buffer[rp..end], level) == from + ClosingAt(buffer[from..end], 0)
    {
      assert buffer[rp..end][1..] == buffer[rp + 1..end];
      ClosingStep(buffer[rp..end], level);
      if buffer[rp] == '{' {
        level := level + 1;
      }
      if buffer[rp] == '}' {
        level := level - 1;
        if level == 0 {
          return;
        }
      }
      rp := rp + 1;
    }
  }

  datatype ParseState = SkipWhitespace | IdentifyNext | ParseString | ParseObject | ParseNumber

  ghost function Rank(state: ParseState): nat {
    if state.SkipWhitespace? then 2 else if state.IdentifyNext? then 1 else 0
  }

  /** What the tokens of the rest of the buffer are, seen from a state of the tokeniser. */
  ghost function Remaining(buffer: string, end: nat, state: ParseState, start: nat, rp: nat): Outcome
    requires start <= end && rp <= end <= |buffer|
  {
    if state.SkipWhitespace? then Scan(buffer[rp..end], buffer[end..])
    else ScanAt(buffer[if state.IdentifyNext? then rp else start..end], buffer[end..])
  }

  ghost predicate StateIsRight(buffer: string, end: nat, state: ParseState, start: nat, rp: nat)
    requires start <= end && rp <= end <= |buffer|
  {
    match state
    case SkipWhitespace => true
    case IdentifyNext => rp < end
    case ParseString => start < end && buffer[start] == '\"' && rp == start + 1
    case ParseObject => start < end && buffer[start] == '{' && rp == start
    case ParseNumber => start < end && IsDigit(buffer[start]) && rp == start
  }

  /** Tokenises the slice `from..end` of a string. */
  method Tokenise(buffer: string, from: nat, end: nat) returns (tokens: seq<Token>, finish: Finish)
    requires from <= end <= |buffer|
    ensures finish == FinishOf(buffer[from..end], buffer[end..])
    ensures !finish.Never? ==> Scan(buffer[from..end], buffer[end..]) == Tokens(tokens)
  {
    if from == end {
      return [], Nothing;
    }
    var spins;
    tokens, spins := RunStates(buffer, from, end);
    finish := if spins then Never else if tokens == [] then Trips else First(tokens[0]);
  }

  /** What the first character of a text decides. */
  lemma ScanAtCases(s: string, tail: string)
    ensures s == "" ==> Scan(s, tail) == ScanAt(s, tail) == Tokens([])
    ensures s != "" && s[0] == ':' ==> ScanAt(s, tail) == Prepend([KeyValueSeparator], Scan(s[1..], tail))
    ensures s != "" && s[0] == ',' ==> ScanAt(s, tail) == Scan(s[1..], tail)
    ensures s != "" && s[0] !in {':', ',', '\"', '{'} && !IsDigit(s[0]) ==> ScanAt(s, tail).Spins?
    ensures s == "\"" ==> ScanAt(s, tail) == Tokens([])
  {
  }

  /** The state machine of the tokeniser; `spins` when it would never leave a state. */
  method RunStates(buffer: string, from: nat, end: nat) returns (tokens: seq<Token>, spins: bool)
    requires from <= end <= |buffer|
    ensures spins <==> Scan(buffer[from..end], buffer[end..]).Spins?
    ensures !spins ==> Scan(buffer[from..end], buffer[end..]) == Tokens(tokens)
  {
    hide Scan, ScanAt, Spaces;
    tokens, spins := [], false;
    var rp: nat, start: nat, state := from, from, SkipWhitespace;
    ghost var goal := Scan(buffer[from..end], buffer[end..]);
    while rp != end
      invariant start <= end && rp <= end && !spins && StateIsRight(buffer, end, state, start, rp)
      invariant Prepend(tokens, Remaining(buffer, end, state, start, rp)) == goal
      decreases end - rp, Rank(state)
    {
      match state
      case SkipWhitespace =>
        ghost var before := rp;
        rp := SkipSpaces(buffer, rp, end);
        SpacesSkipped(buffer, before, rp, end);
        if rp != end {
          state := IdentifyNext;
        } else {
          ScanAtCases(buffer[rp..end], buffer[end..]);
        }
      case IdentifyNext =>
        assert buffer[rp..end][1..] == buffer[rp + 1..end];
        ScanAtCases(buffer[rp..end], buffer[end..]);
        if buffer[rp] == ':' {
          PrependTwice(tokens, [KeyValueSeparator], Scan(buffer[rp + 1..end], buffer[end..]));
          tokens := tokens + [KeyValueSeparator];
          state := SkipWhitespace;
          rp := rp + 1;
        } else if buffer[rp] == '\"' {
          state := ParseString;
          start, rp := rp, rp + 1;
        } else if buffer[rp] == '{' {
          state := ParseObject;
          start := rp;
        } else if buffer[rp] == ',' {
          state := SkipWhitespace;
          rp := rp + 1;
        } else if IsDigit(buffer[rp]) {
          state := ParseNumber;
          start := rp;
        } else {
          // no case of the switch moves on: the same state at the same character, for ever
          spins := true;
          return;
        }
      case _ =>
        var token;
        token, rp := ParseToken(buffer, end, state, start, rp);
        if token.NullToken? {
          assert tokens + [] == tokens;
          return;
        }
        PrependTwice(tokens, [token], Scan(buffer[rp..end], buffer[end..]));
        tokens := tokens + [token];
        state := SkipWhitespace;
    }
    assert tokens + [] == tokens;
    if state.ParseString? {
      assert buffer[start..end] == "\"";
      ScanAtCases(buffer[start..end], buffer[end..]);
    } else {
      ScanAtCases(buffer[rp..end], buffer[end..]);
    }
  }

  lemma SpacesSkipped(buffer: string, from: nat, rp: nat, end: nat)
    requires from <= rp <= end <= |buffer| && rp == from + Spaces(buffer[from..end])
    ensures Scan(buffer[from..end], buffer[end..]) == ScanAt(buffer[rp..end], buffer[end..])
  {
    assert buffer[from..end][rp - from..] == buffer[rp..end];
  }

  /** Reads a string, an object or a number; NullToken when the text ends first. */
  method ParseToken(buffer: string, end: nat, state: ParseState, start: nat, from: nat) returns (token: Token, rp: nat)
    requires start <= end && from <= end <= |buffer| && StateIsRight(buffer, end, state, start, from)
    requires state.ParseString? || state.ParseObject? || state.ParseNumber?
    ensures rp <= end && if token.NullToken? then rp == end else rp > from
    ensures ScanAt(buffer[start..end], buffer[end..]) ==
            if token.NullToken? then Tokens([]) else Prepend([token], Scan(buffer[rp..end], buffer[end..]))
  {
    if state.ParseString? {
      token, rp := ReadString(buffer, end, start, from);
    } else if state.ParseNumber? {
      token, rp := ReadNumber(buffer, end, start);
    } else {
      token, rp := ReadObject(buffer, end, start);
    }
  }

  lemma SliceParts(buffer: string, start: nat, rp: nat, end: nat)
    requires start <= rp <= end <= |buffer|
    ensures buffer[start..end][..rp - start] == buffer[start..rp] && buffer[start..end][rp - start..] == buffer[rp..end]
    ensures start < rp ==> buffer[start..end][1..rp - start] == buffer[start + 1..rp]
    ensures start < end ==> buffer[start..end][1..] == buffer[start + 1..end]
    ensures start < end ==> buffer[start..end][1..] + buffer[end..] == buffer[start + 1..]
  {
  }

  method ReadString(buffer: string, end: nat, start: nat, from: nat) returns (token: Token, rp: nat)
    requires start < end <= |buffer| && buffer[start] == '\"' && from == start + 1
    ensures rp <= end && if token.NullToken? then rp == end else rp > from
    ensures ScanAt(buffer[start..end], buffer[end..]) ==
            if token.NullToken? then Tokens([]) else Prepend([token], Scan(buffer[rp..end], buffer[end..]))
  {
    rp := SeekQuote(buffer, from, end);
    ghost var slice, tail := buffer[start..end], buffer[end..];
    SliceParts(buffer, start, start, end);
    ScanOfString(slice, tail);
    if rp == end {
      return NullToken, end;
    }
    rp := rp + 1;
    SliceParts(buffer, start, rp, end);
    token := StringToken(buffer[start..rp]);
  }

  lemma ScanOfString(s: string, tail: string)
    requires s != "" && s[0] == '\"'
    ensures var n := 1 + QuoteAt(s[1..]);
            ScanAt(s, tail) == if n == |s| then Tokens([])
                else Prepend([StringToken(s[..n + 1])], Scan(s[n + 1..], tail))
  {
  }

  lemma UnclosedObject(s: string, tail: string)
    requires s != "" && s[0] == '{' && ClosingAt(s, 0) == |s|
    ensures ScanAt(s, tail) == Tokens([])
  {
  }

  lemma ScanOfObject(s: string, tail: string, n: nat, inner: string, whole: string, rest: string)
    requires s != "" && s[0] == '{' && n == ClosingAt(s, 0) && n < |s|
    requires inner == s[1..n] && whole == s[1..] + tail && rest == s[n + 1..]
    ensures ScanAt(s, tail) == Prepend([ObjectToken(if n == 1 then whole else inner)], Scan(rest, tail))
  {
  }

  method ReadNumber(buffer: string, end: nat, start: nat) returns (token: Token, rp: nat)
    requires start < end <= |buffer| && IsDigit(buffer[start])
    ensures rp <= end && if token.NullToken? then rp == end else rp > start
    ensures ScanAt(buffer[start..end], buffer[end..]) ==
            if token.NullToken? then Tokens([]) else Prepend([token], Scan(buffer[rp..end], buffer[end..]))
  {
    rp := SkipDigits(buffer, start, end);
    if rp == end {
      return NullToken, end;
    }
    SliceParts(buffer, start, rp, end);
    token := NumberToken(buffer[start..rp]);
  }

  method ReadObject(buffer: string, end: nat, start: nat) returns (token: Token, rp: nat)
    requires start < end <= |buffer| && buffer[start] == '{'
    ensures rp <= end && if token.NullToken? then rp == end else rp > start
    ensures ScanAt(buffer[start..end], buffer[end..]) ==
            if token.NullToken? then Tokens([]) else Prepend([token], Scan(buffer[rp..end], buffer[end..]))
  {
    hide Scan, ScanAt, ClosingAt, Prepend;
    rp := SeekClosing(buffer, start, end);
    ObjectAt(buffer, end, start, rp);
    if rp == end {
      return NullToken, end;
    }
    var length := rp - start - 1;
    // a slice created with length zero runs to the end of the string
    token := ObjectToken(if length != 0 then buffer[start + 1..start + 1 + length] else buffer[start + 1..]);
    rp := rp + 1;
  }

  lemma ObjectAt(buffer: string, end: nat, start: nat, rp: nat)
    requires start < end <= |buffer| && buffer[start] == '{' && rp == start + ClosingAt(buffer[start..end], 0)
    ensures start < rp <= end
    ensures ScanAt(buffer[start..end], buffer[end..]) ==
            if rp == end then Tokens([])
            else Prepend([ObjectToken(if rp == start + 1 then buffer[start + 1..] else buffer[start + 1..rp])],
                         Scan(buffer[rp + 1..end], buffer[end..]))
  {
    if rp == end {
      UnclosedObject(buffer[start..end], buffer[end..]);
    } else {
      hide Scan, ScanAt, Prepend;
      SliceParts(buffer, start, rp, end);
      SliceParts(buffer, start, rp + 1, end);
      ScanOfObject(buffer[start..end], buffer[end..], rp - start, buffer[start + 1..rp], buffer[start + 1..],
          buffer[rp + 1..end]);
    }
  }

  // ---------------------------------------------------------------- looking a key up

  method FindValue(tokens: seq<Token>, key: string) returns (value: Token)
    ensures value == JsonValue(tokens, key)
  {
    var isKey, found := true, false;
    for i := 0 to |tokens|
      invariant ValueFrom(tokens[i..], key, isKey, found) == JsonValue(tokens, key)
    {
      assert tokens[i..][1..] == tokens[i + 1..];
      match tokens[i]
      case NumberToken(_) =>
        if found { return tokens[i]; }
        isKey := true;
      case ObjectToken(_) =>
        if found { return tokens[i]; }
        isKey := true;
      case StringToken(text) =>
        if isKey {
          if text != "" && key != "" && text == key { found := true; }
        } else if found {
          return tokens[i];
        }
        isKey := !isKey;
      case KeyValueSeparator => isKey := false;
      case NullToken =>
    }
    value := NullToken;
  }
}
