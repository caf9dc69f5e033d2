/** Splitting a symbol name into the prefixes under which it is indexed. */
module PdbTokens {
  import opened Basics

  predicate IsLower(c: char) { 'a' <= c <= 'z' }

  predicate IsUpper(c: char) { 'A' <= c <= 'Z' }

  function Underscores(body: string): (n: nat)
    ensures n <= |body| && At(body, n) != '_'
  {
    if body != "" && body[0] == '_' then 1 + Underscores(body[1..]) else 0
  }

  predicate LowerToUpper(body: string, n: nat) { IsLower(At(body, n)) && IsUpper(At(body, n + 1)) }

  /** Whether edges from lower to upper case end a token that starts at `n`. */
  predicate EndsAtEdges(body: string, n: nat) {
    IsLower(At(body, n)) || (IsUpper(At(body, n)) && IsLower(At(body, n + 1)))
  }

  predicate Stops(body: string, n: nat, edges: bool) {
    At(body, n) == ' ' || At(body, n) == '_' || (edges && LowerToUpper(body, n))
  }

  function StopFrom(body: string, n: nat, edges: bool): (k: nat)
    requires n <= |body|
    ensures n <= k <= |body| && (k < |body| ==> Stops(body, k, edges))
            && forall i :: n <= i < k ==> !Stops(body, i, edges)
    decreases |body| - n
  {
    if n == |body| || Stops(body, n, edges) then n else StopFrom(body, n + 1, edges)
  }

  /** Length of the first token of a non-empty body. */
  function TokenLength(body: string): (n: nat)
    requires body != ""
    ensures 0 < n <= |body|
  {
    var start := Underscores(body);
    var k := StopFrom(body, start, EndsAtEdges(body, start));
    var length := if k == |body| then 0 else if LowerToUpper(body, k) then k + 1 else k;
    if length == 0 then |body| else length
  }

  function Tokens(body: string): seq<string> {
    if body == "" then [] else [body[..TokenLength(body)]] + Tokens(body[TokenLength(body)..])
  }

  function Concat(tokens: seq<string>): string { if tokens == [] then "" else tokens[0] + Concat(tokens[1..]) }

  /** Tokenising loses nothing: the tokens, none of them empty, make up the body. */
  lemma {:induction false} TokensAreLossless(body: string)
    ensures Concat(Tokens(body)) == body
    ensures forall i :: 0 <= i < |Tokens(body)| ==> Tokens(body)[i] != ""
  {
    if body != "" {
      var n := TokenLength(body);
      TokensAreLossless(body[n..]);
      assert body == body[..n] + body[n..];
      assert Tokens(body)[1..] == Tokens(body[n..]);
    }
  }

  lemma {:induction false} SameTokensSameName(a: string, b: string)
    requires Tokens(a) == Tokens(b)
    ensures a == b
  {
    TokensAreLossless(a);
    TokensAreLossless(b);
  }

  /** The tokens of what is left after a token do not depend on what came before. */
  lemma {:induction false} TokensOfRest(body: string, i: nat)
    requires i <= |Tokens(body)|
    ensures Tokens(Concat(Tokens(body)[i..])) == Tokens(body)[i..]
  {
    TokensAreLossless(body);
    if i > 0 {
      var rest := body[TokenLength(body)..];
      TokensOfRest(rest, i - 1);
      assert Tokens(body)[i..] == Tokens(rest)[i - 1..];
    }
  }

  // ---- where names are cut ----

  lemma LettersAre(c: char)
    ensures IsLower(c) <==> c in SMALL
    ensures IsUpper(c) <==> c in CAPITALS
  {
    forall i: nat | i < 26 { LetterAt(i); }
    if IsLower(c) { assert SMALL[c as int - 'a' as int] == c; }
    if IsUpper(c) { assert CAPITALS[c as int - 'A' as int] == c; }
  }

  const SMALL := "abcdefghijklmnopqrstuvwxyz"
  const CAPITALS := "ABCDEFGHIJKLMNOPQRSTUVWXYZ"

  lemma LetterAt(i: nat)
    requires i < 26
    ensures SMALL[i] as int == 'a' as int + i && CAPITALS[i] as int == 'A' as int + i
  {
  }

  predicate Plain(s: string) { forall i :: 0 <= i < |s| ==> s[i] != ' ' && s[i] != '_' }

  /** A small letter right before a capital one. */
  predicate CaseEdge(s: string, i: int) { 0 <= i && i + 1 < |s| && IsLower(s[i]) && IsUpper(s[i + 1]) }

  /** The text opens with a small letter, or with a capital and a small one; case edges cut such tokens only. */
  predicate OpensWord(s: string) {
    s != "" && (IsLower(s[0]) || (|s| > 1 && IsUpper(s[0]) && IsLower(s[1])))
  }

  /**
   * What makes `u` underscores and `core` the first token of a text that goes on with `rest`. A text that begins with a
   * blank is a single token. Otherwise there is no blank, no underscore and no case edge inside the core, and one of
   * them right behind it.
   */
  predicate IsCut(u: nat, core: string, rest: string) {
    if u == 0 && core != "" && core[0] == ' ' then rest == ""
    else
      && Plain(core) && (core == "" && rest != "" ==> rest[0] == ' ')
      && (OpensWord(core + rest) ==> forall i :: 0 <= i < |core| - 1 ==> !CaseEdge(core, i))
      && (rest == "" || rest[0] == ' ' || rest[0] == '_'
          || (OpensWord(core + rest) && CaseEdge(core + rest, |core| - 1)))
  }

  function Line(u: nat): string { seq(u, i => '_') }

  lemma {:induction false} UnderscoresOf(u: nat, more: string)
    ensures Underscores(Line(u) + more) == u + Underscores(more)
  {
    if u == 0 {
      assert Line(0) + more == more;
    } else {
      assert (Line(u) + more)[1..] == Line(u - 1) + more;
      UnderscoresOf(u - 1, more);
    }
  }

  lemma StopFromIs(body: string, n: nat, edges: bool, k: nat)
    requires n <= k <= |body| && (k < |body| ==> Stops(body, k, edges))
    requires forall i :: n <= i < k ==> !Stops(body, i, edges)
    ensures StopFrom(body, n, edges) == k
  {
  }

  /** Behind `u` underscores a text stops where it would without them. */
  lemma StopsShift(u: nat, more: string, i: nat, edges: bool)
    requires i <= |more|
    ensures Stops(Line(u) + more, u + i, edges) == Stops(more, i, edges)
    ensures LowerToUpper(Line(u) + more, u + i) == CaseEdge(more, i)
    ensures EndsAtEdges(Line(u) + more, u) == OpensWord(more)
  {
    var body := Line(u) + more;
    assert |body| == u + |more|;
    assert At(body, u + i) == At(more, i) && At(body, u + i + 1) == At(more, i + 1);
    assert At(body, u) == At(more, 0) && At(body, u + 1) == At(more, 1);
  }

  lemma StopOf(u: nat, more: string, edges: bool)
    ensures StopFrom(Line(u) + more, u, edges) == u + StopFrom(more, 0, edges)
  {
    var body, k := Line(u) + more, StopFrom(more, 0, edges);
    hide Stops, Line;
    forall i | u <= i < u + k ensures !Stops(body, i, edges) {
      StopsShift(u, more, i - u, edges);
    }
    StopsShift(u, more, k, edges);
    StopFromIs(body, u, edges, u + k);
  }

  lemma LengthIs(body: string, start: nat, edges: bool, stop: nat, edge: bool)
    requires body != "" && start == Underscores(body) && edges == EndsAtEdges(body, start)
    requires stop == StopFrom(body, start, edges) && edge == LowerToUpper(body, stop)
    ensures TokenLength(body) ==
            if stop == |body| || (stop == 0 && !edge) then |body| else if edge then stop + 1 else stop
  {
    hide StopFrom, Stops, LowerToUpper, EndsAtEdges, Underscores;
  }

  lemma LengthOf(u: nat, more: string)
    requires u + |more| > 0 && (more != "" ==> more[0] != '_')
    ensures var k := StopFrom(more, 0, OpensWord(more));
            TokenLength(Line(u) + more) ==
              if k == |more| || (u + k == 0 && !CaseEdge(more, k)) then u + |more|
              else u + if CaseEdge(more, k) then k + 1 else k
  {
    assert |Line(u) + more| == u + |more| && Underscores(more) == 0;
    hide *;
    var k := StopFrom(more, 0, OpensWord(more));
    UnderscoresOf(u, more);
    StopsShift(u, more, k, true);
    StopOf(u, more, OpensWord(more));
    LengthIs(Line(u) + more, u, OpensWord(more), u + k, CaseEdge(more, k));
  }

  lemma CoreInMore(core: string, rest: string)
    ensures forall i :: 0 <= i < |core| ==> (core + rest)[i] == core[i]
    ensures rest != "" ==> (core + rest)[|core|] == rest[0]
    ensures forall i :: 0 <= i < |core| - 1 ==> CaseEdge(core, i) == CaseEdge(core + rest, i)
    ensures forall i :: 0 <= i < |core + rest| ==>
              At(core + rest, i) == (core + rest)[i] && LowerToUpper(core + rest, i) == CaseEdge(core + rest, i)
  {
  }

  lemma CutStops(u: nat, core: string, rest: string)
    requires core + rest != "" && !(u == 0 && (core + rest)[0] == ' ') && IsCut(u, core, rest)
    ensures var edge := OpensWord(core + rest) && CaseEdge(core + rest, |core| - 1);
            StopFrom(core + rest, 0, OpensWord(core + rest)) == if edge then |core| - 1 else |core|
  {
    var more := core + rest;
    CoreInMore(core, rest);
    hide OpensWord;
    var edge := OpensWord(more) && CaseEdge(more, |core| - 1);
    StopFromIs(more, 0, OpensWord(more), if edge then |core| - 1 else |core|);
  }

  /** Where a text stops, there is a cut, and none before. */
  lemma StopIsFirst(more: string)
    ensures var k := StopFrom(more, 0, OpensWord(more));
            && (forall i :: 0 <= i < k ==> more[i] != ' ' && more[i] != '_' && !(OpensWord(more) && CaseEdge(more, i)))
            && (k < |more| ==> more[k] == ' ' || more[k] == '_' || (OpensWord(more) && CaseEdge(more, k)))
  {
    var k := StopFrom(more, 0, OpensWord(more));
    hide OpensWord;
    forall i | 0 <= i < k ensures more[i] != ' ' && more[i] != '_' && !(OpensWord(more) && CaseEdge(more, i)) {
      assert !Stops(more, i, OpensWord(more)) && At(more, i) == more[i];
    }
    assert k < |more| ==> Stops(more, k, OpensWord(more)) && At(more, k) == more[k];
  }

  lemma LengthIsCut(u: nat, core: string, rest: string)
    requires u + |core| > 0 && (core + rest != "" ==> (core + rest)[0] != '_')
    requires TokenLength(Line(u) + (core + rest)) == u + |core|
    ensures IsCut(u, core, rest)
  {
    hide StopFrom, OpensWord, TokenLength, Line, CaseEdge;
    LengthOf(u, core + rest);
    CoreInMore(core, rest);
    StopIsFirst(core + rest);
  }

  lemma CutIsLength(u: nat, core: string, rest: string)
    requires u + |core| > 0 && (core + rest != "" ==> (core + rest)[0] != '_') && IsCut(u, core, rest)
    ensures TokenLength(Line(u) + (core + rest)) == u + |core|
  {
    hide StopFrom, OpensWord, TokenLength, Line;
    LengthOf(u, core + rest);
    StopIsFirst(core + rest);
    if core + rest != "" && !(u == 0 && (core + rest)[0] == ' ') { CutStops(u, core, rest); }
  }

  /** The first token of a text is what it has before its first cut. */
  lemma FirstTokenIff(u: nat, core: string, rest: string)
    requires u + |core| > 0 && (core != "" ==> core[0] != '_')
    ensures TokenLength(Line(u) + (core + rest)) == u + |core| <==> IsCut(u, core, rest)
  {
    if core + rest != "" && (core + rest)[0] == '_' {
      UnderscoresOf(u, core + rest);
    } else if IsCut(u, core, rest) {
      CutIsLength(u, core, rest);
    } else if TokenLength(Line(u) + (core + rest)) == u + |core| {
      LengthIsCut(u, core, rest);
    }
  }

  /** The same, for a token as a whole. */
  predicate IsToken(token: string, rest: string) {
    token != "" && IsCut(Underscores(token), token[Underscores(token)..], rest)
  }

  lemma {:induction false} LineOf(s: string)
    ensures Line(Underscores(s)) + s[Underscores(s)..] == s
  {
    if s != "" && s[0] == '_' {
      var rest := s[1..];
      LineOf(rest);
      assert s == ['_'] + rest && Line(1 + Underscores(rest)) == ['_'] + Line(Underscores(rest));
    }
  }

  lemma IsTokenIff(token: string, rest: string)
    requires token != ""
    ensures TokenLength(token + rest) == |token| <==> IsToken(token, rest)
  {
    var u := Underscores(token);
    LineOf(token);
    assert Line(u) + (token[u..] + rest) == token + rest;
    FirstTokenIff(u, token[u..], rest);
  }

  /** A sequence of texts is what the tokeniser makes of their concatenation exactly if each ends at its first cut. */
  lemma {:induction false} TokensIff(ts: seq<string>)
    ensures Tokens(Concat(ts)) == ts <==> forall i :: 0 <= i < |ts| ==> IsToken(ts[i], Concat(ts[i + 1..]))
  {
    hide IsCut, TokenLength, Underscores, Line;
    if ts != [] {
      var body, rest := Concat(ts), Concat(ts[1..]);
      TokensIff(ts[1..]);
      forall i | 0 < i < |ts| ensures ts[i..] == ts[1..][i - 1..] {
      }
      forall i | 1 <= i < |ts|
        ensures IsToken(ts[i], Concat(ts[i + 1..])) == IsToken(ts[1..][i - 1], Concat(ts[1..][i..])) {
        assert ts[i + 1..] == ts[1..][i..];
      }
      if ts[0] != "" {
        IsTokenIff(ts[0], rest);
        assert body[..|ts[0]|] == ts[0] && body[|ts[0]|..] == rest;
      } else {
        TokensAreLossless(body);
      }
    }
  }

  /**
   * Behind its leading underscores a token has no blank and no underscore, unless it is all of a rest that begins with
   * a blank.
   */
  lemma TokensArePlain(body: string, i: nat)
    requires i < |Tokens(body)|
    ensures var t := Tokens(body)[i];
            Plain(t[Underscores(t)..]) || (t[0] == ' ' && i == |Tokens(body)| - 1)
  {
    var ts := Tokens(body);
    TokensAreLossless(body);
    TokensIff(ts);
    assert IsToken(ts[i], Concat(ts[i + 1..]));
    if i + 1 < |ts| { assert ts[i + 1] != "" && Concat(ts[i + 1..]) != ""; }
  }

  predicate SmallWord(word: string) { word != "" && forall i :: 0 <= i < |word| ==> IsLower(word[i]) }

  predicate CapitalWord(word: string) { |word| > 1 && IsUpper(word[0]) && SmallWord(word[1..]) }

  /** Words, each behind a run of underscores. */
  function Underscored(lines: seq<nat>, words: seq<string>): seq<string>
    requires |lines| == |words|
  {
    seq(|words|, i requires 0 <= i < |words| => Line(lines[i]) + words[i])
  }

  /** Every word but the first is set off by underscores or by its capital. */
  predicate SetOff(lines: seq<nat>, words: seq<string>) {
    && |lines| == |words| && (forall i :: 0 <= i < |words| ==> SmallWord(words[i]) || CapitalWord(words[i]))
    && forall i :: 0 < i < |words| ==> lines[i] > 0 || CapitalWord(words[i])
  }

  lemma WordIsToken(u: nat, word: string, rest: string)
    requires SmallWord(word) || CapitalWord(word)
    requires rest == "" || rest[0] == '_' || IsUpper(rest[0])
    ensures IsToken(Line(u) + word, rest)
  {
    var token := Line(u) + word;
    UnderscoresOf(u, word);
    assert Underscores(word) == 0 && token[u..] == word;
    assert CapitalWord(word) ==> word[1] == word[1..][0];
    forall i | 0 < i < |word| ensures IsLower(word[i]) {
      assert CapitalWord(word) ==> word[i] == word[1..][i - 1];
    }
    assert OpensWord(word + rest);
  }

  /** Names made of words are cut into their words, each with the underscores before it. */
  lemma WordsAreTokens(lines: seq<nat>, words: seq<string>)
    requires SetOff(lines, words)
    ensures Tokens(Concat(Underscored(lines, words))) == Underscored(lines, words)
  {
    var ts := Underscored(lines, words);
    forall i | 0 <= i < |ts| ensures IsToken(ts[i], Concat(ts[i + 1..])) {
      if i + 1 < |ts| {
        var next := ts[i + 1..][0];
        assert next == Line(lines[i + 1]) + words[i + 1];
        assert next[0] == if lines[i + 1] > 0 then '_' else words[i + 1][0];
      }
      WordIsToken(lines[i], words[i], Concat(ts[i + 1..]));
    }
    TokensIff(ts);
  }

  lemma TokenThen(token: string, rest: string)
    requires IsToken(token, rest)
    ensures Tokens(token + rest) == [token] + Tokens(rest)
  {
    IsTokenIff(token, rest);
    assert (token + rest)[..|token|] == token && (token + rest)[|token|..] == rest;
  }

  /** A blank ends a word, and what begins with it is not cut any more. */
  lemma BlankIsLastCut(word: string, rest: string)
    requires SmallWord(word) || CapitalWord(word)
    ensures Tokens(word + (" " + rest)) == [word, " " + rest]
  {
    WordBeforeBlank(word, rest);
    BlankIsToken(rest);
    assert " " + rest + "" == " " + rest && Tokens("") == [];
    hide Tokens, IsToken;
    TokenThen(word, " " + rest);
    TokenThen(" " + rest, "");
  }

  lemma BlankIsToken(rest: string)
    ensures IsToken(" " + rest, "")
  {
    assert Underscores(" " + rest) == 0 && (" " + rest)[0..] == " " + rest;
  }

  lemma WordBeforeBlank(word: string, rest: string)
    requires SmallWord(word) || CapitalWord(word)
    ensures IsToken(word, " " + rest)
  {
    assert CapitalWord(word) ==> word[1] == word[1..][0];
    forall i | 0 < i < |word| ensures IsLower(word[i]) {
      assert CapitalWord(word) ==> word[i] == word[1..][i - 1];
    }
    assert OpensWord(word + (" " + rest)) && Underscores(word) == 0 && word[0..] == word;
  }

  lemma AcronymIsToken()
    ensures IsToken("AMixed", "")
  {
    assert Underscores("AMixed") == 0 && "AMixed"[0..] == "AMixed";
  }

  lemma SmallWords()
    ensures Line(1) + "this" == "_this" && Line(1) + "is" == "_is" && SmallWord("this") && SmallWord("is")
  {
  }

  lemma ThreeTokens(a: string, b: string, c: string)
    requires IsToken(a, b + c) && IsToken(b, c) && IsToken(c, "")
    ensures Tokens(a + (b + c)) == [a, b, c]
  {
    assert c + "" == c && Tokens("") == [];
    hide IsToken, Tokens;
    TokenThen(a, b + c);
    TokenThen(b, c);
    TokenThen(c, "");
  }

  lemma FirstTwo()
    ensures IsToken("_this", "_is" + "AMixed") && IsToken("_is", "AMixed")
  {
    assert IsUpper("AMixed"[0]) && ("_is" + "AMixed")[0] == '_';
    hide IsToken, IsUpper;
    SmallWords();
    WordIsToken(1, "this", "_is" + "AMixed");
    WordIsToken(1, "is", "AMixed");
  }

  /** A name of the comment above the code, `_this_isAMixed`: the code does not cut it before `Mixed` but before `A`. */
  lemma CommentIsNotTheCode()
    ensures Tokens("_this" + ("_is" + "AMixed")) == ["_this", "_is", "AMixed"]
  {
    hide *;
    FirstTwo();
    AcronymIsToken();
    ThreeTokens("_this", "_is", "AMixed");
  }

  method SkipUnderscores(body: string) returns (n: nat)
    ensures n == Underscores(body)
  {
    n := 0;
    while At(body, n) == '_'
      invariant n <= |body| && Underscores(body) == n + Underscores(body[n..])
      decreases |body| - n
    {
      assert body[n..][1..] == body[n + 1..];
      n := n + 1;
    }
  }

  /** Takes the first token off the body; an empty body gives an empty token. */
  method NextToken(body: string) returns (token: string, rest: string)
    ensures token + rest == body && (body != "" ==> token != "")
    ensures Tokens(body) == if body == "" then [] else [token] + Tokens(rest)
  {
    if |body| == 0 {
      return "", body;
    }
    var n := SkipUnderscores(body);
    var startsLower := IsLower(At(body, n));
    var startsUpperToLower := IsUpper(At(body, n)) && IsLower(At(body, n + 1));
    ghost var start, edges := n, EndsAtEdges(body, n);
    var length := 0;
    while n < |body|
      invariant start <= n <= |body| && length == 0 && StopFrom(body, start, edges) == StopFrom(body, n, edges)
    {
      var edge := IsLower(body[n]) && IsUpper(At(body, n + 1));
      if body[n] == ' ' || body[n] == '_' || (startsUpperToLower && edge) || (startsLower && edge) {
        length := if edge then n + 1 else n;
        break;
      }
      n := n + 1;
    }
    if length == 0 {
      token, rest := body, "";
    } else {
      token, rest := body[..length], body[length..];
    }
  }
}
