/** The tokens of if-feature expressions (section 7.20.2 of RFC 7950). */
module IfFeatureTokens {
  import opened Common

  datatype Token = Ident(text: string) | Not | And | Or | LParen | RParen

  predicate IsSpace(c: char) { c == ' ' || c == '\t' || c == '\r' || c == '\n' }

  predicate IsSeparator(c: char) { IsSpace(c) || c == '(' || c == ')' }

  predicate IsRefChar(c: char) {
    'a' <= c <= 'z' || 'A' <= c <= 'Z' || '0' <= c <= '9' || c == '_' || c == '-' || c == '.'
  }

  predicate IsIdentifierStart(c: char) { c == '_' || 'A' <= c <= 'Z' || 'a' <= c <= 'z' }

  function TrimLeft(s: string): (r: string)
    ensures |r| <= |s|
    ensures r == s[|s| - |r|..] && forall i :: 0 <= i < |s| - |r| ==> IsSpace(s[i])
    ensures r != "" ==> !IsSpace(r[0])
  {
    if s != "" && IsSpace(s[0]) then TrimLeft(s[1..]) else s
  }

  function TrimRight(s: string): (r: string)
    ensures |r| <= |s| && r == s[..|r|]
    ensures r != "" ==> !IsSpace(r[|r| - 1])
  {
    if s != "" && IsSpace(s[|s| - 1]) then TrimRight(s[..|s| - 1]) else s
  }

  function Trim(s: string): string { TrimRight(TrimLeft(s)) }

  /** The parts of s between colons. */
  function ColonParts(s: string): (parts: seq<string>)
    ensures |parts| > 0
    ensures forall p, c :: p in parts && c in p ==> c in s && c != ':'
    ensures forall c :: c in s && c != ':' ==> exists p :: p in parts && c in p
  {
    if s == "" then [""]
    else
      var rest := ColonParts(s[1..]);
      var parts := if s[0] == ':' then [""] + rest else [[s[0]] + rest[0]] + rest[1..];
      assert forall c :: c in s ==> c == s[0] || c in s[1..];
      assert s[0] != ':' ==> s[0] in parts[0];
      assert forall c :: c in rest[0] && s[0] != ':' ==> c in parts[0];
      assert forall p :: p in rest ==> p == rest[0] || p in rest[1..];
      assert forall p :: p in rest && p != rest[0] ==> p in parts;
      assert s[0] == ':' ==> forall p :: p in rest ==> p in parts;
      assert parts[0] in parts;
      parts
  }

  predicate ValidRefPart(part: string) { part != "" && forall c :: c in part ==> IsRefChar(c) }

  predicate ValidIfFeatureRef(ref: string) {
    |ColonParts(ref)| <= 2 && forall p :: p in ColonParts(ref) ==> ValidRefPart(p)
  }

  predicate StartsWithXml(s: string) {
    |s| >= 3 && (s[0] == 'x' || s[0] == 'X') && (s[1] == 'm' || s[1] == 'M') && (s[2] == 'l' || s[2] == 'L')
  }

  predicate ValidIdentifier(s: string) {
    s != "" && !StartsWithXml(s) && IsIdentifierStart(s[0]) && forall c :: c in s ==> IsRefChar(c)
  }

  predicate ValidIdentifierRef(s: string) {
    |ColonParts(s)| <= 2 && forall p :: p in ColonParts(s) ==> ValidIdentifier(p)
  }

  /** In YANG 1.0 an if-feature argument is one feature name, whatever word it is. */
  function SingleRef(expr: string): (r: Option<string>) {
    if ValidIdentifierRef(Trim(expr)) then Some(Trim(expr)) else None
  }

  function WordLength(s: string): (n: nat)
    ensures n <= |s| && (forall i :: 0 <= i < n ==> !IsSeparator(s[i])) && (n < |s| ==> IsSeparator(s[n]))
  {
    if s == "" || IsSeparator(s[0]) then 0 else 1 + WordLength(s[1..])
  }

  function WordToken(word: string): (r: Option<Token>) {
    if word == "not" then Some(Not)
    else if word == "and" then Some(And)
    else if word == "or" then Some(Or)
    else if ValidIfFeatureRef(word) then Some(Ident(word))
    else None
  }

  function Prepend(tokens: seq<Token>, rest: Option<seq<Token>>): Option<seq<Token>> {
    if rest.None? then None else Some(tokens + rest.value)
  }

  function Lex(s: string): Option<seq<Token>>
    decreases |s|
  {
    if s == "" then Some([])
    else if IsSpace(s[0]) then Lex(s[1..])
    else if s[0] == '(' then Prepend([LParen], Lex(s[1..]))
    else if s[0] == ')' then Prepend([RParen], Lex(s[1..]))
    else
      var n := WordLength(s);
      match WordToken(s[..n])
      case None => None
      case Some(token) => Prepend([token], Lex(s[n..]))
  }

  function Tokenize(expr: string): Option<seq<Token>> {
    var tokens := Lex(Trim(expr));
    if tokens == Some([]) then None else tokens
  }

  /** The index where the word starting at start ends. */
  method WordEnd(s: string, start: nat) returns (i: nat)
    requires start <= |s|
    ensures i == start + WordLength(s[start..]) && i <= |s|
  {
    i := start;
    while i < |s| && !IsSeparator(s[i])
      invariant start <= i <= |s|
      invariant WordLength(s[start..]) == i - start + WordLength(s[i..])
    {
      assert s[i..][0] == s[i] && s[i..][1..] == s[i + 1..];
      i := i + 1;
    }
  }

  lemma PrependNothing(rest: Option<seq<Token>>)
    ensures Prepend([], rest) == rest
  {
    if rest.Some? {
      assert [] + rest.value == rest.value;
    }
  }

  /** What the tokenizer does at one position: skip a space, take a parenthesis, or take a word. */
  lemma LexStep(s: string, i: nat)
    requires i < |s|
    ensures IsSpace(s[i]) ==> Lex(s[i..]) == Lex(s[i + 1..])
    ensures s[i] == '(' ==> Lex(s[i..]) == Prepend([LParen], Lex(s[i + 1..]))
    ensures s[i] == ')' ==> Lex(s[i..]) == Prepend([RParen], Lex(s[i + 1..]))
    ensures !IsSeparator(s[i]) ==>
              var end := i + WordLength(s[i..]);
              && i < end <= |s|
              && Lex(s[i..]) == match WordToken(s[i..end]) case None => None case Some(t) => Prepend([t], Lex(s[end..]))
  {
    hide WordToken;
    assert s[i..][0] == s[i] && s[i..][1..] == s[i + 1..];
    if !IsSeparator(s[i]) {
      var n := WordLength(s[i..]);
      assert s[i..][..n] == s[i..i + n] && s[i..][n..] == s[i + n..];
    }
  }

  /** The tokenizer's index loop computes Tokenize. */
  method TokenizeIfFeatureExpr(expr: string) returns (r: Option<seq<Token>>)
    ensures r == Tokenize(expr)
  {
    hide Lex, WordToken, Trim;
    var s := Trim(expr);
    LexEmpty();
    if s == "" {
      return None;
    }
    var tokens: seq<Token> := [];
    var i := 0;
    assert s[0..] == s;
    PrependNothing(Lex(s));
    while i < |s|
      invariant 0 <= i <= |s|
      invariant Lex(s) == Prepend(tokens, Lex(s[i..]))
    {
      LexStep(s, i);
      ghost var before, at := tokens, i;
      if IsSpace(s[i]) {
        i := i + 1;
      } else if s[i] == '(' {
        tokens := tokens + [LParen];
        i := i + 1;
        PrependTwice(before, [LParen], Lex(s[i..]));
      } else if s[i] == ')' {
        tokens := tokens + [RParen];
        i := i + 1;
        PrependTwice(before, [RParen], Lex(s[i..]));
      } else {
        var start := i;
        i := WordEnd(s, i);
        var token := WordToken(s[start..i]);
        if token.None? {
          return None;
        }
        tokens := tokens + [token.value];
        PrependTwice(before, [token.value], Lex(s[i..]));
      }
    }
    assert s[i..] == "" && tokens + [] == tokens;
    if |tokens| == 0 {
      return None;
    }
    return Some(tokens);
  }

  lemma LexEmpty()
    ensures Lex("") == Some([])
  {
  }

  lemma PrependTwice(a: seq<Token>, b: seq<Token>, rest: Option<seq<Token>>)
    ensures Prepend(a, Prepend(b, rest)) == Prepend(a + b, rest)
  {
    if rest.Some? {
      assert a + (b + rest.value) == a + b + rest.value;
    }
  }

  function TokenText(t: Token): string {
    match t
    case Ident(text) => text
    case Not => "not"
    case And => "and"
    case Or => "or"
    case LParen => "("
    case RParen => ")"
  }

  /** Tokens written out, one space after each. */
  function Render(tokens: seq<Token>): string {
    if tokens == [] then "" else TokenText(tokens[0]) + " " + Render(tokens[1..])
  }

  /** A token that names a feature must be writable as one word that is not a keyword. */
  predicate Writable(t: Token) {
    t.Ident? ==> ValidIfFeatureRef(t.text) && t.text != "not" && t.text != "and" && t.text != "or"
  }

  lemma RefHasNoSeparator(ref: string)
    requires ValidIfFeatureRef(ref)
    ensures ref != "" && forall c :: c in ref ==> !IsSeparator(c)
  {
    assert ColonParts("")[0] in ColonParts("");
    forall c | c in ref && c != ':'
      ensures !IsSeparator(c)
    {
      var p :| p in ColonParts(ref) && c in p;
    }
  }

  lemma {:induction false} WordLengthOf(word: string, rest: string)
    requires forall c :: c in word ==> !IsSeparator(c)
    requires rest == "" || IsSeparator(rest[0])
    ensures WordLength(word + rest) == |word|
  {
    if word == "" {
      assert word + rest == rest;
    } else {
      assert (word + rest)[1..] == word[1..] + rest;
      WordLengthOf(word[1..], rest);
    }
  }

  lemma WordLexes(t: Token, rest: string)
    requires Writable(t) && (rest == "" || IsSeparator(rest[0])) && !t.LParen? && !t.RParen?
    ensures Lex(TokenText(t) + rest) == Prepend([t], Lex(rest))
  {
    var word := TokenText(t);
    if t.Ident? {
      RefHasNoSeparator(word);
    }
    WordLengthOf(word, rest);
    assert (word + rest)[..|word|] == word && (word + rest)[|word|..] == rest;
    assert (word + rest)[0] == word[0] && word[0] in word;
  }

  /** Reading back written tokens gives the same tokens. */
  lemma {:induction false} LexRender(tokens: seq<Token>)
    requires forall t :: t in tokens ==> Writable(t)
    ensures Lex(Render(tokens)) == Some(tokens)
  {
    if tokens != [] {
      var t, rest := tokens[0], " " + Render(tokens[1..]);
      LexRender(tokens[1..]);
      assert Render(tokens) == TokenText(t) + rest;
      assert rest[1..] == Render(tokens[1..]) && rest[0] == ' ';
      assert tokens == [t] + tokens[1..];
      if t.LParen? || t.RParen? {
        assert (TokenText(t) + rest)[1..] == rest;
      } else {
        WordLexes(t, rest);
      }
    }
  }

  lemma {:induction false} LexIgnoresTrailingSpace(s: string)
    ensures Lex(TrimRight(s)) == Lex(s)
    decreases |s|
  {
    if s != "" && IsSpace(s[|s| - 1]) {
      LexIgnoresTrailingSpace(s[..|s| - 1]);
      LexDropsOneSpace(s[..|s| - 1], s[|s| - 1]);
      assert s == s[..|s| - 1] + [s[|s| - 1]];
    }
  }

  lemma {:induction false} LexDropsOneSpace(s: string, space: char)
    requires IsSpace(space)
    ensures Lex(s + [space]) == Lex(s)
    decreases |s|
  {
    var t := s + [space];
    if s == "" {
      assert t[1..] == "";
    } else if IsSeparator(s[0]) {
      assert t[1..] == s[1..] + [space];
      LexDropsOneSpace(s[1..], space);
    } else {
      var n := WordLength(s);
      assert s == s[..n] + s[n..] && t == s[..n] + (s[n..] + [space]);
      WordLengthOf(s[..n], s[n..] + [space]);
      assert t[..n] == s[..n] && t[n..] == s[n..] + [space];
      LexDropsOneSpace(s[n..], space);
    }
  }

  lemma {:induction false} LexIgnoresLeadingSpace(s: string)
    ensures Lex(TrimLeft(s)) == Lex(s)
    decreases |s|
  {
    if s != "" && IsSpace(s[0]) {
      LexIgnoresLeadingSpace(s[1..]);
    }
  }

  /** A non-empty list of written tokens is tokenized back to itself. */
  lemma TokenizeRender(tokens: seq<Token>)
    requires tokens != [] && forall t :: t in tokens ==> Writable(t)
    ensures Tokenize(Render(tokens)) == Some(tokens)
  {
    LexRender(tokens);
    LexIgnoresLeadingSpace(Render(tokens));
    LexIgnoresTrailingSpace(TrimLeft(Render(tokens)));
  }

  /** An argument that YANG 1.0 takes as one name is one token to the expression parser, maybe a keyword. */
  lemma SingleRefIsOneToken(expr: string)
    requires SingleRef(expr).Some?
    ensures var ref := SingleRef(expr).value;
            && WordToken(ref).Some? && Tokenize(expr) == Some([WordToken(ref).value])
            && (WordToken(ref) == Some(Ident(ref)) || WordToken(ref).value in {Not, And, Or})
  {
    var ref := SingleRef(expr).value;
    forall p | p in ColonParts(ref)
      ensures ValidRefPart(p)
    {
      assert ValidIdentifier(p);
    }
    assert ValidIfFeatureRef(ref);
    RefHasNoSeparator(ref);
    WordLengthOf(ref, "");
    assert ref + "" == ref && ref[..|ref|] == ref && ref[|ref|..] == "";
    assert ref[0] in ref;
    var token := WordToken(ref).value;
    assert Lex("") == Some([]) && [token] + [] == [token];
    assert Lex(ref) == Prepend([token], Lex(""));
  }
}
