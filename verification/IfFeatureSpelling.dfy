/** Which texts the tokenizer of if-feature expressions accepts, and the tokens it finds in them. */
module IfFeatureSpelling {
  import opened Common
  import opened IfFeatureTokens

  /** Blanks, tabs, carriage returns and line feeds only. */
  ghost predicate Blank(gap: string) {
    forall c :: c in gap ==> c in {' ', '\t', '\r', '\n'}
  }

  /** A word ends before one of these, or where the text ends. */
  ghost predicate EndsWord(rest: string) {
    rest == "" || rest[0] in {' ', '\t', '\r', '\n', '(', ')'}
  }

  ghost predicate IsParen(t: Token) { t.LParen? || t.RParen? }

  /** s is ts written out, with white space anywhere between the tokens, and necessarily between two words. */
  ghost predicate Spells(s: string, ts: seq<Token>)
    decreases |ts|, 0
  {
    if ts == [] then Blank(s) else exists n: nat :: SpellsAt(s, ts, n)
  }

  /** Likewise, the first token starting at position n. */
  ghost predicate SpellsAt(s: string, ts: seq<Token>, n: nat)
    requires ts != []
    decreases |ts| - 1, 1
  {
    var end := n + |TokenText(ts[0])|;
    && end <= |s| && Blank(s[..n]) && s[n..end] == TokenText(ts[0]) && Writable(ts[0])
    && (IsParen(ts[0]) || EndsWord(s[end..]))
    && Spells(s[end..], ts[1..])
  }

  lemma {:induction false} BlankLexes(gap: string, s: string)
    requires Blank(gap)
    ensures Lex(gap + s) == Lex(s)
  {
    if gap == "" {
      assert gap + s == s;
    } else {
      assert gap[0] in gap && (gap + s)[1..] == gap[1..] + s;
      assert forall c :: c in gap[1..] ==> c in gap;
      BlankLexes(gap[1..], s);
    }
  }

  lemma {:induction false} SpeltLexes(s: string, ts: seq<Token>)
    requires Spells(s, ts)
    ensures Lex(s) == Some(ts)
    decreases |ts|
  {
    hide ValidIfFeatureRef, WordLength, Lex;
    if ts == [] {
      BlankLexes(s, "");
      LexEmpty();
      assert s + "" == s;
    } else {
      var n: nat :| SpellsAt(s, ts, n);
      hide Spells, SpellsAt, Writable, EndsWord, Blank, TokenText;
      SpeltParts(s, ts, n);
      var t := ts[0];
      var text := TokenText(t);
      var rest := s[n + |text|..];
      BlankLexes(s[..n], text + rest);
      SpeltLexes(rest, ts[1..]);
      assert ts == [t] + ts[1..];
      TokenLexes(t, rest);
    }
  }

  lemma SpeltParts(s: string, ts: seq<Token>, n: nat)
    requires ts != [] && SpellsAt(s, ts, n)
    ensures var text := TokenText(ts[0]);
            && n + |text| <= |s| && Blank(s[..n]) && s == s[..n] + (text + s[n + |text|..]) && Writable(ts[0])
            && (IsParen(ts[0]) || EndsWord(s[n + |text|..])) && Spells(s[n + |text|..], ts[1..])
  {
    hide Spells, Writable, EndsWord, Blank, TokenText;
  }

  lemma TokenLexes(t: Token, rest: string)
    requires Writable(t) && (IsParen(t) || EndsWord(rest))
    ensures Lex(TokenText(t) + rest) == Prepend([t], Lex(rest))
  {
    hide ValidIfFeatureRef, WordLength;
    if IsParen(t) {
      assert (TokenText(t) + rest)[1..] == rest;
    } else {
      WordLexes(t, rest);
    }
  }

  lemma OneMoreBlank(s: string, ts: seq<Token>)
    requires s != "" && IsSpace(s[0]) && Spells(s[1..], ts)
    ensures Spells(s, ts)
  {
    if ts == [] {
      assert s == [s[0]] + s[1..];
    } else {
      var n: nat :| SpellsAt(s[1..], ts, n);
      hide Spells;
      StartsLater(s, ts, n);
      SpelledFrom(s, ts, n + 1);
    }
  }

  lemma StartsLater(s: string, ts: seq<Token>, n: nat)
    requires s != "" && IsSpace(s[0]) && ts != [] && SpellsAt(s[1..], ts, n)
    ensures SpellsAt(s, ts, n + 1)
  {
    hide Spells, Writable, EndsWord, TokenText;
    var size := |TokenText(ts[0])|;
    assert s[..n + 1] == [s[0]] + s[1..][..n];
    assert s[n + 1..n + 1 + size] == s[1..][n..n + size];
    assert s[n + 1 + size..] == s[1..][n + size..];
  }

  lemma FirstToken(s: string, t: Token, rest: seq<Token>)
    requires |TokenText(t)| <= |s| && s[..|TokenText(t)|] == TokenText(t) && Writable(t)
    requires IsParen(t) || EndsWord(s[|TokenText(t)|..])
    requires Spells(s[|TokenText(t)|..], rest)
    ensures Spells(s, [t] + rest)
  {
    hide Spells;
    var ts := [t] + rest;
    assert ts[1..] == rest && s[..0] == "";
    assert SpellsAt(s, ts, 0);
    SpelledFrom(s, ts, 0);
  }

  lemma SpelledFrom(s: string, ts: seq<Token>, n: nat)
    requires ts != [] && SpellsAt(s, ts, n)
    ensures Spells(s, ts)
  {
  }

  lemma {:induction false} LexedSpells(s: string, ts: seq<Token>)
    requires Lex(s) == Some(ts)
    ensures Spells(s, ts)
    decreases |s|
  {
    hide Spells, ValidIfFeatureRef;
    if s == "" {
      NothingSpelt();
    } else if IsSpace(s[0]) {
      LexedSpells(s[1..], ts);
      OneMoreBlank(s, ts);
    } else if s[0] == '(' || s[0] == ')' {
      var t := if s[0] == '(' then LParen else RParen;
      assert ts == [t] + ts[1..];
      LexedSpells(s[1..], ts[1..]);
      FirstToken(s, t, ts[1..]);
    } else {
      var n := WordLength(s);
      var t := WordToken(s[..n]).value;
      assert ts == [t] + ts[1..];
      LexedSpells(s[n..], ts[1..]);
      FirstToken(s, t, ts[1..]);
    }
  }

  lemma NothingSpelt()
    ensures Spells("", [])
  {
  }

  /** The tokenizer finds ts exactly in the texts that spell ts, and there must be a token. */
  lemma TokenizesExactly(s: string, ts: seq<Token>)
    ensures Tokenize(s) == Some(ts) <==> ts != [] && Spells(s, ts)
  {
    hide Lex, Spells;
    LexIgnoresLeadingSpace(s);
    LexIgnoresTrailingSpace(TrimLeft(s));
    if Lex(s) == Some(ts) {
      LexedSpells(s, ts);
    }
    if Spells(s, ts) {
      SpeltLexes(s, ts);
    }
  }

  // ---- Words

  ghost predicate Letter(c: char) { 'a' <= c <= 'z' || 'A' <= c <= 'Z' }

  ghost predicate NameChar(c: char) { Letter(c) || '0' <= c <= '9' || c in {'_', '-', '.'} }

  ghost predicate Part(p: string) { p != "" && forall c :: c in p ==> NameChar(c) }

  /** An identifier does not start with a digit, a dash or a dot, nor with the letters xml. */
  ghost predicate Identifier(p: string) {
    && Part(p) && (Letter(p[0]) || p[0] == '_')
    && !(|p| >= 3 && p[..3] in {"xml", "xmL", "xMl", "xML", "Xml", "XmL", "XMl", "XML"})
  }

  /** Two parts with a colon between them. */
  ghost predicate Split(w: string, a: string, b: string) { w == a + ":" + b && ':' !in a && ':' !in b }

  lemma {:induction false} PartsAtColon(a: string, rest: string)
    requires ':' !in a
    ensures ColonParts(a) == [a] && ColonParts(a + ":" + rest) == [a] + ColonParts(rest)
  {
    if a == "" {
      assert a + ":" + rest == ":" + rest && (":" + rest)[1..] == rest;
      assert ColonParts(":" + rest) == [""] + ColonParts(rest);
    } else {
      assert (a + ":" + rest)[1..] == a[1..] + ":" + rest;
      PartsAtColon(a[1..], rest);
      assert [a[0]] + a[1..] == a;
      assert ([a[1..]] + ColonParts(rest))[0] == a[1..] && ([a[1..]] + ColonParts(rest))[1..] == ColonParts(rest);
      assert [a[1..]][1..] == [];
    }
  }

  lemma {:induction false} ColonPartsJoin(w: string)
    ensures |ColonParts(w)| == 1 ==> ColonParts(w) == [w] && ':' !in w
    ensures |ColonParts(w)| == 2 ==> Split(w, ColonParts(w)[0], ColonParts(w)[1])
    ensures |ColonParts(w)| > 2 ==> ':' in w && forall a, b :: !Split(w, a, b)
  {
    if ':' in w {
      var k :| 0 <= k < |w| && w[k] == ':' && ':' !in w[..k] by { FirstColon(w); }
      var a, rest := w[..k], w[k + 1..];
      assert w == a + ":" + rest;
      PartsAtColon(a, rest);
      if ':' in rest {
        RestHasTwo(rest);
        forall x, y | Split(w, x, y)
          ensures false
        {
          SplitUnique(w, a, rest, x, y);
        }
      } else {
        PartsAtColon(rest, "");
      }
    } else {
      PartsAtColon(w, "");
    }
  }

  lemma {:induction false} FirstColon(w: string)
    requires ':' in w
    ensures exists k :: 0 <= k < |w| && w[k] == ':' && ':' !in w[..k]
  {
    if w[0] == ':' {
      assert w[..0] == "";
    } else {
      assert w == [w[0]] + w[1..];
      FirstColon(w[1..]);
      var k :| 0 <= k < |w[1..]| && w[1..][k] == ':' && ':' !in w[1..][..k];
      assert w[..k + 1] == [w[0]] + w[1..][..k] && w[k + 1] == ':';
    }
  }

  lemma {:induction false} RestHasTwo(rest: string)
    requires ':' in rest
    ensures |ColonParts(rest)| >= 2
  {
    FirstColon(rest);
    var k :| 0 <= k < |rest| && rest[k] == ':' && ':' !in rest[..k];
    assert rest == rest[..k] + ":" + rest[k + 1..];
    PartsAtColon(rest[..k], rest[k + 1..]);
  }

  lemma SplitUnique(w: string, a: string, rest: string, x: string, y: string)
    requires w == a + ":" + rest && ':' !in a && Split(w, x, y)
    ensures x == a && y == rest
  {
    PartsAtColon(a, rest);
    PartsAtColon(x, y);
    assert ([a] + ColonParts(rest))[0] == a && ([x] + ColonParts(y))[0] == x;
    assert w[|a| + 1..] == rest && w[|x| + 1..] == y;
  }

  lemma NoColonInParts(p: string)
    ensures Part(p) ==> ':' !in p
  {
  }

  /** A name in an expression: one part, or two with a colon between them. */
  lemma WordExactly(w: string)
    ensures ValidIfFeatureRef(w) <==> Part(w) || exists a, b :: Split(w, a, b) && Part(a) && Part(b)
  {
    hide ColonParts, Part, Split;
    SameWords();
    ColonPartsJoin(w);
    NoColonInParts(w);
    if |ColonParts(w)| == 1 {
      forall a, b
        ensures !Split(w, a, b)
      {
        SplitHasColon(w, a, b);
      }
    } else if |ColonParts(w)| == 2 {
      var x, y := ColonParts(w)[0], ColonParts(w)[1];
      assert ColonParts(w) == [x, y];
      SplitHasColon(w, x, y);
      forall a, b | Split(w, a, b)
        ensures a == x && b == y
      {
        SplitParts(w, x, y);
        SplitUnique(w, x, y, a, b);
      }
    }
  }

  lemma SplitHasColon(w: string, a: string, b: string)
    ensures Split(w, a, b) ==> ':' in w
  {
    assert Split(w, a, b) ==> w[|a|] == ':';
  }

  lemma SplitParts(w: string, a: string, b: string)
    requires Split(w, a, b)
    ensures w == a + ":" + b && ':' !in a
  {
  }

  lemma SameWords()
    ensures forall p :: ValidRefPart(p) <==> Part(p)
    ensures forall p :: ValidIdentifier(p) <==> Identifier(p)
  {
    forall p: string
      ensures ValidIdentifier(p) <==> Identifier(p)
    {
      if |p| >= 3 {
        assert p[..3] == [p[0], p[1], p[2]];
      }
    }
  }

  // ---- YANG 1.0 names

  ghost predicate Around(s: string, left: string, ref: string, right: string) {
    s == left + ref + right && Blank(left) && Blank(right)
  }

  lemma TrimmedLeft(s: string) returns (left: string)
    ensures s == left + TrimLeft(s) && Blank(left)
  {
    hide TrimLeft;
    left := s[..|s| - |TrimLeft(s)|];
  }

  lemma {:induction false} TrimmedRight(s: string) returns (right: string)
    ensures s == TrimRight(s) + right && Blank(right)
    decreases |s|
  {
    if s != "" && IsSpace(s[|s| - 1]) {
      var init, last := s[..|s| - 1], s[|s| - 1];
      var rest := TrimmedRight(init);
      assert TrimRight(s) == TrimRight(init);
      hide TrimRight;
      right := rest + [last];
      assert s == init + [last];
      OneBlankMore(rest, last);
    } else {
      right := "";
      assert s == s + "";
    }
  }

  lemma OneBlankMore(gap: string, c: char)
    requires Blank(gap) && IsSpace(c)
    ensures Blank(gap + [c]) && Blank([c] + gap)
  {
  }

  lemma {:induction false} TrimsTo(s: string, left: string, ref: string, right: string)
    requires Around(s, left, ref, right) && ref != "" && !IsSpace(ref[0]) && !IsSpace(ref[|ref| - 1])
    ensures Trim(s) == ref
  {
    hide TrimLeft, TrimRight, Blank, IsSpace;
    LeftDropped(left, ref + right);
    assert s == left + (ref + right);
    RightDropped(ref, right);
  }

  lemma {:induction false} LeftDropped(left: string, rest: string)
    requires Blank(left) && rest != "" && !IsSpace(rest[0])
    ensures TrimLeft(left + rest) == rest
  {
    if left == "" {
      assert left + rest == rest;
    } else {
      assert left[0] in left && (left + rest)[1..] == left[1..] + rest;
      assert forall c :: c in left[1..] ==> c in left;
      LeftDropped(left[1..], rest);
    }
  }

  lemma {:induction false} RightDropped(rest: string, right: string)
    requires Blank(right) && rest != "" && !IsSpace(rest[|rest| - 1])
    ensures TrimRight(rest + right) == rest
    decreases |right|
  {
    if right == "" {
      assert rest + right == rest;
    } else {
      var last := |right| - 1;
      assert right[last] in right && (rest + right)[..|rest| + last] == rest + right[..last];
      assert forall c :: c in right[..last] ==> c in right;
      RightDropped(rest, right[..last]);
    }
  }

  /** A YANG 1.0 argument that is one name: an identifier, maybe after a prefix and a colon, blanks around it aside. */
  ghost predicate NameRef(ref: string) {
    Identifier(ref) || exists a, b :: Split(ref, a, b) && Identifier(a) && Identifier(b)
  }

  lemma NameRefExactly(ref: string)
    ensures ValidIdentifierRef(ref) <==> NameRef(ref)
  {
    hide ColonParts, Identifier, Split, ValidIdentifier;
    SameWords();
    ColonPartsJoin(ref);
    IdentifierHasNoColon(ref);
    if |ColonParts(ref)| == 1 {
      forall a, b
        ensures !Split(ref, a, b)
      {
        SplitHasColon(ref, a, b);
      }
    } else if |ColonParts(ref)| == 2 {
      var x, y := ColonParts(ref)[0], ColonParts(ref)[1];
      assert ColonParts(ref) == [x, y];
      SplitHasColon(ref, x, y);
      forall a, b | Split(ref, a, b)
        ensures a == x && b == y
      {
        SplitParts(ref, x, y);
        SplitUnique(ref, x, y, a, b);
      }
    }
  }

  lemma IdentifierHasNoColon(p: string)
    ensures Identifier(p) ==> ':' !in p
  {
  }

  lemma NameRefEnds(ref: string)
    requires NameRef(ref)
    ensures ref != "" && !IsSpace(ref[0]) && !IsSpace(ref[|ref| - 1])
  {
    hide StartsWithXml;
    if Identifier(ref) {
      assert ref[0] in ref && ref[|ref| - 1] in ref;
    } else {
      var a, b :| Split(ref, a, b) && Identifier(a) && Identifier(b);
      assert ref[0] == a[0] && a[0] in a && ref[|ref| - 1] == b[|b| - 1] && b[|b| - 1] in b;
    }
  }

  lemma Trimmed(s: string) returns (left: string, right: string)
    ensures Around(s, left, Trim(s), right)
  {
    hide Blank, TrimLeft, TrimRight, IsSpace;
    left := TrimmedLeft(s);
    right := TrimmedRight(TrimLeft(s));
    assert left + (Trim(s) + right) == left + Trim(s) + right;
  }

  lemma SingleRefExactly(s: string, ref: string)
    ensures SingleRef(s) == Some(ref) <==> NameRef(ref) && exists left, right :: Around(s, left, ref, right)
  {
    hide NameRef, ValidIdentifierRef, Around, Trim, IsSpace;
    NameRefExactly(ref);
    if SingleRef(s) == Some(ref) {
      var left, right := Trimmed(s);
    }
    if NameRef(ref) {
      NameRefEnds(ref);
      if left, right :| Around(s, left, ref, right) {
        TrimsTo(s, left, ref, right);
      }
    }
  }
}
