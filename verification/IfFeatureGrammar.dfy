/**
 The recursive-descent parser of if-feature expressions, which evaluates while it
 parses, and the grammar of section 7.20.2 of RFC 7950 that it accepts.
 */
module IfFeatureGrammar {
  import opened Common
  import opened IfFeatureTokens

  /** What a name is worth: None when it cannot be told. */
  type Oracle = string -> Option<bool>

  datatype Parse = Fail | Parsed(value: bool, pos: nat)

  predicate Peek(ts: seq<Token>, pos: nat, t: Token) { pos < |ts| && ts[pos] == t }

  function ParseOr(ts: seq<Token>, pos: nat, o: Oracle): (r: Parse)
    ensures r.Parsed? ==> pos < r.pos <= |ts|
    decreases |ts| - pos, 4
  {
    match ParseAnd(ts, pos, o)
    case Fail => Fail
    case Parsed(left, p) => OrRest(ts, p, left, o)
  }

  function OrRest(ts: seq<Token>, pos: nat, left: bool, o: Oracle): (r: Parse)
    requires pos <= |ts|
    ensures r.Parsed? ==> pos <= r.pos <= |ts|
    decreases |ts| - pos, 4
  {
    if !Peek(ts, pos, Or) then Parsed(left, pos)
    else match ParseAnd(ts, pos + 1, o)
      case Fail => Fail
      case Parsed(right, p) => OrRest(ts, p, left || right, o)
  }

  function ParseAnd(ts: seq<Token>, pos: nat, o: Oracle): (r: Parse)
    ensures r.Parsed? ==> pos < r.pos <= |ts|
    decreases |ts| - pos, 3
  {
    match ParseNot(ts, pos, o)
    case Fail => Fail
    case Parsed(left, p) => AndRest(ts, p, left, o)
  }

  function AndRest(ts: seq<Token>, pos: nat, left: bool, o: Oracle): (r: Parse)
    requires pos <= |ts|
    ensures r.Parsed? ==> pos <= r.pos <= |ts|
    decreases |ts| - pos, 3
  {
    if !Peek(ts, pos, And) then Parsed(left, pos)
    else match ParseNot(ts, pos + 1, o)
      case Fail => Fail
      case Parsed(right, p) => AndRest(ts, p, left && right, o)
  }

  function ParseNot(ts: seq<Token>, pos: nat, o: Oracle): (r: Parse)
    ensures r.Parsed? ==> pos < r.pos <= |ts|
    decreases |ts| - pos, 2
  {
    if Peek(ts, pos, Not) then
      match ParseNot(ts, pos + 1, o)
      case Fail => Fail
      case Parsed(inner, p) => Parsed(!inner, p)
    else ParsePrimary(ts, pos, o)
  }

  function ParsePrimary(ts: seq<Token>, pos: nat, o: Oracle): (r: Parse)
    ensures r.Parsed? ==> pos < r.pos <= |ts|
    decreases |ts| - pos, 1
  {
    if pos >= |ts| then Fail
    else match ts[pos]
      case Ident(text) => (match o(text) case None => Fail case Some(v) => Parsed(v, pos + 1))
      case LParen =>
        (match ParseOr(ts, pos + 1, o)
         case Fail => Fail
         case Parsed(v, p) => if Peek(ts, p, RParen) then Parsed(v, p + 1) else Fail)
      case _ => Fail
  }

  /** The value of a complete expression; None unless every token is consumed. */
  function Evaluate(ts: seq<Token>, o: Oracle): Option<bool> {
    match ParseOr(ts, 0, o)
    case Fail => None
    case Parsed(v, p) => if p == |ts| then Some(v) else None
  }

  /** The grammar's derivations: an expression is terms joined by "or", a term is factors joined by "and". */
  datatype Expr = LastTerm(term: Term) | OrMore(term: Term, more: Expr)
  datatype Term = LastFactor(factor: Factor) | AndMore(factor: Factor, rest: Term)
  datatype Factor = Negated(inner: Factor) | Parenthesized(expr: Expr) | Ref(text: string)

  function ExprTokens(e: Expr): seq<Token> {
    match e
    case LastTerm(t) => TermTokens(t)
    case OrMore(t, more) => TermTokens(t) + [Or] + ExprTokens(more)
  }

  function TermTokens(t: Term): seq<Token> {
    match t
    case LastFactor(f) => FactorTokens(f)
    case AndMore(f, rest) => FactorTokens(f) + [And] + TermTokens(rest)
  }

  function FactorTokens(f: Factor): seq<Token> {
    match f
    case Negated(inner) => [Not] + FactorTokens(inner)
    case Parenthesized(e) => [LParen] + ExprTokens(e) + [RParen]
    case Ref(text) => [Ident(text)]
  }

  function OrValues(a: Option<bool>, b: Option<bool>): Option<bool> {
    if a.Some? && b.Some? then Some(a.value || b.value) else None
  }

  function AndValues(a: Option<bool>, b: Option<bool>): Option<bool> {
    if a.Some? && b.Some? then Some(a.value && b.value) else None
  }

  function NotValue(a: Option<bool>): Option<bool> {
    if a.Some? then Some(!a.value) else None
  }

  function ExprValue(e: Expr, o: Oracle): Option<bool> {
    match e
    case LastTerm(t) => TermValue(t, o)
    case OrMore(t, more) => OrValues(TermValue(t, o), ExprValue(more, o))
  }

  function TermValue(t: Term, o: Oracle): Option<bool> {
    match t
    case LastFactor(f) => FactorValue(f, o)
    case AndMore(f, rest) => AndValues(FactorValue(f, o), TermValue(rest, o))
  }

  function FactorValue(f: Factor, o: Oracle): Option<bool> {
    match f
    case Negated(inner) => NotValue(FactorValue(inner, o))
    case Parenthesized(e) => ExprValue(e, o)
    case Ref(text) => o(text)
  }

  /** ts has part at position pos. */
  ghost predicate At(ts: seq<Token>, pos: nat, part: seq<Token>) {
    pos + |part| <= |ts| && ts[pos..pos + |part|] == part
  }

  lemma AtOne(ts: seq<Token>, pos: nat, t: Token)
    ensures At(ts, pos, [t]) <==> Peek(ts, pos, t)
  {
    if Peek(ts, pos, t) {
      assert ts[pos..pos + 1] == [t];
    }
    if At(ts, pos, [t]) {
      assert ts[pos] == ts[pos..pos + 1][0];
    }
  }

  lemma AtConcat(ts: seq<Token>, pos: nat, a: seq<Token>, b: seq<Token>)
    ensures At(ts, pos, a + b) <==> At(ts, pos, a) && At(ts, pos + |a|, b)
  {
    if At(ts, pos, a + b) {
      assert ts[pos..pos + |a|] == ts[pos..pos + |a + b|][..|a|] == a;
      assert ts[pos + |a|..pos + |a| + |b|] == ts[pos..pos + |a + b|][|a|..] == b;
    }
    if At(ts, pos, a) && At(ts, pos + |a|, b) {
      assert ts[pos..pos + |a + b|] == ts[pos..pos + |a|] + ts[pos + |a|..pos + |a| + |b|];
    }
  }

  function Outcome(v: Option<bool>, pos: nat): Parse {
    if v.None? then Fail else Parsed(v.value, pos)
  }

  /** The parser gives every derivation its value, "not" binding tighter than "and" and "and" than "or". */
  lemma {:induction false} ExprParses(ts: seq<Token>, pos: nat, e: Expr, o: Oracle)
    requires At(ts, pos, ExprTokens(e))
    requires var end := pos + |ExprTokens(e)|; !Peek(ts, end, Or) && !Peek(ts, end, And)
    ensures ParseOr(ts, pos, o) == Outcome(ExprValue(e, o), pos + |ExprTokens(e)|)
    decreases e, 1
  {
    hide At, ParseAnd, AndRest, ParseNot, ParsePrimary, TermTokens, FactorTokens, TermValue, FactorValue;
    match e
    case LastTerm(t) => TermParses(ts, pos, t, o);
    case OrMore(t, more) =>
      AtConcat(ts, pos, TermTokens(t), [Or] + ExprTokens(more));
      assert ExprTokens(e) == TermTokens(t) + ([Or] + ExprTokens(more));
      AtConcat(ts, pos + |TermTokens(t)|, [Or], ExprTokens(more));
      AtOne(ts, pos + |TermTokens(t)|, Or);
      TermParses(ts, pos, t, o);
      if TermValue(t, o).Some? {
        MoreTermsParse(ts, pos + |TermTokens(t)|, TermValue(t, o).value, more, o);
      }
  }

  lemma {:induction false} MoreTermsParse(ts: seq<Token>, pos: nat, left: bool, e: Expr, o: Oracle)
    requires Peek(ts, pos, Or) && At(ts, pos + 1, ExprTokens(e))
    requires var end := pos + 1 + |ExprTokens(e)|; !Peek(ts, end, Or) && !Peek(ts, end, And)
    ensures OrRest(ts, pos, left, o) == Outcome(OrValues(Some(left), ExprValue(e, o)), pos + 1 + |ExprTokens(e)|)
    decreases e, 0
  {
    hide At, ParseAnd, AndRest, ParseNot, ParsePrimary, TermTokens, FactorTokens, TermValue, FactorValue;
    match e
    case LastTerm(t) => TermParses(ts, pos + 1, t, o);
    case OrMore(t, more) =>
      AtConcat(ts, pos + 1, TermTokens(t), [Or] + ExprTokens(more));
      assert ExprTokens(e) == TermTokens(t) + ([Or] + ExprTokens(more));
      AtConcat(ts, pos + 1 + |TermTokens(t)|, [Or], ExprTokens(more));
      AtOne(ts, pos + 1 + |TermTokens(t)|, Or);
      TermParses(ts, pos + 1, t, o);
      if TermValue(t, o).Some? {
        MoreTermsParse(ts, pos + 1 + |TermTokens(t)|, left || TermValue(t, o).value, more, o);
      }
  }

  lemma {:induction false} TermParses(ts: seq<Token>, pos: nat, t: Term, o: Oracle)
    requires At(ts, pos, TermTokens(t)) && !Peek(ts, pos + |TermTokens(t)|, And)
    ensures ParseAnd(ts, pos, o) == Outcome(TermValue(t, o), pos + |TermTokens(t)|)
    decreases t, 1
  {
    hide At, ParseOr, OrRest, ParseNot, ParsePrimary, ExprTokens, FactorTokens, ExprValue, FactorValue;
    match t
    case LastFactor(f) => FactorParses(ts, pos, f, o);
    case AndMore(f, rest) =>
      AtConcat(ts, pos, FactorTokens(f), [And] + TermTokens(rest));
      assert TermTokens(t) == FactorTokens(f) + ([And] + TermTokens(rest));
      AtConcat(ts, pos + |FactorTokens(f)|, [And], TermTokens(rest));
      AtOne(ts, pos + |FactorTokens(f)|, And);
      FactorParses(ts, pos, f, o);
      if FactorValue(f, o).Some? {
        MoreFactorsParse(ts, pos + |FactorTokens(f)|, FactorValue(f, o).value, rest, o);
      }
  }

  lemma {:induction false} MoreFactorsParse(ts: seq<Token>, pos: nat, left: bool, t: Term, o: Oracle)
    requires Peek(ts, pos, And) && At(ts, pos + 1, TermTokens(t)) && !Peek(ts, pos + 1 + |TermTokens(t)|, And)
    ensures AndRest(ts, pos, left, o) == Outcome(AndValues(Some(left), TermValue(t, o)), pos + 1 + |TermTokens(t)|)
    decreases t, 0
  {
    hide At, ParseOr, OrRest, ParseNot, ParsePrimary, ExprTokens, FactorTokens, ExprValue, FactorValue;
    match t
    case LastFactor(f) => FactorParses(ts, pos + 1, f, o);
    case AndMore(f, rest) =>
      AtConcat(ts, pos + 1, FactorTokens(f), [And] + TermTokens(rest));
      assert TermTokens(t) == FactorTokens(f) + ([And] + TermTokens(rest));
      AtConcat(ts, pos + 1 + |FactorTokens(f)|, [And], TermTokens(rest));
      AtOne(ts, pos + 1 + |FactorTokens(f)|, And);
      FactorParses(ts, pos + 1, f, o);
      if FactorValue(f, o).Some? {
        MoreFactorsParse(ts, pos + 1 + |FactorTokens(f)|, left && FactorValue(f, o).value, rest, o);
      }
  }

  lemma {:induction false} FactorParses(ts: seq<Token>, pos: nat, f: Factor, o: Oracle)
    requires At(ts, pos, FactorTokens(f))
    ensures ParseNot(ts, pos, o) == Outcome(FactorValue(f, o), pos + |FactorTokens(f)|)
    decreases f, 0
  {
    hide At, ParseOr, OrRest, ParseAnd, AndRest, ExprTokens, TermTokens, ExprValue, TermValue;
    match f
    case Negated(inner) =>
      AtConcat(ts, pos, [Not], FactorTokens(inner));
      AtOne(ts, pos, Not);
      FactorParses(ts, pos + 1, inner, o);
    case Parenthesized(e) =>
      assert FactorTokens(f) == [LParen] + (ExprTokens(e) + [RParen]);
      AtConcat(ts, pos, [LParen], ExprTokens(e) + [RParen]);
      AtConcat(ts, pos + 1, ExprTokens(e), [RParen]);
      AtOne(ts, pos, LParen);
      AtOne(ts, pos + 1 + |ExprTokens(e)|, RParen);
      ExprParses(ts, pos + 1, e, o);
    case Ref(text) =>
      AtOne(ts, pos, Ident(text));
  }

  /** Whatever the parser reads is derived by the grammar, with the value it returns. */
  lemma {:induction false} OrDerivation(ts: seq<Token>, pos: nat, o: Oracle) returns (e: Expr)
    requires ParseOr(ts, pos, o).Parsed?
    ensures At(ts, pos, ExprTokens(e)) && ParseOr(ts, pos, o) == Outcome(ExprValue(e, o), pos + |ExprTokens(e)|)
    decreases |ts| - pos, 4
  {
    hide At, ParseAnd, AndRest, ParseNot, ParsePrimary, TermTokens, FactorTokens, TermValue, FactorValue;
    var t := AndDerivation(ts, pos, o);
    var p := ParseAnd(ts, pos, o).pos;
    if Peek(ts, p, Or) {
      var more := OrRestDerivation(ts, p, TermValue(t, o).value, o);
      e := OrMore(t, more);
      AtOne(ts, p, Or);
      AtConcat(ts, p, [Or], ExprTokens(more));
      AtConcat(ts, pos, TermTokens(t), [Or] + ExprTokens(more));
      assert ExprTokens(e) == TermTokens(t) + ([Or] + ExprTokens(more));
    } else {
      e := LastTerm(t);
    }
  }

  lemma {:induction false} OrRestDerivation(ts: seq<Token>, pos: nat, left: bool, o: Oracle) returns (e: Expr)
    requires Peek(ts, pos, Or) && OrRest(ts, pos, left, o).Parsed?
    ensures At(ts, pos + 1, ExprTokens(e))
    ensures OrRest(ts, pos, left, o) == Outcome(OrValues(Some(left), ExprValue(e, o)), pos + 1 + |ExprTokens(e)|)
    decreases |ts| - pos, 3
  {
    hide At, ParseAnd, AndRest, ParseNot, ParsePrimary, TermTokens, FactorTokens, TermValue, FactorValue;
    var t := AndDerivation(ts, pos + 1, o);
    var p := ParseAnd(ts, pos + 1, o).pos;
    if Peek(ts, p, Or) {
      var more := OrRestDerivation(ts, p, left || TermValue(t, o).value, o);
      e := OrMore(t, more);
      AtOne(ts, p, Or);
      AtConcat(ts, p, [Or], ExprTokens(more));
      AtConcat(ts, pos + 1, TermTokens(t), [Or] + ExprTokens(more));
      assert ExprTokens(e) == TermTokens(t) + ([Or] + ExprTokens(more));
    } else {
      e := LastTerm(t);
    }
  }

  lemma {:induction false} AndDerivation(ts: seq<Token>, pos: nat, o: Oracle) returns (t: Term)
    requires ParseAnd(ts, pos, o).Parsed?
    ensures At(ts, pos, TermTokens(t)) && ParseAnd(ts, pos, o) == Outcome(TermValue(t, o), pos + |TermTokens(t)|)
    decreases |ts| - pos, 2
  {
    hide At, ParseOr, OrRest, ParseNot, ParsePrimary, ExprTokens, FactorTokens, ExprValue, FactorValue;
    var f := NotDerivation(ts, pos, o);
    var p := ParseNot(ts, pos, o).pos;
    if Peek(ts, p, And) {
      var rest := AndRestDerivation(ts, p, FactorValue(f, o).value, o);
      t := AndMore(f, rest);
      AtOne(ts, p, And);
      AtConcat(ts, p, [And], TermTokens(rest));
      AtConcat(ts, pos, FactorTokens(f), [And] + TermTokens(rest));
      assert TermTokens(t) == FactorTokens(f) + ([And] + TermTokens(rest));
    } else {
      t := LastFactor(f);
    }
  }

  lemma {:induction false} AndRestDerivation(ts: seq<Token>, pos: nat, left: bool, o: Oracle) returns (t: Term)
    requires Peek(ts, pos, And) && AndRest(ts, pos, left, o).Parsed?
    ensures At(ts, pos + 1, TermTokens(t))
    ensures AndRest(ts, pos, left, o) == Outcome(AndValues(Some(left), TermValue(t, o)), pos + 1 + |TermTokens(t)|)
    decreases |ts| - pos, 1
  {
    hide At, ParseOr, OrRest, ParseNot, ParsePrimary, ExprTokens, FactorTokens, ExprValue, FactorValue;
    var f := NotDerivation(ts, pos + 1, o);
    var p := ParseNot(ts, pos + 1, o).pos;
    if Peek(ts, p, And) {
      var rest := AndRestDerivation(ts, p, left && FactorValue(f, o).value, o);
      t := AndMore(f, rest);
      AtOne(ts, p, And);
      AtConcat(ts, p, [And], TermTokens(rest));
      AtConcat(ts, pos + 1, FactorTokens(f), [And] + TermTokens(rest));
      assert TermTokens(t) == FactorTokens(f) + ([And] + TermTokens(rest));
    } else {
      t := LastFactor(f);
    }
  }

  lemma {:induction false} NotDerivation(ts: seq<Token>, pos: nat, o: Oracle) returns (f: Factor)
    requires ParseNot(ts, pos, o).Parsed?
    ensures At(ts, pos, FactorTokens(f)) && ParseNot(ts, pos, o) == Outcome(FactorValue(f, o), pos + |FactorTokens(f)|)
    decreases |ts| - pos, 0
  {
    hide At, ParseOr, OrRest, ParseAnd, AndRest, ExprTokens, TermTokens, ExprValue, TermValue;
    if Peek(ts, pos, Not) {
      var inner := NotDerivation(ts, pos + 1, o);
      f := Negated(inner);
      AtOne(ts, pos, Not);
      AtConcat(ts, pos, [Not], FactorTokens(inner));
    } else {
      match ts[pos]
      case Ident(text) =>
        f := Ref(text);
        AtOne(ts, pos, Ident(text));
      case LParen =>
        var e := OrDerivation(ts, pos + 1, o);
        f := Parenthesized(e);
        AtOne(ts, pos, LParen);
        AtOne(ts, pos + 1 + |ExprTokens(e)|, RParen);
        AtConcat(ts, pos + 1, ExprTokens(e), [RParen]);
        AtConcat(ts, pos, [LParen], ExprTokens(e) + [RParen]);
        assert FactorTokens(f) == [LParen] + (ExprTokens(e) + [RParen]);
      case _ =>
    }
  }

  ghost predicate Derives(e: Expr, ts: seq<Token>) { ExprTokens(e) == ts }

  /** Every derivation evaluates to its value. */
  lemma DerivationEvaluates(ts: seq<Token>, e: Expr, o: Oracle)
    requires Derives(e, ts)
    ensures Evaluate(ts, o) == ExprValue(e, o)
  {
    hide ParseOr, ExprTokens, ExprValue;
    assert ts[0..|ts|] == ts;
    ExprParses(ts, 0, e, o);
  }

  /** Complete expressions are exactly the sentences of the grammar, valued as their derivations are. */
  lemma EvaluateIsGrammar(ts: seq<Token>, o: Oracle, v: bool)
    ensures Evaluate(ts, o) == Some(v) <==> exists e :: Derives(e, ts) && ExprValue(e, o) == Some(v)
  {
    if Evaluate(ts, o) == Some(v) {
      var e := OrDerivation(ts, 0, o);
      assert ts[0..|ts|] == ts;
      assert Derives(e, ts) && ExprValue(e, o) == Some(v);
    }
    if e :| Derives(e, ts) && ExprValue(e, o) == Some(v) {
      DerivationEvaluates(ts, e, o);
    }
  }
}
