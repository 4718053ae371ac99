/** Writing Boolean formulas over features as if-feature expressions and reading them back. */
module IfFeaturePrinting {
  import opened Common
  import opened IfFeatureTokens
  import opened IfFeatureGrammar

  datatype Formula =
    | Name(text: string)
    | Negation(f: Formula)
    | Both(l: Formula, r: Formula)
    | Either(l: Formula, r: Formula)

  function Meaning(f: Formula, o: Oracle): Option<bool> {
    match f
    case Name(text) => o(text)
    case Negation(g) => NotValue(Meaning(g, o))
    case Both(l, r) => AndValues(Meaning(l, o), Meaning(r, o))
    case Either(l, r) => OrValues(Meaning(l, o), Meaning(r, o))
  }

  /** The derivation of f with parentheses only where precedence needs them. */
  function ToExpr(f: Formula): Expr
    decreases f, if f.Either? then 0 else 2
  {
    if f.Either? then JoinExprs(ToExpr(f.l), ToExpr(f.r)) else LastTerm(ToTerm(f))
  }

  function ToTerm(f: Formula): Term
    decreases f, 1
  {
    match f
    case Both(l, r) => JoinTerms(ToTerm(l), ToTerm(r))
    case Either(_, _) => LastFactor(Parenthesized(ToExpr(f)))
    case Negation(g) => LastFactor(Negated(ToFactor(g)))
    case Name(text) => LastFactor(Ref(text))
  }

  function ToFactor(f: Formula): Factor
    decreases f, 3
  {
    match f
    case Name(text) => Ref(text)
    case Negation(g) => Negated(ToFactor(g))
    case _ => Parenthesized(ToExpr(f))
  }

  function JoinExprs(a: Expr, b: Expr): Expr {
    match a
    case LastTerm(t) => OrMore(t, b)
    case OrMore(t, more) => OrMore(t, JoinExprs(more, b))
  }

  function JoinTerms(a: Term, b: Term): Term {
    match a
    case LastFactor(f) => AndMore(f, b)
    case AndMore(f, rest) => AndMore(f, JoinTerms(rest, b))
  }

  lemma {:induction false} JoinExprsValue(a: Expr, b: Expr, o: Oracle)
    ensures ExprValue(JoinExprs(a, b), o) == OrValues(ExprValue(a, o), ExprValue(b, o))
  {
    match a
    case LastTerm(_) =>
    case OrMore(_, more) => JoinExprsValue(more, b, o);
  }

  lemma {:induction false} JoinTermsValue(a: Term, b: Term, o: Oracle)
    ensures TermValue(JoinTerms(a, b), o) == AndValues(TermValue(a, o), TermValue(b, o))
  {
    match a
    case LastFactor(_) =>
    case AndMore(_, rest) => JoinTermsValue(rest, b, o);
  }

  lemma {:induction false} PrintedValue(f: Formula, o: Oracle)
    ensures ExprValue(ToExpr(f), o) == TermValue(ToTerm(f), o) == FactorValue(ToFactor(f), o) == Meaning(f, o)
  {
    match f
    case Name(_) =>
    case Negation(g) => PrintedValue(g, o);
    case Both(l, r) =>
      PrintedValue(l, o);
      PrintedValue(r, o);
      JoinTermsValue(ToTerm(l), ToTerm(r), o);
    case Either(l, r) =>
      PrintedValue(l, o);
      PrintedValue(r, o);
      JoinExprsValue(ToExpr(l), ToExpr(r), o);
  }

  predicate WritableFormula(f: Formula) {
    match f
    case Name(text) => Writable(Ident(text))
    case Negation(g) => WritableFormula(g)
    case Both(l, r) => WritableFormula(l) && WritableFormula(r)
    case Either(l, r) => WritableFormula(l) && WritableFormula(r)
  }

  predicate AllWritable(ts: seq<Token>) { forall t :: t in ts ==> Writable(t) }

  lemma {:induction false} JoinExprsTokens(a: Expr, b: Expr)
    ensures ExprTokens(JoinExprs(a, b)) == ExprTokens(a) + [Or] + ExprTokens(b)
  {
    match a
    case LastTerm(_) =>
    case OrMore(t, more) =>
      JoinExprsTokens(more, b);
      assert TermTokens(t) + [Or] + (ExprTokens(more) + [Or] + ExprTokens(b))
          == TermTokens(t) + [Or] + ExprTokens(more) + [Or] + ExprTokens(b);
  }

  lemma {:induction false} JoinTermsTokens(a: Term, b: Term)
    ensures TermTokens(JoinTerms(a, b)) == TermTokens(a) + [And] + TermTokens(b)
  {
    match a
    case LastFactor(_) =>
    case AndMore(f, rest) =>
      JoinTermsTokens(rest, b);
      assert FactorTokens(f) + [And] + (TermTokens(rest) + [And] + TermTokens(b))
          == FactorTokens(f) + [And] + TermTokens(rest) + [And] + TermTokens(b);
  }

  lemma {:induction false} PrintedWritable(f: Formula)
    requires WritableFormula(f)
    ensures AllWritable(ExprTokens(ToExpr(f))) && AllWritable(TermTokens(ToTerm(f)))
            && AllWritable(FactorTokens(ToFactor(f)))
    ensures ExprTokens(ToExpr(f)) != []
  {
    match f
    case Name(_) =>
    case Negation(g) =>
      PrintedWritable(g);
      assert FactorTokens(ToFactor(f)) == [Not] + FactorTokens(ToFactor(g));
    case Both(l, r) =>
      PrintedWritable(l);
      PrintedWritable(r);
      JoinTermsTokens(ToTerm(l), ToTerm(r));
    case Either(l, r) =>
      PrintedWritable(l);
      PrintedWritable(r);
      JoinExprsTokens(ToExpr(l), ToExpr(r));
  }

  function Print(f: Formula): string { Render(ExprTokens(ToExpr(f))) }

  /** A printed formula, tokenized and parsed, has the formula's meaning. */
  lemma PrintThenEvaluate(f: Formula, o: Oracle)
    requires WritableFormula(f)
    ensures Tokenize(Print(f)).Some? && Evaluate(Tokenize(Print(f)).value, o) == Meaning(f, o)
  {
    hide ToExpr, Meaning, Tokenize, Evaluate, ExprTokens;
    PrintedWritable(f);
    TokenizeRender(ExprTokens(ToExpr(f)));
    PrintedValue(f, o);
    DerivationEvaluates(ExprTokens(ToExpr(f)), ToExpr(f), o);
  }
}
