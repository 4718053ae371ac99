/**
 Feature evaluation and validation over features whose if-feature statements may refer
 to one another in cycles.  Both recursions carry the set of features being resolved
 and, during a rebuild, a memo of finished features.  They are measured against the
 least solution of the features' defining equations.
 */
module Features {
  import opened Common
  import opened IfFeatureTokens
  import opened IfFeatureGrammar
  import LeastSolutions

  type FeatureId = nat

  /** An if-feature statement: its argument, its language version, and the features visible from it by name. */
  datatype IfFeature = IfFeature(argument: string, yang10: bool, scope: map<string, FeatureId>)

  /** The if-feature statements of every defined feature. */
  type FeatureGraph = map<FeatureId, seq<IfFeature>>

  datatype Mode = Evaluating | Validating

  /** What is being computed: feature values for an enabled set, or which features are valid. */
  datatype Setting = Setting(mode: Mode, graph: FeatureGraph, enabled: set<FeatureId>)

  type Known = map<FeatureId, bool>

  ghost predicate ScopeInside(scope: map<string, FeatureId>, graph: FeatureGraph) {
    forall name :: name in scope ==> scope[name] in graph
  }

  ghost predicate WellFormed(graph: FeatureGraph) {
    forall f, s :: f in graph && s in graph[f] ==> ScopeInside(s.scope, graph)
  }

  function Lookup(scope: map<string, FeatureId>, known: Known, name: string): Option<bool> {
    if name in scope && scope[name] in known then Some(known[scope[name]]) else None
  }

  function Names(scope: map<string, FeatureId>, known: Known): Oracle {
    name => Lookup(scope, known, name)
  }

  /** The value of one statement when exactly the features in known have values. */
  function StatementValue(mode: Mode, s: IfFeature, known: Known): Option<bool> {
    if mode.Evaluating? && s.yang10 && SingleRef(s.argument).Some? then
      Lookup(s.scope, known, SingleRef(s.argument).value)
    else
      match Tokenize(s.argument)
      case None => None
      case Some(ts) => Evaluate(ts, Names(s.scope, known))
  }

  /** All statements must hold; evaluation stops at the first that does not, validation looks at them all. */
  function StatementsValue(mode: Mode, ss: seq<IfFeature>, known: Known): Option<bool> {
    if ss == [] then Some(true)
    else match StatementValue(mode, ss[0], known)
      case None => None
      case Some(holds) => if mode.Evaluating? && !holds then Some(false) else StatementsValue(mode, ss[1..], known)
  }

  function FeatureValue(t: Setting, f: FeatureId, known: Known): Option<bool>
    requires f in t.graph
  {
    if t.mode.Evaluating? && f !in t.enabled then Some(false) else StatementsValue(t.mode, t.graph[f], known)
  }

  function Definition(t: Setting): (FeatureId, Known) -> Option<bool> {
    (f, known) => if f in t.graph then FeatureValue(t, f, known) else None
  }

  /** The features that get a value within n rounds of applying the definitions, starting from nothing. */
  function Round(t: Setting, n: nat): Known { LeastSolutions.Round(t.graph.Keys, Definition(t), n) }

  /** The least solution: what the definitions determine. */
  function Determined(t: Setting): Known { Round(t, |t.graph.Keys|) }

  // ---- Monotonicity

  ghost predicate Refines(o: Oracle, p: Oracle) {
    forall name :: o(name).Some? ==> p(name) == o(name)
  }

  lemma {:induction false} ExprMonotone(e: Expr, o: Oracle, p: Oracle)
    requires Refines(o, p)
    ensures ExprValue(e, o).Some? ==> ExprValue(e, p) == ExprValue(e, o)
  {
    match e
    case LastTerm(t) => TermMonotone(t, o, p);
    case OrMore(t, more) => TermMonotone(t, o, p); ExprMonotone(more, o, p);
  }

  lemma {:induction false} TermMonotone(t: Term, o: Oracle, p: Oracle)
    requires Refines(o, p)
    ensures TermValue(t, o).Some? ==> TermValue(t, p) == TermValue(t, o)
  {
    match t
    case LastFactor(f) => FactorMonotone(f, o, p);
    case AndMore(f, rest) => FactorMonotone(f, o, p); TermMonotone(rest, o, p);
  }

  lemma {:induction false} FactorMonotone(f: Factor, o: Oracle, p: Oracle)
    requires Refines(o, p)
    ensures FactorValue(f, o).Some? ==> FactorValue(f, p) == FactorValue(f, o)
  {
    match f
    case Negated(inner) => FactorMonotone(inner, o, p);
    case Parenthesized(e) => ExprMonotone(e, o, p);
    case Ref(_) =>
  }

  lemma EvaluateMonotone(ts: seq<Token>, o: Oracle, p: Oracle)
    requires Refines(o, p)
    ensures Evaluate(ts, o).Some? ==> Evaluate(ts, p) == Evaluate(ts, o)
  {
    hide Evaluate;
    if Evaluate(ts, o).Some? {
      var v := Evaluate(ts, o).value;
      EvaluateIsGrammar(ts, o, v);
      var e :| Derives(e, ts) && ExprValue(e, o) == Some(v);
      ExprMonotone(e, o, p);
      DerivationEvaluates(ts, e, p);
    }
  }

  lemma StatementMonotone(mode: Mode, s: IfFeature, a: Known, b: Known)
    requires LeastSolutions.Agrees(a, b)
    ensures StatementValue(mode, s, a).Some? ==> StatementValue(mode, s, b) == StatementValue(mode, s, a)
  {
    hide Evaluate, Tokenize, SingleRef;
    if Tokenize(s.argument).Some? {
      EvaluateMonotone(Tokenize(s.argument).value, Names(s.scope, a), Names(s.scope, b));
    }
  }

  lemma {:induction false} StatementsMonotone(mode: Mode, ss: seq<IfFeature>, a: Known, b: Known)
    requires LeastSolutions.Agrees(a, b)
    ensures StatementsValue(mode, ss, a).Some? ==> StatementsValue(mode, ss, b) == StatementsValue(mode, ss, a)
  {
    hide StatementValue;
    if ss != [] {
      StatementMonotone(mode, ss[0], a, b);
      StatementsMonotone(mode, ss[1..], a, b);
    }
  }

  lemma FeatureMonotone(t: Setting, f: FeatureId, a: Known, b: Known)
    requires LeastSolutions.Agrees(a, b) && f in t.graph
    ensures FeatureValue(t, f, a).Some? ==> FeatureValue(t, f, b) == FeatureValue(t, f, a)
  {
    hide StatementsValue;
    StatementsMonotone(t.mode, t.graph[f], a, b);
  }

  lemma DefinitionMonotone(t: Setting)
    ensures LeastSolutions.Monotone(Definition(t))
  {
    hide FeatureValue;
    forall f: FeatureId, a: Known, b: Known | LeastSolutions.Agrees(a, b) && Definition(t)(f, a).Some?
      ensures Definition(t)(f, b) == Definition(t)(f, a)
    {
      FeatureMonotone(t, f, a, b);
    }
  }

  lemma RoundStep(t: Setting, f: FeatureId, n: nat)
    ensures f in Round(t, n + 1) <==> f in t.graph && FeatureValue(t, f, Round(t, n)).Some?
    ensures f in Round(t, n + 1) ==> FeatureValue(t, f, Round(t, n)) == Some(Round(t, n + 1)[f])
  {
    hide FeatureValue;
  }

  lemma RoundsGrowFrom(t: Setting, m: nat, n: nat)
    requires m <= n
    ensures LeastSolutions.Agrees(Round(t, m), Round(t, n))
  {
    DefinitionMonotone(t);
    LeastSolutions.RoundsGrowFrom(t.graph.Keys, Definition(t), m, n);
  }

  lemma RoundInside(t: Setting, n: nat)
    ensures Round(t, n).Keys <= t.graph.Keys
  {
    LeastSolutions.RoundInside(t.graph.Keys, Definition(t), n);
  }

  /** The least solution satisfies the definitions. */
  lemma DeterminedIsSolution(t: Setting)
    ensures Determined(t).Keys <= t.graph.Keys
    ensures forall f :: f in t.graph ==>
              FeatureValue(t, f, Determined(t)) == if f in Determined(t) then Some(Determined(t)[f]) else None
  {
    hide FeatureValue;
    DefinitionMonotone(t);
    LeastSolutions.SolutionSolves(t.graph.Keys, Definition(t));
    assert forall f :: f in t.graph ==> Definition(t)(f, Determined(t)) == FeatureValue(t, f, Determined(t));
  }

  lemma RoundsAreDetermined(t: Setting, n: nat)
    ensures LeastSolutions.Agrees(Round(t, n), Determined(t))
  {
    DefinitionMonotone(t);
    LeastSolutions.RoundsInSolution(t.graph.Keys, Definition(t), n);
  }

  /** The round in which a feature with a value first gets it. */
  lemma FirstRound(t: Setting, f: FeatureId, n: nat) returns (m: nat)
    requires f in Round(t, n)
    ensures m < n && f !in Round(t, m) && f in Round(t, m + 1) && Round(t, m + 1)[f] == Round(t, n)[f]
  {
    DefinitionMonotone(t);
    m := LeastSolutions.FirstRound(t.graph.Keys, Definition(t), f, n);
  }
}
