/**
 What the memo and the validator rely on: results found inside an unfinished
 resolution, results found on their own, and validated features all agree.
 */
module FeatureTheorems {
  import opened Common
  import opened IfFeatureTokens
  import opened IfFeatureGrammar
  import opened Features
  import LeastSolutions
  import opened FeatureResolution

  // ---- Evaluation without a memo

  /** The recursion without any memo: a feature met while it is being resolved has no value. */
  function Seen(t: Setting, f: FeatureId, resolving: set<FeatureId>): Option<bool>
    requires f in t.graph
    decreases t.graph.Keys - resolving
  {
    if t.mode.Evaluating? && f !in t.enabled then Some(false)
    else if f in resolving then None
    else StatementsValue(t.mode, t.graph[f], SeenBelow(t, f, resolving))
  }

  /** What the features are worth to the statements of f. */
  function SeenBelow(t: Setting, f: FeatureId, resolving: set<FeatureId>): Known
    requires f in t.graph && f !in resolving
    decreases t.graph.Keys - resolving, 0
  {
    assert f in t.graph.Keys - resolving;
    map g | g in t.graph && Seen(t, g, resolving + {f}).Some? :: Seen(t, g, resolving + {f}).value
  }

  lemma {:induction false} SeenIsDetermined(t: Setting, f: FeatureId, resolving: set<FeatureId>)
    requires f in t.graph
    ensures Seen(t, f, resolving).Some? ==> f in Determined(t) && Some(Determined(t)[f]) == Seen(t, f, resolving)
    decreases t.graph.Keys - resolving
  {
    hide Determined, StatementsValue;
    DeterminedIsSolution(t);
    if f !in resolving {
      assert f in t.graph.Keys - resolving;
      forall g | g in t.graph {
        SeenIsDetermined(t, g, resolving + {f});
      }
      StatementsMonotone(t.mode, t.graph[f], SeenBelow(t, f, resolving), Determined(t));
    }
  }

  lemma {:induction false} RoundIsSeen(t: Setting, f: FeatureId, resolving: set<FeatureId>, n: nat)
    requires resolving !! Round(t, n).Keys && f in Round(t, n)
    ensures f in t.graph && Seen(t, f, resolving) == Some(Round(t, n)[f])
    decreases n
  {
    hide StatementsValue;
    RoundInside(t, n);
    var m := FirstRound(t, f, n);
    RoundsGrowFrom(t, m, n);
    forall g | g in Round(t, m)
      ensures g in t.graph && Seen(t, g, resolving + {f}) == Some(Round(t, m)[g])
    {
      RoundIsSeen(t, g, resolving + {f}, m);
    }
    StatementsMonotone(t.mode, t.graph[f], Round(t, m), SeenBelow(t, f, resolving));
  }

  /** From the top level the memoless recursion finds exactly the determined values. */
  lemma {:induction false} SeenFromTopLevel(t: Setting, f: FeatureId)
    requires f in t.graph
    ensures Seen(t, f, {}) == if f in Determined(t) then Some(Determined(t)[f]) else None
  {
    hide Seen, Round;
    SeenIsDetermined(t, f, {});
    if f in Determined(t) {
      RoundIsSeen(t, f, {}, |t.graph.Keys|);
    }
  }

  /** Memo or no memo, a top-level question has the same answer. */
  method MemoMakesNoDifference(resolver: FeatureResolver, scope: map<string, FeatureId>, name: string)
    returns (r: Option<bool>)
    requires resolver.Sound() && resolver.resolving == {} && ScopeInside(scope, resolver.graph)
    modifies resolver
    ensures r == if name in scope then Seen(resolver.For(Evaluating), scope[name], {}) else None
  {
    hide Seen, Round, Determined;
    r := resolver.FeatureEnabled(scope, name);
    if name in scope {
      SeenFromTopLevel(resolver.For(Evaluating), scope[name]);
    }
  }

  // ---- Memo hits inside a resolution

  /** The names a statement's evaluation looks up. */
  ghost predicate Mentions(mode: Mode, s: IfFeature, name: string) {
    if mode.Evaluating? && s.yang10 && SingleRef(s.argument).Some? then name == SingleRef(s.argument).value
    else Tokenize(s.argument).Some? && Ident(name) in Tokenize(s.argument).value
  }

  /** Resolving f goes on past this statement. */
  ghost predicate GoesOn(mode: Mode, s: IfFeature, known: Known) {
    StatementValue(mode, s, known).Some? && (mode.Evaluating? ==> StatementValue(mode, s, known).value)
  }

  /** Resolving f asks for g: some statement mentions g and the earlier ones do not stop the resolution. */
  ghost predicate Visits(t: Setting, f: FeatureId, g: FeatureId) {
    && f in t.graph && (t.mode.Evaluating? ==> f in t.enabled)
    && exists i: nat :: VisitsAt(t, f, g, i)
  }

  ghost predicate VisitsAt(t: Setting, f: FeatureId, g: FeatureId, i: nat)
    requires f in t.graph
  {
    && i < |t.graph[f]|
    && (forall j :: 0 <= j < i ==> GoesOn(t.mode, t.graph[f][j], Determined(t)))
    && exists name ::
         name in t.graph[f][i].scope && t.graph[f][i].scope[name] == g && Mentions(t.mode, t.graph[f][i], name)
  }

  /** stack is a chain of resolutions under way, each having asked for the next and the last for f. */
  ghost predicate GenuineStack(t: Setting, stack: seq<FeatureId>, f: FeatureId) {
    forall i :: 0 <= i < |stack| ==> Visits(t, stack[i], (stack + [f])[i + 1])
  }

  lemma {:induction false} ExprNamesKnown(e: Expr, o: Oracle, name: string)
    requires ExprValue(e, o).Some? && Ident(name) in ExprTokens(e)
    ensures o(name).Some?
  {
    match e
    case LastTerm(t) => TermNamesKnown(t, o, name);
    case OrMore(t, more) =>
      if Ident(name) in TermTokens(t) {
        TermNamesKnown(t, o, name);
      } else {
        ExprNamesKnown(more, o, name);
      }
  }

  lemma {:induction false} TermNamesKnown(t: Term, o: Oracle, name: string)
    requires TermValue(t, o).Some? && Ident(name) in TermTokens(t)
    ensures o(name).Some?
  {
    match t
    case LastFactor(f) => FactorNamesKnown(f, o, name);
    case AndMore(f, rest) =>
      if Ident(name) in FactorTokens(f) {
        FactorNamesKnown(f, o, name);
      } else {
        TermNamesKnown(rest, o, name);
      }
  }

  lemma {:induction false} FactorNamesKnown(f: Factor, o: Oracle, name: string)
    requires FactorValue(f, o).Some? && Ident(name) in FactorTokens(f)
    ensures o(name).Some?
  {
    match f
    case Negated(inner) => FactorNamesKnown(inner, o, name);
    case Parenthesized(e) => ExprNamesKnown(e, o, name);
    case Ref(_) =>
  }

  /** A statement has a value only when everything it mentions has one. */
  lemma MentionedIsKnown(mode: Mode, s: IfFeature, known: Known, name: string)
    requires StatementValue(mode, s, known).Some? && Mentions(mode, s, name)
    ensures Lookup(s.scope, known, name).Some?
  {
    hide Evaluate, Tokenize, SingleRef;
    if !(mode.Evaluating? && s.yang10 && SingleRef(s.argument).Some?) {
      var ts := Tokenize(s.argument).value;
      var o := Names(s.scope, known);
      EvaluateIsGrammar(ts, o, Evaluate(ts, o).value);
      var e :| Derives(e, ts) && ExprValue(e, o) == Evaluate(ts, o);
      ExprNamesKnown(e, o, name);
    }
  }

  /** Statement i is evaluated, so it has a value, when the earlier ones do not stop the resolution. */
  lemma {:induction false} ReachedHasValue(mode: Mode, ss: seq<IfFeature>, a: Known, b: Known, i: nat)
    requires LeastSolutions.Agrees(a, b) && StatementsValue(mode, ss, a).Some? && i < |ss|
    requires forall j :: 0 <= j < i ==> GoesOn(mode, ss[j], b)
    ensures StatementValue(mode, ss[i], a).Some?
  {
    hide StatementValue;
    if i > 0 {
      StatementMonotone(mode, ss[0], a, b);
      ReachedHasValue(mode, ss[1..], a, b, i - 1);
    }
  }

  /** What a feature asks for got its value in an earlier round. */
  lemma {:induction false} VisitedEarlier(t: Setting, f: FeatureId, g: FeatureId, n: nat)
    requires f in Round(t, n + 1) && Visits(t, f, g)
    ensures g in Round(t, n)
  {
    hide StatementsValue, Mentions, Determined;
    RoundsAreDetermined(t, n);
    var i: nat :| VisitsAt(t, f, g, i);
    ReachedHasValue(t.mode, t.graph[f], Round(t, n), Determined(t), i);
    var s := t.graph[f][i];
    var name :| name in s.scope && s.scope[name] == g && Mentions(t.mode, s, name);
    MentionedIsKnown(t.mode, s, Round(t, n), name);
  }

  lemma {:induction false} StackComesLater(t: Setting, stack: seq<FeatureId>, f: FeatureId, m: nat, k: nat)
    requires GenuineStack(t, stack, f) && f !in Round(t, m) && k < |stack|
    ensures stack[k] !in Round(t, m + 1)
    decreases |stack| - k
  {
    hide Round, Visits;
    var next := (stack + [f])[k + 1];
    if k + 1 < |stack| {
      StackComesLater(t, stack, f, m, k + 1);
      RoundsGrowFrom(t, m, m + 1);
    }
    assert next !in Round(t, m);
    if stack[k] in Round(t, m + 1) {
      VisitedEarlier(t, stack[k], next, m);
    }
  }

  /**
   A feature with a known value cannot lead back into a genuine stack of resolutions, so
   taking its value from the memo there gives what the memoless recursion would find.
   */
  lemma {:induction false} MemoHitAgrees(t: Setting, stack: seq<FeatureId>, f: FeatureId)
    requires GenuineStack(t, stack, f) && f in Determined(t)
    ensures f in t.graph && Seen(t, f, (set s | s in stack)) == Some(Determined(t)[f])
  {
    hide Seen, Round, Visits;
    RoundInside(t, |t.graph.Keys|);
    var m := FirstRound(t, f, |t.graph.Keys|);
    forall s | s in stack
      ensures s !in Round(t, m + 1)
    {
      var k :| 0 <= k < |stack| && stack[k] == s;
      StackComesLater(t, stack, f, m, k);
    }
    RoundIsSeen(t, f, (set s | s in stack), m + 1);
  }

  // ---- Validation

  lemma {:induction false} ExprDefined(e: Expr, o: Oracle, p: Oracle)
    requires forall name :: o(name).Some? ==> p(name).Some?
    ensures ExprValue(e, o).Some? ==> ExprValue(e, p).Some?
  {
    match e
    case LastTerm(t) => TermDefined(t, o, p);
    case OrMore(t, more) => TermDefined(t, o, p); ExprDefined(more, o, p);
  }

  lemma {:induction false} TermDefined(t: Term, o: Oracle, p: Oracle)
    requires forall name :: o(name).Some? ==> p(name).Some?
    ensures TermValue(t, o).Some? ==> TermValue(t, p).Some?
  {
    match t
    case LastFactor(f) => FactorDefined(f, o, p);
    case AndMore(f, rest) => FactorDefined(f, o, p); TermDefined(rest, o, p);
  }

  lemma {:induction false} FactorDefined(f: Factor, o: Oracle, p: Oracle)
    requires forall name :: o(name).Some? ==> p(name).Some?
    ensures FactorValue(f, o).Some? ==> FactorValue(f, p).Some?
  {
    match f
    case Negated(inner) => FactorDefined(inner, o, p);
    case Parenthesized(e) => ExprDefined(e, o, p);
    case Ref(_) =>
  }

  lemma EvaluateDefined(ts: seq<Token>, o: Oracle, p: Oracle)
    requires Evaluate(ts, o).Some? && forall name :: o(name).Some? ==> p(name).Some?
    ensures Evaluate(ts, p).Some?
  {
    hide Evaluate;
    EvaluateIsGrammar(ts, o, Evaluate(ts, o).value);
    var e :| Derives(e, ts) && ExprValue(e, o) == Evaluate(ts, o);
    ExprDefined(e, o, p);
    DerivationEvaluates(ts, e, p);
  }

  /** A validated statement can be evaluated wherever the validated features have values. */
  lemma ValidStatementDefined(s: IfFeature, valid: Known, known: Known)
    requires StatementValue(Validating, s, valid).Some? && valid.Keys <= known.Keys
    ensures StatementValue(Evaluating, s, known).Some?
  {
    hide Evaluate, Tokenize, SingleRef;
    var ts := Tokenize(s.argument).value;
    var o, p := Names(s.scope, valid), Names(s.scope, known);
    if s.yang10 && SingleRef(s.argument).Some? {
      SingleRefIsOneToken(s.argument);
      SingleTokenEvaluates(ts[0], o);
    } else {
      EvaluateDefined(ts, o, p);
    }
  }

  lemma SingleTokenEvaluates(t: Token, o: Oracle)
    ensures t in {Not, And, Or} ==> Evaluate([t], o).None?
    ensures t.Ident? ==> Evaluate([t], o) == o(t.text)
  {
    assert ParsePrimary([t], 1, o) == Fail && ParseNot([t], 1, o) == Fail;
    if t.Ident? {
      assert ParsePrimary([t], 0, o) == Outcome(o(t.text), 1);
      assert ParseNot([t], 0, o) == Outcome(o(t.text), 1);
      assert ParseAnd([t], 0, o) == Outcome(o(t.text), 1);
      assert ParseOr([t], 0, o) == Outcome(o(t.text), 1);
    } else if t in {Not, And, Or} {
      assert ParseNot([t], 0, o) == Fail;
      assert ParseAnd([t], 0, o) == Fail;
    }
  }

  lemma {:induction false} ValidStatementsDefined(ss: seq<IfFeature>, valid: Known, known: Known)
    requires StatementsValue(Validating, ss, valid).Some? && valid.Keys <= known.Keys
    ensures StatementsValue(Evaluating, ss, known).Some?
  {
    hide StatementValue;
    if ss != [] {
      ValidStatementDefined(ss[0], valid, known);
      ValidStatementsDefined(ss[1..], valid, known);
    }
  }

  lemma {:induction false} ValidRoundDefined(graph: FeatureGraph, enabled: set<FeatureId>, n: nat)
    ensures Round(Setting(Validating, graph, {}), n).Keys <= Round(Setting(Evaluating, graph, enabled), n).Keys
  {
    hide StatementsValue;
    if n > 0 {
      ValidRoundDefined(graph, enabled, n - 1);
      var valid, known := Round(Setting(Validating, graph, {}), n - 1),
          Round(Setting(Evaluating, graph, enabled), n - 1);
      forall f | f in graph && StatementsValue(Validating, graph[f], valid).Some?
        ensures StatementsValue(Evaluating, graph[f], known).Some?
      {
        ValidStatementsDefined(graph[f], valid, known);
      }
    }
  }

  /** A statement that validation accepts has a value whatever features are enabled. */
  lemma ValidationImpliesDefined(graph: FeatureGraph, s: IfFeature, enabled: set<FeatureId>)
    requires Accepted(graph, s)
    ensures StatementValue(Evaluating, s, Determined(Setting(Evaluating, graph, enabled))).Some?
  {
    hide Round, Evaluate, Tokenize, SingleRef;
    ValidRoundDefined(graph, enabled, |graph.Keys|);
    if !(s.yang10 && SingleRef(s.argument).Some?) {
      ValidStatementDefined(s, Determined(Setting(Validating, graph, {})),
                            Determined(Setting(Evaluating, graph, enabled)));
    }
  }
}
