/**
 What the value of a feature means, told apart from how it is found: a statement is true under a
 set of features that are on if it reads as an expression that is, and features are on
 together when each one that is enabled has only true statements.
 */
module FeatureMeaning {
  import opened Common
  import opened IfFeatureTokens
  import opened IfFeatureGrammar
  import opened Features
  import LeastSolutions
  import opened FeatureResolution
  import opened FeatureTheorems
  import opened FeatureConverse

  // ---- Truth

  /** Whether an expression is true, a name standing for whether its feature is on. */
  ghost predicate ExprTrue(e: Expr, scope: map<string, FeatureId>, on: set<FeatureId>) {
    match e
    case LastTerm(t) => TermTrue(t, scope, on)
    case OrMore(t, more) => TermTrue(t, scope, on) || ExprTrue(more, scope, on)
  }

  ghost predicate TermTrue(t: Term, scope: map<string, FeatureId>, on: set<FeatureId>) {
    match t
    case LastFactor(f) => FactorTrue(f, scope, on)
    case AndMore(f, rest) => FactorTrue(f, scope, on) && TermTrue(rest, scope, on)
  }

  ghost predicate FactorTrue(f: Factor, scope: map<string, FeatureId>, on: set<FeatureId>) {
    match f
    case Negated(inner) => !FactorTrue(inner, scope, on)
    case Parenthesized(e) => ExprTrue(e, scope, on)
    case Ref(name) => name in scope && scope[name] in on
  }

  function Reference(name: string): Expr { LastTerm(LastFactor(Ref(name))) }

  /** The expression a statement stands for: in YANG 1.0 its one name, else any derivation of its tokens. */
  ghost predicate Reads(s: IfFeature, e: Expr) {
    if s.yang10 && SingleRef(s.argument).Some? then e == Reference(SingleRef(s.argument).value)
    else Tokenize(s.argument).Some? && Derives(e, Tokenize(s.argument).value)
  }

  ghost predicate Holds(s: IfFeature, on: set<FeatureId>) {
    exists e :: Reads(s, e) && ExprTrue(e, s.scope, on)
  }

  ghost predicate AllHold(ss: seq<IfFeature>, on: set<FeatureId>) { forall s :: s in ss ==> Holds(s, on) }

  /** The features that are on are those that are enabled and have only true statements. */
  ghost predicate Stable(graph: FeatureGraph, enabled: set<FeatureId>, on: set<FeatureId>) {
    forall f :: f in graph ==> (f in on <==> f in enabled && AllHold(graph[f], on))
  }

  /** known says of its features whether they are on. */
  ghost predicate Tells(known: Known, on: set<FeatureId>) {
    forall f :: f in known ==> (known[f] <==> f in on)
  }

  // ---- Values are truths

  lemma {:induction false} ExprMeans(e: Expr, scope: map<string, FeatureId>, known: Known, on: set<FeatureId>)
    requires Tells(known, on) && ExprValue(e, Names(scope, known)).Some?
    ensures ExprValue(e, Names(scope, known)).value <==> ExprTrue(e, scope, on)
  {
    match e
    case LastTerm(t) => TermMeans(t, scope, known, on);
    case OrMore(t, more) => TermMeans(t, scope, known, on); ExprMeans(more, scope, known, on);
  }

  lemma {:induction false} TermMeans(t: Term, scope: map<string, FeatureId>, known: Known, on: set<FeatureId>)
    requires Tells(known, on) && TermValue(t, Names(scope, known)).Some?
    ensures TermValue(t, Names(scope, known)).value <==> TermTrue(t, scope, on)
  {
    match t
    case LastFactor(f) => FactorMeans(f, scope, known, on);
    case AndMore(f, rest) => FactorMeans(f, scope, known, on); TermMeans(rest, scope, known, on);
  }

  lemma {:induction false} FactorMeans(f: Factor, scope: map<string, FeatureId>, known: Known, on: set<FeatureId>)
    requires Tells(known, on) && FactorValue(f, Names(scope, known)).Some?
    ensures FactorValue(f, Names(scope, known)).value <==> FactorTrue(f, scope, on)
  {
    match f
    case Negated(inner) => FactorMeans(inner, scope, known, on);
    case Parenthesized(e) => ExprMeans(e, scope, known, on);
    case Ref(_) =>
  }

  /** The value of a statement is that of every expression it reads as. */
  lemma ReadingGivesValue(s: IfFeature, e: Expr, known: Known)
    requires Reads(s, e)
    ensures StatementValue(Evaluating, s, known) == ExprValue(e, Names(s.scope, known))
  {
    hide Evaluate, Tokenize, SingleRef;
    if s.yang10 && SingleRef(s.argument).Some? {
      ReferenceValue(SingleRef(s.argument).value, Names(s.scope, known));
    } else {
      DerivationEvaluates(Tokenize(s.argument).value, e, Names(s.scope, known));
    }
  }

  lemma ReferenceValue(name: string, o: Oracle)
    ensures ExprValue(Reference(name), o) == o(name)
  {
    var f := Ref(name);
    assert FactorValue(f, o) == o(name);
    assert TermValue(LastFactor(f), o) == o(name);
  }

  lemma ValueHasReading(s: IfFeature, known: Known) returns (e: Expr)
    requires StatementValue(Evaluating, s, known).Some?
    ensures Reads(s, e)
  {
    hide Evaluate, Tokenize, SingleRef;
    if s.yang10 && SingleRef(s.argument).Some? {
      e := Reference(SingleRef(s.argument).value);
    } else {
      var ts, o := Tokenize(s.argument).value, Names(s.scope, known);
      EvaluateIsGrammar(ts, o, Evaluate(ts, o).value);
      e :| Derives(e, ts) && ExprValue(e, o) == Evaluate(ts, o);
    }
  }

  lemma StatementMeans(s: IfFeature, known: Known, on: set<FeatureId>)
    requires Tells(known, on) && StatementValue(Evaluating, s, known).Some?
    ensures StatementValue(Evaluating, s, known).value <==> Holds(s, on)
  {
    hide Reads, StatementValue;
    var e := ValueHasReading(s, known);
    ReadingGivesValue(s, e, known);
    ExprMeans(e, s.scope, known, on);
    if Holds(s, on) {
      var d :| Reads(s, d) && ExprTrue(d, s.scope, on);
      ReadingGivesValue(s, d, known);
      ExprMeans(d, s.scope, known, on);
    }
  }

  lemma {:induction false} StatementsMean(ss: seq<IfFeature>, known: Known, on: set<FeatureId>)
    requires Tells(known, on) && StatementsValue(Evaluating, ss, known).Some?
    ensures StatementsValue(Evaluating, ss, known).value <==> AllHold(ss, on)
  {
    hide StatementValue, Holds;
    if ss != [] {
      assert forall s :: s in ss <==> s == ss[0] || s in ss[1..];
      StatementMeans(ss[0], known, on);
      if StatementValue(Evaluating, ss[0], known) == Some(true) {
        StatementsMean(ss[1..], known, on);
      }
    }
  }

  lemma {:induction false} RoundTells(graph: FeatureGraph, enabled: set<FeatureId>, on: set<FeatureId>, n: nat)
    requires Stable(graph, enabled, on)
    ensures Tells(Round(Setting(Evaluating, graph, enabled), n), on)
  {
    hide Round, StatementsValue, AllHold;
    var t := Setting(Evaluating, graph, enabled);
    if n == 0 {
      NothingAtFirst(graph, t);
    } else {
      RoundTells(graph, enabled, on, n - 1);
      forall f | f in Round(t, n)
        ensures Round(t, n)[f] <==> f in on
      {
        RoundStep(t, f, n - 1);
        if f in enabled {
          StatementsMean(graph[f], Round(t, n - 1), on);
        }
      }
    }
  }

  /** However features depend on one another, a value found is true wherever features are on together. */
  lemma DeterminedIsTrue(graph: FeatureGraph, enabled: set<FeatureId>, on: set<FeatureId>)
    requires Stable(graph, enabled, on)
    ensures Tells(Determined(Setting(Evaluating, graph, enabled)), on)
  {
    RoundTells(graph, enabled, on, |graph.Keys|);
  }

  /** If every feature has a value, those that are true are on together, and in no other way. */
  lemma TrueFeaturesAreStable(graph: FeatureGraph, enabled: set<FeatureId>, on: set<FeatureId>)
    requires Determined(Setting(Evaluating, graph, enabled)).Keys == graph.Keys && on <= graph.Keys
    ensures Stable(graph, enabled, on) <==>
            on == set f | f in graph && Determined(Setting(Evaluating, graph, enabled))[f]
  {
    hide Determined, StatementsValue, AllHold;
    var t := Setting(Evaluating, graph, enabled);
    var known := Determined(t);
    if Stable(graph, enabled, on) {
      DeterminedIsTrue(graph, enabled, on);
    }
    if on == set f | f in graph && known[f] {
      DeterminedIsSolution(t);
      forall f | f in graph
        ensures f in on <==> f in enabled && AllHold(graph[f], on)
      {
        if f in enabled {
          StatementsMean(graph[f], known, on);
        }
      }
    }
  }

  /** A feature that is not enabled is known to be off, whatever its statements say. */
  lemma DisabledIsOff(graph: FeatureGraph, enabled: set<FeatureId>, f: FeatureId)
    requires f in graph && f !in enabled
    ensures f in Determined(Setting(Evaluating, graph, enabled)) && !Determined(Setting(Evaluating, graph, enabled))[f]
  {
    hide Determined;
    DeterminedIsSolution(Setting(Evaluating, graph, enabled));
  }

  /** The first statement that does not hold decides, whatever comes after it. */
  lemma FirstFalseDecides(graph: FeatureGraph, enabled: set<FeatureId>, f: FeatureId, i: nat)
    requires f in graph && i < |graph[f]|
    requires var known := Determined(Setting(Evaluating, graph, enabled));
             && StatementValue(Evaluating, graph[f][i], known) == Some(false)
             && forall j :: 0 <= j < i ==> StatementValue(Evaluating, graph[f][j], known) == Some(true)
    ensures f in Determined(Setting(Evaluating, graph, enabled)) && !Determined(Setting(Evaluating, graph, enabled))[f]
  {
    hide Determined, StatementValue, StatementsValue;
    var t := Setting(Evaluating, graph, enabled);
    DeterminedIsSolution(t);
    StopsAtFalse(graph[f], Determined(t), i);
  }

  lemma {:induction false} StopsAtFalse(ss: seq<IfFeature>, known: Known, i: nat)
    requires i < |ss| && StatementValue(Evaluating, ss[i], known) == Some(false)
    requires forall j :: 0 <= j < i ==> StatementValue(Evaluating, ss[j], known) == Some(true)
    ensures StatementsValue(Evaluating, ss, known) == Some(false)
  {
    hide StatementValue;
    if i > 0 {
      StopsAtFalse(ss[1..], known, i - 1);
    }
  }

  // ---- When every feature has a value

  /** Every statement reads as an expression over visible features of lower rank. */
  ghost predicate Ranked(graph: FeatureGraph, rank: map<FeatureId, nat>) {
    rank.Keys == graph.Keys
    && forall f, s :: f in graph && s in graph[f] ==> exists e :: ReadsBelow(graph, rank, f, s, e)
  }

  ghost predicate ReadsBelow(graph: FeatureGraph, rank: map<FeatureId, nat>, f: FeatureId, s: IfFeature, e: Expr)
    requires rank.Keys == graph.Keys && f in graph
  {
    Reads(s, e) && forall name :: Ident(name) in ExprTokens(e) ==>
                     name in s.scope && s.scope[name] in graph && rank[s.scope[name]] < rank[f]
  }

  lemma {:induction false} NamesGiveValue(e: Expr, o: Oracle)
    requires forall name :: Ident(name) in ExprTokens(e) ==> o(name).Some?
    ensures ExprValue(e, o).Some?
  {
    match e
    case LastTerm(t) => TermNamesGiveValue(t, o);
    case OrMore(t, more) =>
      assert forall x :: x in TermTokens(t) || x in ExprTokens(more) ==> x in ExprTokens(e);
      TermNamesGiveValue(t, o);
      NamesGiveValue(more, o);
  }

  lemma {:induction false} TermNamesGiveValue(t: Term, o: Oracle)
    requires forall name :: Ident(name) in TermTokens(t) ==> o(name).Some?
    ensures TermValue(t, o).Some?
  {
    match t
    case LastFactor(f) => FactorNamesGiveValue(f, o);
    case AndMore(f, rest) =>
      assert forall x :: x in FactorTokens(f) || x in TermTokens(rest) ==> x in TermTokens(t);
      FactorNamesGiveValue(f, o);
      TermNamesGiveValue(rest, o);
  }

  lemma {:induction false} FactorNamesGiveValue(f: Factor, o: Oracle)
    requires forall name :: Ident(name) in FactorTokens(f) ==> o(name).Some?
    ensures FactorValue(f, o).Some?
  {
    match f
    case Negated(inner) =>
      assert forall x :: x in FactorTokens(inner) ==> x in FactorTokens(f);
      FactorNamesGiveValue(inner, o);
    case Parenthesized(e) =>
      assert forall x :: x in ExprTokens(e) ==> x in FactorTokens(f);
      NamesGiveValue(e, o);
    case Ref(name) => assert Ident(name) in FactorTokens(f);
  }

  lemma {:induction false} AllStatementsGiven(ss: seq<IfFeature>, known: Known)
    requires forall s :: s in ss ==> StatementValue(Evaluating, s, known).Some?
    ensures StatementsValue(Evaluating, ss, known).Some?
  {
    hide StatementValue;
    if ss != [] {
      assert forall s :: s in ss[1..] ==> s in ss;
      AllStatementsGiven(ss[1..], known);
    }
  }

  lemma {:induction false} RankedInRound(t: Setting, rank: map<FeatureId, nat>, f: FeatureId, n: nat)
    requires t.mode.Evaluating? && Ranked(t.graph, rank) && f in t.graph && rank[f] < n
    ensures f in Round(t, n)
    decreases n
  {
    hide Round, Reads, StatementValue, StatementsValue;
    var known := Round(t, n - 1);
    forall s | s in t.graph[f]
      ensures StatementValue(Evaluating, s, known).Some?
    {
      var e :| ReadsBelow(t.graph, rank, f, s, e);
      forall name | Ident(name) in ExprTokens(e)
        ensures Names(s.scope, known)(name).Some?
      {
        RankedInRound(t, rank, s.scope[name], n - 1);
      }
      NamesGiveValue(e, Names(s.scope, known));
      ReadingGivesValue(s, e, known);
    }
    AllStatementsGiven(t.graph[f], known);
    RoundStep(t, f, n - 1);
  }

  /** Well-formed features that depend on one another without cycles all have values, and exactly one set is on. */
  lemma RankedHaveValues(graph: FeatureGraph, enabled: set<FeatureId>, rank: map<FeatureId, nat>)
    requires Ranked(graph, rank)
    ensures Determined(Setting(Evaluating, graph, enabled)).Keys == graph.Keys
  {
    hide Round, Ranked;
    var t := Setting(Evaluating, graph, enabled);
    RoundInside(t, |graph.Keys|);
    forall f | f in graph
      ensures f in Determined(t)
    {
      RankKnown(graph, rank, f);
      RankedInRound(t, rank, f, rank[f] + 1);
      RoundsAreDetermined(t, rank[f] + 1);
    }
  }

  lemma RankKnown(graph: FeatureGraph, rank: map<FeatureId, nat>, f: FeatureId)
    requires Ranked(graph, rank) && f in graph
    ensures f in rank
  {
  }

  // ---- YANG 1.0 references

  /** A YANG 1.0 statement that is one name has the value of the feature of that name, whatever the word. */
  lemma ReferenceIsLookup(s: IfFeature, known: Known)
    requires s.yang10 && SingleRef(s.argument).Some?
    ensures StatementValue(Evaluating, s, known) ==
            ExprValue(Reference(SingleRef(s.argument).value), Names(s.scope, known))
  {
    hide SingleRef;
    ReadingGivesValue(s, Reference(SingleRef(s.argument).value), known);
  }

  /** Unless it is an operator word, it is the same statement in YANG 1.1. */
  lemma ReferenceInEitherVersion(s: IfFeature, known: Known)
    requires s.yang10 && SingleRef(s.argument).Some? && !OperatorWord(s)
    ensures StatementValue(Evaluating, s, known) == StatementValue(Evaluating, s.(yang10 := false), known)
  {
    hide SingleRef, Tokenize, StatementValue, ExprValue;
    var name := SingleRef(s.argument).value;
    SingleRefIsOneToken(s.argument);
    ReferenceTokens(name);
    ReferenceIsLookup(s, known);
    ReadingGivesValue(s.(yang10 := false), Reference(name), known);
  }

  lemma ReferenceTokens(name: string)
    ensures ExprTokens(Reference(name)) == [Ident(name)]
  {
    var f := Ref(name);
    assert FactorTokens(f) == [Ident(name)];
    assert TermTokens(LastFactor(f)) == [Ident(name)];
  }

  // ---- Answers

  /** Asking for a YANG 1.0 statement that is one name is asking whether that feature is enabled. */
  method EvaluateReference(resolver: FeatureResolver, s: IfFeature)
    returns (holds: Option<bool>, isEnabled: Option<bool>)
    requires resolver.Sound() && resolver.resolving == {} && ScopeInside(s.scope, resolver.graph)
    requires s.yang10 && SingleRef(s.argument).Some?
    modifies resolver
    ensures holds == isEnabled
  {
    hide StatementValue, Determined, SingleRef, Lookup;
    holds := resolver.EvalIfFeature(s);
    isEnabled := resolver.FeatureEnabled(s.scope, SingleRef(s.argument).value);
    var known := Determined(resolver.For(Evaluating));
    ReferenceIsLookup(s, known);
    ReferenceValue(SingleRef(s.argument).value, Names(s.scope, known));
  }

  /** The answers, when there are any, are the truth. */
  method AnswersAreTrue(resolver: FeatureResolver, s: IfFeature, scope: map<string, FeatureId>, name: string)
    returns (holds: Option<bool>, isEnabled: Option<bool>)
    requires resolver.Sound() && resolver.resolving == {}
    requires ScopeInside(s.scope, resolver.graph) && ScopeInside(scope, resolver.graph)
    modifies resolver
    ensures forall on :: Stable(resolver.graph, resolver.enabled, on) ==>
            && (holds.Some? ==> (holds.value <==> Holds(s, on)))
            && (isEnabled.Some? ==> name in scope && (isEnabled.value <==> scope[name] in on))
  {
    hide StatementValue, Determined, Holds, Stable;
    holds := resolver.EvalIfFeature(s);
    isEnabled := resolver.FeatureEnabled(scope, name);
    var known := Determined(resolver.For(Evaluating));
    forall on | Stable(resolver.graph, resolver.enabled, on)
      ensures holds.Some? ==> (holds.value <==> Holds(s, on))
      ensures isEnabled.Some? ==> name in scope && (isEnabled.value <==> scope[name] in on)
    {
      DeterminedIsTrue(resolver.graph, resolver.enabled, on);
      if holds.Some? {
        StatementMeans(s, known, on);
      }
    }
  }

  /** Features that depend on one another without cycles are all known, so every question about them is answered. */
  method RankedAnswer(resolver: FeatureResolver, scope: map<string, FeatureId>, name: string,
                      ghost rank: map<FeatureId, nat>)
    returns (isEnabled: Option<bool>)
    requires resolver.Sound() && resolver.resolving == {} && ScopeInside(scope, resolver.graph)
    requires Ranked(resolver.graph, rank)
    modifies resolver
    ensures isEnabled.Some? <==> name in scope
    ensures forall on :: Stable(resolver.graph, resolver.enabled, on) && name in scope ==>
            isEnabled == Some(scope[name] in on)
  {
    hide Determined, Stable, Ranked;
    isEnabled := resolver.FeatureEnabled(scope, name);
    RankedHaveValues(resolver.graph, resolver.enabled, rank);
    forall on | Stable(resolver.graph, resolver.enabled, on) && name in scope
      ensures isEnabled == Some(scope[name] in on)
    {
      DeterminedIsTrue(resolver.graph, resolver.enabled, on);
    }
  }
}
