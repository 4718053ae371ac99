/**
 Validation against evaluation, the other way round.  A statement that validation accepts
 can always be evaluated; when is one that can always be evaluated accepted?  Validation
 looks at every statement of a feature and reads every argument below the top level as an
 expression, so the comparison is with evaluation that stops nowhere.
 */
module FeatureConverse {
  import opened Common
  import opened IfFeatureTokens
  import opened IfFeatureGrammar
  import opened Features
  import LeastSolutions
  import opened FeatureResolution
  import opened FeatureTheorems

  // ---- Evaluation of every statement

  /** The conjunction of all the statements, none of them left out. */
  function AllStatements(ss: seq<IfFeature>, known: Known): Option<bool> {
    if ss == [] then Some(true)
    else AndValues(StatementValue(Evaluating, ss[0], known), AllStatements(ss[1..], known))
  }

  function FullDefinition(graph: FeatureGraph): (FeatureId, Known) -> Option<bool> {
    (f, known) => if f in graph then AllStatements(graph[f], known) else None
  }

  function FullRound(graph: FeatureGraph, n: nat): Known { LeastSolutions.Round(graph.Keys, FullDefinition(graph), n) }

  /** The features all of whose statements can be evaluated, down to features without statements. */
  function FullyDetermined(graph: FeatureGraph): Known { FullRound(graph, |graph.Keys|) }

  /** Everything s needs can be evaluated, whatever the enabled features. */
  ghost predicate FullyDefined(graph: FeatureGraph, s: IfFeature) {
    StatementValue(Evaluating, s, FullyDetermined(graph)).Some?
  }

  lemma {:induction false} AllStatementsMonotone(ss: seq<IfFeature>, a: Known, b: Known)
    requires LeastSolutions.Agrees(a, b)
    ensures AllStatements(ss, a).Some? ==> AllStatements(ss, b) == AllStatements(ss, a)
  {
    hide StatementValue;
    if ss != [] {
      StatementMonotone(Evaluating, ss[0], a, b);
      AllStatementsMonotone(ss[1..], a, b);
    }
  }

  lemma FullDefinitionMonotone(graph: FeatureGraph)
    ensures LeastSolutions.Monotone(FullDefinition(graph))
  {
    hide AllStatements;
    forall f: FeatureId, a: Known, b: Known | LeastSolutions.Agrees(a, b) && FullDefinition(graph)(f, a).Some?
      ensures FullDefinition(graph)(f, b) == FullDefinition(graph)(f, a)
    {
      AllStatementsMonotone(graph[f], a, b);
    }
  }

  lemma NothingAtFirst(graph: FeatureGraph, t: Setting)
    ensures FullRound(graph, 0) == map[] && Round(t, 0) == map[]
  {
  }

  lemma FullRoundStep(graph: FeatureGraph, f: FeatureId, n: nat)
    ensures f in FullRound(graph, n + 1) <==> f in graph && AllStatements(graph[f], FullRound(graph, n)).Some?
    ensures f in FullRound(graph, n + 1) ==>
            AllStatements(graph[f], FullRound(graph, n)) == Some(FullRound(graph, n + 1)[f])
  {
    hide AllStatements;
  }

  lemma FullRoundsAreDetermined(graph: FeatureGraph, n: nat)
    ensures LeastSolutions.Agrees(FullRound(graph, n), FullyDetermined(graph))
  {
    FullDefinitionMonotone(graph);
    LeastSolutions.RoundsInSolution(graph.Keys, FullDefinition(graph), n);
  }

  lemma FullyDeterminedSolves(graph: FeatureGraph)
    ensures FullyDetermined(graph).Keys <= graph.Keys
    ensures forall f :: f in graph ==>
            (f in FullyDetermined(graph) <==> AllStatements(graph[f], FullyDetermined(graph)).Some?)
  {
    hide AllStatements;
    FullDefinitionMonotone(graph);
    LeastSolutions.SolutionSolves(graph.Keys, FullDefinition(graph));
    assert forall f :: f in graph ==>
                         FullDefinition(graph)(f, FullyDetermined(graph)) ==
                           AllStatements(graph[f], FullyDetermined(graph));
  }

  // ---- When validation and evaluation agree

  /** A YANG 1.0 statement that names a feature by an operator word. */
  predicate OperatorWord(s: IfFeature) {
    s.yang10 && SingleRef(s.argument).Some? && SingleRef(s.argument).value in {"not", "and", "or"}
  }

  predicate NoOperatorWord(ss: seq<IfFeature>) { forall s :: s in ss ==> !OperatorWord(s) }

  /** Validation reads such a statement as a lone operator. */
  lemma OperatorWordInvalid(s: IfFeature, valid: Known)
    requires OperatorWord(s)
    ensures StatementValue(Validating, s, valid).None?
  {
    hide Evaluate, Tokenize, SingleRef;
    SingleRefIsOneToken(s.argument);
    SingleTokenEvaluates(Tokenize(s.argument).value[0], Names(s.scope, valid));
  }

  /** Any other statement is accepted when the same features being known gives it a value. */
  lemma ReadAlike(s: IfFeature, valid: Known, known: Known)
    requires valid.Keys == known.Keys && !OperatorWord(s)
    ensures StatementValue(Validating, s, valid).Some? <==> StatementValue(Evaluating, s, known).Some?
  {
    hide Evaluate, Tokenize, SingleRef;
    if StatementValue(Validating, s, valid).Some? {
      ValidStatementDefined(s, valid, known);
    } else if StatementValue(Evaluating, s, known).Some? {
      if s.yang10 && SingleRef(s.argument).Some? {
        SingleRefIsOneToken(s.argument);
        SingleTokenEvaluates(Tokenize(s.argument).value[0], Names(s.scope, valid));
      } else {
        EvaluateDefined(Tokenize(s.argument).value, Names(s.scope, known), Names(s.scope, valid));
      }
    }
  }

  lemma {:induction false} StatementsReadAlike(ss: seq<IfFeature>, valid: Known, known: Known)
    requires valid.Keys == known.Keys
    ensures StatementsValue(Validating, ss, valid).Some? <==> NoOperatorWord(ss) && AllStatements(ss, known).Some?
  {
    hide StatementValue, OperatorWord;
    if ss != [] {
      assert ss == [ss[0]] + ss[1..];
      assert forall s :: s in ss <==> s == ss[0] || s in ss[1..];
      StatementsReadAlike(ss[1..], valid, known);
      if OperatorWord(ss[0]) {
        OperatorWordInvalid(ss[0], valid);
      } else {
        ReadAlike(ss[0], valid, known);
      }
    }
  }

  /** An operator word is enough to make a feature invalid, whatever else it says. */
  lemma OperatorWordNeverValid(graph: FeatureGraph, f: FeatureId)
    requires f in graph && !NoOperatorWord(graph[f])
    ensures f !in Determined(Setting(Validating, graph, {}))
  {
    hide Determined, NoOperatorWord, StatementsValue, AllStatements;
    var t := Setting(Validating, graph, {});
    DeterminedIsSolution(t);
    StatementsReadAlike(graph[f], Determined(t), Determined(t));
    assert FeatureValue(t, f, Determined(t)).None?;
  }

  /** No feature that can be evaluated uses an operator word. */
  ghost predicate WordsUnused(graph: FeatureGraph) {
    forall f :: f in FullyDetermined(graph) && f in graph ==> NoOperatorWord(graph[f])
  }

  lemma ValidStep(graph: FeatureGraph, f: FeatureId, n: nat)
    requires WordsUnused(graph)
    requires Round(Setting(Validating, graph, {}), n).Keys == FullRound(graph, n).Keys
    ensures f in Round(Setting(Validating, graph, {}), n + 1) <==> f in FullRound(graph, n + 1)
  {
    hide Round, FullRound, FullyDetermined, NoOperatorWord, StatementsValue, AllStatements;
    RoundStep(Setting(Validating, graph, {}), f, n);
    FullRoundStep(graph, f, n);
    FullRoundsAreDetermined(graph, n + 1);
    if f in graph {
      StatementsReadAlike(graph[f], Round(Setting(Validating, graph, {}), n), FullRound(graph, n));
    }
  }

  lemma {:induction false} ValidRoundsAgree(graph: FeatureGraph, n: nat)
    requires WordsUnused(graph)
    ensures Round(Setting(Validating, graph, {}), n).Keys == FullRound(graph, n).Keys
  {
    hide Round, FullRound, WordsUnused;
    if n == 0 {
      NothingAtFirst(graph, Setting(Validating, graph, {}));
    } else {
      ValidRoundsAgree(graph, n - 1);
      forall f: FeatureId
        ensures f in Round(Setting(Validating, graph, {}), n) <==> f in FullRound(graph, n)
      {
        ValidStep(graph, f, n - 1);
      }
    }
  }

  /** Where no feature that can be evaluated uses an operator word, accepted means fully defined. */
  lemma AcceptedIsFullyDefined(graph: FeatureGraph, s: IfFeature)
    requires WordsUnused(graph)
    ensures Accepted(graph, s) <==> FullyDefined(graph, s)
  {
    hide Round, FullRound, WordsUnused, Evaluate, Tokenize, SingleRef, OperatorWord;
    ValidRoundsAgree(graph, |graph.Keys|);
    if !(s.yang10 && SingleRef(s.argument).Some?) {
      assert !OperatorWord(s) by { NotASingleRef(s); }
      ReadAlike(s, Determined(Setting(Validating, graph, {})), FullyDetermined(graph));
    }
  }

  lemma NotASingleRef(s: IfFeature)
    requires !(s.yang10 && SingleRef(s.argument).Some?)
    ensures !OperatorWord(s)
  {
  }

  /**
   Acceptance is the same as having a value exactly when no feature that can be evaluated
   refers, in YANG 1.0, to a feature whose name is "not", "and" or "or".
   */
  lemma ConverseExactly(graph: FeatureGraph)
    ensures (forall s :: Accepted(graph, s) <==> FullyDefined(graph, s))
       <==> WordsUnused(graph)
  {
    hide FullyDetermined, NoOperatorWord, Accepted, FullyDefined, WordsUnused;
    if WordsUnused(graph) {
      forall s
        ensures Accepted(graph, s) <==> FullyDefined(graph, s)
      {
        AcceptedIsFullyDefined(graph, s);
      }
    } else {
      var s := UsedWordRejected(graph);
    }
  }

  lemma UsedWordRejected(graph: FeatureGraph) returns (s: IfFeature)
    requires !WordsUnused(graph)
    ensures !Accepted(graph, s) && FullyDefined(graph, s)
  {
    hide FullyDetermined, NoOperatorWord, Determined, SingleRef;
    var f :| f in FullyDetermined(graph) && f in graph && !NoOperatorWord(graph[f]);
    OperatorWordNeverValid(graph, f);
    SingleWords();
    s := IfFeature("f", true, map["f" := f]);
  }

  // ---- Stopping early

  lemma {:induction false} AllStatementsStopEarly(ss: seq<IfFeature>, known: Known)
    ensures AllStatements(ss, known).Some? ==> StatementsValue(Evaluating, ss, known) == AllStatements(ss, known)
    ensures |ss| <= 1 ==> StatementsValue(Evaluating, ss, known) == AllStatements(ss, known)
  {
    hide StatementValue;
    if ss != [] {
      AllStatementsStopEarly(ss[1..], known);
    }
  }

  ghost predicate AtMostOneEach(graph: FeatureGraph) { forall f :: f in graph ==> |graph[f]| <= 1 }

  lemma FullStepStopsEarly(graph: FeatureGraph, f: FeatureId, n: nat)
    requires AtMostOneEach(graph) && FullRound(graph, n) == Round(Setting(Evaluating, graph, graph.Keys), n)
    ensures f in FullRound(graph, n + 1) <==> f in Round(Setting(Evaluating, graph, graph.Keys), n + 1)
    ensures f in FullRound(graph, n + 1) ==>
            FullRound(graph, n + 1)[f] == Round(Setting(Evaluating, graph, graph.Keys), n + 1)[f]
  {
    hide Round, FullRound, StatementsValue, AllStatements;
    var t := Setting(Evaluating, graph, graph.Keys);
    RoundStep(t, f, n);
    FullRoundStep(graph, f, n);
    if f in graph {
      AllStatementsStopEarly(graph[f], Round(t, n));
    }
  }

  lemma {:induction false} FullRoundStopsEarly(graph: FeatureGraph, n: nat)
    requires AtMostOneEach(graph)
    ensures FullRound(graph, n) == Round(Setting(Evaluating, graph, graph.Keys), n)
  {
    hide Round, FullRound, AtMostOneEach;
    if n == 0 {
      NothingAtFirst(graph, Setting(Evaluating, graph, graph.Keys));
    } else {
      FullRoundStopsEarly(graph, n - 1);
      forall f: FeatureId
        ensures f in FullRound(graph, n) <==> f in Round(Setting(Evaluating, graph, graph.Keys), n)
        ensures f in FullRound(graph, n) ==>
                FullRound(graph, n)[f] == Round(Setting(Evaluating, graph, graph.Keys), n)[f]
      {
        FullStepStopsEarly(graph, f, n - 1);
      }
      SameMap(FullRound(graph, n), Round(Setting(Evaluating, graph, graph.Keys), n));
    }
  }

  lemma SameMap(a: Known, b: Known)
    requires forall f: FeatureId :: (f in a <==> f in b) && (f in a ==> a[f] == b[f])
    ensures a == b
  {
  }

  /**
   When no feature has more than one statement nothing can stop early, and what validation
   accepts is what has a value for every enabled set, which the set of all features decides.
   */
  lemma SingleStatementsConverse(graph: FeatureGraph, s: IfFeature)
    requires AtMostOneEach(graph) && forall f :: f in graph ==> NoOperatorWord(graph[f])
    ensures Accepted(graph, s) <==>
            StatementValue(Evaluating, s, Determined(Setting(Evaluating, graph, graph.Keys))).Some?
    ensures Accepted(graph, s) <==>
            forall enabled :: StatementValue(Evaluating, s, Determined(Setting(Evaluating, graph, enabled))).Some?
  {
    hide Round, FullRound, NoOperatorWord, StatementValue, Accepted, AtMostOneEach;
    assert WordsUnused(graph);
    FullRoundStopsEarly(graph, |graph.Keys|);
    AcceptedIsFullyDefined(graph, s);
    if Accepted(graph, s) {
      forall enabled
        ensures StatementValue(Evaluating, s, Determined(Setting(Evaluating, graph, enabled))).Some?
      {
        ValidationImpliesDefined(graph, s, enabled);
      }
    }
  }

  /** Statements of a feature 0: it needs g absent, g present and a feature that does not exist. */
  function Contradictory(): seq<IfFeature> {
    [IfFeature(Render([Not, Ident("g")]), false, map["g" := 1]),
     IfFeature("g", false, map["g" := 1]),
     IfFeature("unknown", false, map[])]
  }

  function ContradictoryGraph(): FeatureGraph { map[0 := Contradictory(), 1 := []] }

  lemma ContradictoryTokens()
    ensures Tokenize(Render([Not, Ident("g")])) == Some([Not, Ident("g")])
    ensures Tokenize("g") == Some([Ident("g")]) && Tokenize("unknown") == Some([Ident("unknown")])
  {
    hide ColonParts, Tokenize, Render, SingleRef, ValidIfFeatureRef;
    OneWord("g");
    OneWord("unknown");
    SingleRefIsOneToken("g");
    SingleRefIsOneToken("unknown");
    assert Writable(Ident("g")) by { assert WordToken("g") == Some(Ident("g")); }
    TokenizeRender([Not, Ident("g")]);
  }

  lemma NegationEvaluates(name: string, o: Oracle)
    ensures Evaluate([Not, Ident(name)], o) == NotValue(o(name))
  {
    hide Evaluate;
    var inner := Ref(name);
    var e := LastTerm(LastFactor(Negated(inner)));
    assert FactorTokens(inner) == [Ident(name)] && FactorValue(inner, o) == o(name);
    assert FactorTokens(Negated(inner)) == [Not, Ident(name)] && FactorValue(Negated(inner), o) == NotValue(o(name));
    assert TermTokens(LastFactor(Negated(inner))) == [Not, Ident(name)];
    assert ExprTokens(e) == [Not, Ident(name)];
    DerivationEvaluates([Not, Ident(name)], e, o);
  }

  /** Reading past a statement that fails makes the difference: the first two cannot both hold. */
  lemma ContradictoryValues(known: Known)
    requires 1 in known
    ensures StatementsValue(Evaluating, Contradictory(), known) == Some(false)
    ensures StatementsValue(Validating, Contradictory(), known) == None
  {
    hide Evaluate, Tokenize, SingleRef, Render;
    ContradictoryTokens();
    var ss := Contradictory();
    NegationEvaluates("g", Names(ss[0].scope, known));
    SingleTokenEvaluates(Ident("g"), Names(ss[1].scope, known));
    SingleTokenEvaluates(Ident("unknown"), Names(ss[2].scope, known));
    assert ss[1..][0] == ss[1] && ss[1..][1..] == [ss[2]] && [ss[2]][0] == ss[2];
    assert StatementsValue(Validating, [ss[2]], known) == None;
    assert StatementsValue(Validating, ss[1..], known) == None;
  }

  /** A statement defined for every enabled set and rejected although nothing is named by an operator word. */
  lemma StopsEarlyButRejected()
    ensures forall f :: f in ContradictoryGraph() ==> NoOperatorWord(ContradictoryGraph()[f])
    ensures var s := IfFeature("f", true, map["f" := 0]);
            && !Accepted(ContradictoryGraph(), s)
            && forall enabled :: StatementValue(Evaluating, s,
                                                Determined(Setting(Evaluating, ContradictoryGraph(), enabled))).Some?
  {
    hide Determined, Evaluate, Tokenize, SingleRef, Render, StatementsValue, Contradictory;
    SingleWords();
    ContradictoryHasValue(Setting(Validating, ContradictoryGraph(), {}));
    forall enabled
      ensures 0 in Determined(Setting(Evaluating, ContradictoryGraph(), enabled))
    {
      ContradictoryHasValue(Setting(Evaluating, ContradictoryGraph(), enabled));
    }
    ContradictoryHasNoOperatorWord();
  }

  lemma ContradictoryHasNoOperatorWord()
    ensures NoOperatorWord(Contradictory())
  {
  }

  lemma ContradictoryHasValue(t: Setting)
    requires t.graph == ContradictoryGraph()
    ensures 0 in Determined(t) <==> t.mode.Evaluating?
  {
    hide Determined, StatementValue, Contradictory;
    DeterminedIsSolution(t);
    var known := Determined(t);
    assert t.graph[1] == [] && FeatureValue(t, 1, known).Some?;
    ContradictoryValues(known);
    assert t.graph[0] == Contradictory();
    assert FeatureValue(t, 0, known).Some? <==> t.mode.Evaluating?;
  }

  // ---- An operator word

  /** A YANG 1.0 feature that depends on one named "not". */
  function NotNamed(): IfFeature { IfFeature("not", true, map["not" := 1]) }

  function NotNamedGraph(): FeatureGraph { map[0 := [NotNamed()], 1 := []] }

  lemma NotNamedRejected(t: Setting)
    requires t.mode.Validating? && t.graph == NotNamedGraph()
    ensures 0 !in Determined(t)
  {
    hide Determined, Evaluate, Tokenize, SingleRef;
    SingleWords();
    DeterminedIsSolution(t);
    var inner, known := NotNamed(), Determined(t);
    SingleTokenEvaluates(Not, Names(inner.scope, known));
    assert StatementValue(Validating, inner, known).None?;
    assert t.graph[0] == [inner];
    OneStatement(Validating, inner, known);
    assert FeatureValue(t, 0, known).None?;
  }

  lemma OneStatement(mode: Mode, s: IfFeature, known: Known)
    ensures StatementsValue(mode, [s], known).Some? <==> StatementValue(mode, s, known).Some?
  {
    hide StatementValue;
    assert [s][1..] == [];
  }

  lemma NotNamedDefined(t: Setting)
    requires t.mode.Evaluating? && t.graph == NotNamedGraph()
    ensures 0 in Determined(t)
  {
    hide Determined, Evaluate, Tokenize, SingleRef;
    SingleWords();
    DeterminedIsSolution(t);
    var inner, known := NotNamed(), Determined(t);
    assert t.graph[1] == [] && FeatureValue(t, 1, known).Some?;
    assert StatementValue(Evaluating, inner, known).Some?;
    assert t.graph[0] == [inner];
    OneStatement(Evaluating, inner, known);
    assert FeatureValue(t, 0, known).Some?;
  }

  /**
   In YANG 1.0 a feature may be named "not"; a feature that depends on it can always be
   evaluated, but validating a reference to that feature reads the word as the operator and
   rejects it.
   */
  lemma DefinedButRejected()
    ensures var s := IfFeature("f", true, map["f" := 0]);
            && !Accepted(NotNamedGraph(), s)
            && forall enabled :: StatementValue(Evaluating, s,
                                                Determined(Setting(Evaluating, NotNamedGraph(), enabled))).Some?
  {
    hide Determined, Evaluate, Tokenize, SingleRef, NotNamedGraph;
    SingleWords();
    NotNamedRejected(Setting(Validating, NotNamedGraph(), {}));
    forall enabled
      ensures 0 in Determined(Setting(Evaluating, NotNamedGraph(), enabled))
    {
      NotNamedDefined(Setting(Evaluating, NotNamedGraph(), enabled));
    }
  }

  lemma SingleWords()
    ensures SingleRef("f") == Some("f") && SingleRef("not") == Some("not") && Tokenize("not") == Some([Not])
  {
    hide SingleRef, ColonParts, Tokenize;
    OneWord("f");
    OneWord("not");
    SingleRefIsOneToken("not");
  }

  lemma OneWord(s: string)
    requires ValidIdentifier(s) && ':' !in s
    ensures SingleRef(s) == Some(s)
  {
    hide ColonParts, Trim, ValidIdentifier;
    IdentifierTrims(s);
    OnePart(s);
  }

  lemma IdentifierTrims(s: string)
    requires ValidIdentifier(s)
    ensures Trim(s) == s
  {
    assert s[|s| - 1] in s;
    assert !IsSpace(s[0]) && !IsSpace(s[|s| - 1]);
    assert TrimLeft(s) == s;
    assert TrimRight(s) == s;
  }

  lemma {:induction false} OnePart(s: string)
    requires ':' !in s
    ensures ColonParts(s) == [s]
  {
    if s != "" {
      assert s == [s[0]] + s[1..] && s[0] != ':';
      OnePart(s[1..]);
      assert [[s[0]] + s[1..]] + [s[1..]][1..] == [s];
    }
  }
}
