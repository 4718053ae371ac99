/** The recursive evaluator and validator of features, with their parser objects and per-rebuild memos. */
module FeatureResolution {
  import opened Common
  import opened IfFeatureTokens
  import opened IfFeatureGrammar
  import opened Features
  import LeastSolutions

  /** Whatever r knows is what up knows, and r knows at least what low knows. */
  ghost predicate Between<T(!new)>(r: Option<T>, low: Option<T>, up: Option<T>) {
    (r.Some? ==> up == r) && (low.Some? ==> r == low)
  }

  ghost predicate ParsesBetween(r: Parse, low: Parse, up: Parse) {
    (r.Parsed? ==> up == r) && (low.Parsed? ==> r == low)
  }

  /** The state of one rebuild: the features, the memos, and the features whose resolution is under way. */
  class FeatureResolver {
    const graph: FeatureGraph
    const enabled: set<FeatureId>
    // Outside a rebuild there are no memos: lookups miss and nothing is stored.
    const memoizing: bool
    var featureEnabled: Known
    var validFeatures: set<FeatureId>
    var resolving: set<FeatureId>

    constructor (graph: FeatureGraph, enabled: set<FeatureId>, memoizing: bool)
      requires WellFormed(graph)
      ensures this.graph == graph && this.enabled == enabled && this.memoizing == memoizing
      ensures Sound() && resolving == {}
    {
      this.graph, this.enabled, this.memoizing := graph, enabled, memoizing;
      featureEnabled, validFeatures, resolving := map[], {}, {};
    }

    function For(mode: Mode): Setting { Setting(mode, graph, enabled) }

    /** The memos hold only what the definitions determine. */
    ghost predicate Sound()
      reads this
    {
      && WellFormed(graph)
      && LeastSolutions.Agrees(featureEnabled, Determined(For(Evaluating)))
      && validFeatures <= Determined(For(Validating)).Keys
    }

    /** No feature that gets a value within n rounds is being resolved. */
    ghost predicate Clear(mode: Mode, n: nat)
      reads this
    {
      resolving !! Round(For(mode), n).Keys
    }

    function MemoOf(mode: Mode, f: FeatureId): Option<bool>
      reads this
    {
      if mode.Evaluating? then if f in featureEnabled then Some(featureEnabled[f]) else None
      else if f in validFeatures then Some(true) else None
    }

    method Remember(mode: Mode, f: FeatureId, value: bool)
      requires Sound() && f in Determined(For(mode)) && Determined(For(mode))[f] == value
      modifies this`featureEnabled, this`validFeatures
      ensures Sound()
    {
      hide Determined;
      if memoizing {
        if mode.Evaluating? {
          featureEnabled := featureEnabled[f := value];
        } else {
          validFeatures := validFeatures + {f};
        }
      }
    }

    /** The value of the feature that name refers to, or None if that cannot be told from here. */
    method ResolveFeature(mode: Mode, scope: map<string, FeatureId>, name: string, ghost n: nat)
      returns (r: Option<bool>)
      requires Sound() && Clear(mode, n) && ScopeInside(scope, graph)
      modifies this
      ensures Sound() && resolving == old(resolving)
      ensures Between(r, Lookup(scope, Round(For(mode), n), name), Lookup(scope, Determined(For(mode)), name))
      decreases graph.Keys - resolving, 0, 0
    {
      hide Determined, Round, WellFormed, FeatureValue;
      ghost var t := For(mode);
      if name !in scope {
        return None;
      }
      var f := scope[name];
      DeterminedIsSolution(t);
      RoundsAreDetermined(t, n);
      if mode.Evaluating? && f !in enabled {
        DisabledIsKnown(t, f);
        return Some(false);
      }
      if f in resolving {
        return None;
      }
      var memo := MemoOf(mode, f);
      if memo.Some? {
        ValidIsTrue(t);
        return memo;
      }
      ghost var m := FreshRound(t, f, n, resolving);
      resolving := resolving + {f};
      r := ResolveStatements(mode, f, m);
      resolving := resolving - {f};
      assert resolving == old(resolving);
      StatementsDecide(t, f, n, m, r);
      if r.Some? {
        Remember(mode, f, r.value);
      }
    }

    /** The conjunction of the if-feature statements of f, while f is marked as being resolved. */
    method ResolveStatements(mode: Mode, f: FeatureId, ghost n: nat) returns (r: Option<bool>)
      requires Sound() && Clear(mode, n) && f in graph
      modifies this
      ensures Sound() && resolving == old(resolving)
      ensures Between(r, StatementsValue(mode, graph[f], Round(For(mode), n)),
                      StatementsValue(mode, graph[f], Determined(For(mode))))
      decreases graph.Keys - resolving, 3, 0
    {
      hide Determined, Round, StatementValue;
      ghost var low, up := Round(For(mode), n), Determined(For(mode));
      var ss := graph[f];
      var i := 0;
      while i < |ss|
        invariant 0 <= i <= |ss|
        invariant Sound() && resolving == old(resolving)
        invariant StatementsValue(mode, ss, up) == StatementsValue(mode, ss[i..], up)
        invariant StatementsValue(mode, ss, low).Some? ==>
                  StatementsValue(mode, ss, low) == StatementsValue(mode, ss[i..], low)
      {
        assert ss[i..][0] == ss[i] && ss[i..][1..] == ss[i + 1..] && ss[i] in graph[f];
        var holds := ResolveStatement(mode, ss[i], n);
        if holds.None? || (mode.Evaluating? && !holds.value) {
          return holds;
        }
        i := i + 1;
      }
      r := Some(true);
    }

    /** The value of one if-feature statement. */
    method ResolveStatement(mode: Mode, s: IfFeature, ghost n: nat) returns (r: Option<bool>)
      requires Sound() && Clear(mode, n) && ScopeInside(s.scope, graph)
      modifies this
      ensures Sound() && resolving == old(resolving)
      ensures Between(r, StatementValue(mode, s, Round(For(mode), n)), StatementValue(mode, s, Determined(For(mode))))
      decreases graph.Keys - resolving, 2, 0
    {
      hide Determined, Round, Lookup, WellFormed, SingleRef, Tokenize, ParseOr;
      var single := if mode.Evaluating? && s.yang10 then SingleRef(s.argument) else None;
      if single.Some? {
        r := ResolveFeature(mode, s.scope, single.value, n);
        return;
      }
      var tokens := TokenizeIfFeatureExpr(s.argument);
      if tokens.None? {
        return None;
      }
      var parser := new IfFeatureParser(this, mode, s.scope, tokens.value);
      var value, ok := parser.ParseOr(n);
      r := if ok && parser.pos == |tokens.value| then Some(value) else None;
    }

    /** Whether a statement holds: its exact determined value, with the memos or without them. */
    method EvalIfFeature(s: IfFeature) returns (r: Option<bool>)
      requires Sound() && resolving == {} && ScopeInside(s.scope, graph)
      modifies this
      ensures Sound() && resolving == {}
      ensures r == StatementValue(Evaluating, s, Determined(For(Evaluating)))
    {
      hide StatementValue, Round;
      r := ResolveStatement(Evaluating, s, |graph.Keys|);
    }

    /** Whether a feature is enabled and known from the top level: exactly its determined value. */
    method FeatureEnabled(scope: map<string, FeatureId>, name: string) returns (r: Option<bool>)
      requires Sound() && resolving == {} && ScopeInside(scope, graph)
      modifies this
      ensures Sound() && resolving == {}
      ensures r == Lookup(scope, Determined(For(Evaluating)), name)
    {
      hide Lookup, Round;
      r := ResolveFeature(Evaluating, scope, name, |graph.Keys|);
    }

    /** Whether a statement is accepted by validation. */
    method ValidateIfFeature(s: IfFeature) returns (valid: bool)
      requires Sound() && resolving == {} && ScopeInside(s.scope, graph)
      modifies this
      ensures Sound() && resolving == {}
      ensures valid <==> Accepted(graph, s)
    {
      hide StatementValue, Lookup, Round, SingleRef;
      DeterminedIgnoresEnabled(graph, {}, enabled);
      if s.yang10 && SingleRef(s.argument).Some? {
        var r := ResolveFeature(Validating, s.scope, SingleRef(s.argument).value, |graph.Keys|);
        valid := r.Some?;
      } else {
        var r := ResolveStatement(Validating, s, |graph.Keys|);
        valid := r.Some?;
      }
    }
  }

  /** What validation accepts at the top level; there a YANG 1.0 argument is a single name. */
  ghost predicate Accepted(graph: FeatureGraph, s: IfFeature) {
    var valid := Determined(Setting(Validating, graph, {}));
    if s.yang10 && SingleRef(s.argument).Some? then Lookup(s.scope, valid, SingleRef(s.argument).value).Some?
    else StatementValue(Validating, s, valid).Some?
  }

  lemma DeterminedIgnoresEnabled(graph: FeatureGraph, a: set<FeatureId>, b: set<FeatureId>)
    ensures Determined(Setting(Validating, graph, a)) == Determined(Setting(Validating, graph, b))
  {
    RoundIgnoresEnabled(graph, a, b, |graph.Keys|);
  }

  lemma {:induction false} RoundIgnoresEnabled(graph: FeatureGraph, a: set<FeatureId>, b: set<FeatureId>, n: nat)
    ensures Round(Setting(Validating, graph, a), n) == Round(Setting(Validating, graph, b), n)
  {
    hide StatementsValue;
    if n > 0 {
      RoundIgnoresEnabled(graph, a, b, n - 1);
      var s, t := Setting(Validating, graph, a), Setting(Validating, graph, b);
      assert forall f :: f in graph ==> FeatureValue(s, f, Round(s, n - 1)) == FeatureValue(t, f, Round(t, n - 1));
    }
  }

  lemma DisabledIsKnown(t: Setting, f: FeatureId)
    requires t.mode.Evaluating? && f in t.graph && f !in t.enabled
    ensures f in Determined(t) && !Determined(t)[f]
  {
    hide Determined;
    DeterminedIsSolution(t);
  }

  /** Validation never gives a feature the value false. */
  lemma ValidIsTrue(t: Setting)
    ensures t.mode.Validating? ==> forall f :: f in Determined(t) ==> Determined(t)[f]
  {
    hide Determined, StatementsValue;
    DeterminedIsSolution(t);
    if t.mode.Validating? {
      forall f | f in Determined(t)
        ensures Determined(t)[f]
      {
        StatementsValidOrNone(t.graph[f], Determined(t));
      }
    }
  }

  lemma {:induction false} StatementsValidOrNone(ss: seq<IfFeature>, known: Known)
    ensures StatementsValue(Validating, ss, known).Some? ==> StatementsValue(Validating, ss, known) == Some(true)
  {
    hide StatementValue;
    if ss != [] {
      StatementsValidOrNone(ss[1..], known);
    }
  }

  /** A round that has no feature in r and not f either, but whose successor has f if round n has. */
  lemma {:induction false} FreshRound(t: Setting, f: FeatureId, n: nat, r: set<FeatureId>) returns (m: nat)
    requires r !! Round(t, n).Keys
    ensures r + {f} !! Round(t, m).Keys
    ensures f in Round(t, n) ==> f in Round(t, m + 1) && Round(t, m + 1)[f] == Round(t, n)[f]
  {
    hide Round;
    if f in Round(t, n) {
      m := FirstRound(t, f, n);
      RoundsGrowFrom(t, m, n);
    } else {
      m := n;
    }
  }

  /** The value of a feature that is not disabled is that of its statements. */
  lemma StatementsDecide(t: Setting, f: FeatureId, n: nat, m: nat, r: Option<bool>)
    requires f in t.graph && (t.mode.Evaluating? ==> f in t.enabled)
    requires f in Round(t, n) ==> f in Round(t, m + 1) && Round(t, m + 1)[f] == Round(t, n)[f]
    requires Between(r, StatementsValue(t.mode, t.graph[f], Round(t, m)),
                     StatementsValue(t.mode, t.graph[f], Determined(t)))
    ensures Between(r, if f in Round(t, n) then Some(Round(t, n)[f]) else None,
                    if f in Determined(t) then Some(Determined(t)[f]) else None)
  {
    hide Determined, StatementsValue;
    DeterminedIsSolution(t);
  }

  /** One parse of one argument; validateOnly of the original is the mode. */
  class IfFeatureParser {
    const resolver: FeatureResolver
    const mode: Mode
    const scope: map<string, FeatureId>
    const tokens: seq<Token>
    var pos: nat

    constructor (resolver: FeatureResolver, mode: Mode, scope: map<string, FeatureId>, tokens: seq<Token>)
      ensures this.resolver == resolver && this.mode == mode && this.scope == scope && this.tokens == tokens && pos == 0
    {
      this.resolver, this.mode, this.scope, this.tokens := resolver, mode, scope, tokens;
      pos := 0;
    }

    ghost function Low(n: nat): Oracle { Names(scope, Round(resolver.For(mode), n)) }

    ghost function Up(): Oracle { Names(scope, Determined(resolver.For(mode))) }

    ghost predicate Ready(n: nat)
      reads this, resolver
    {
      resolver.Sound() && resolver.Clear(mode, n) && ScopeInside(scope, resolver.graph)
    }

    static ghost function Result(value: bool, ok: bool, pos: nat): Parse {
      if ok then Parsed(value, pos) else Fail
    }

    method ParseOr(ghost n: nat) returns (value: bool, ok: bool)
      requires Ready(n)
      modifies this, resolver
      ensures Ready(n) && resolver.resolving == old(resolver.resolving)
      ensures ParsesBetween(Result(value, ok, pos), IfFeatureGrammar.ParseOr(tokens, old(pos), Low(n)),
                            IfFeatureGrammar.ParseOr(tokens, old(pos), Up()))
      decreases resolver.graph.Keys - resolver.resolving, 1, |tokens| - pos, 4
    {
      hide IfFeatureGrammar.ParseAnd, Low, Up;
      ghost var low, up := Low(n), Up();
      ghost var start := pos;
      value, ok := ParseAnd(n);
      if !ok {
        return false, false;
      }
      while pos < |tokens| && tokens[pos] == Or
        invariant ok && start < pos <= |tokens| && Ready(n) && resolver.resolving == old(resolver.resolving)
        invariant IfFeatureGrammar.ParseOr(tokens, start, up) == OrRest(tokens, pos, value, up)
        invariant IfFeatureGrammar.ParseOr(tokens, start, low).Parsed? ==>
                  IfFeatureGrammar.ParseOr(tokens, start, low) == OrRest(tokens, pos, value, low)
      {
        pos := pos + 1;
        var right, rightOk := ParseAnd(n);
        if !rightOk {
          return false, false;
        }
        value := value || right;
      }
    }

    method ParseAnd(ghost n: nat) returns (value: bool, ok: bool)
      requires Ready(n)
      modifies this, resolver
      ensures Ready(n) && resolver.resolving == old(resolver.resolving)
      ensures ParsesBetween(Result(value, ok, pos), IfFeatureGrammar.ParseAnd(tokens, old(pos), Low(n)),
                            IfFeatureGrammar.ParseAnd(tokens, old(pos), Up()))
      decreases resolver.graph.Keys - resolver.resolving, 1, |tokens| - pos, 3
    {
      hide IfFeatureGrammar.ParseNot, Low, Up;
      ghost var low, up := Low(n), Up();
      ghost var start := pos;
      value, ok := ParseNot(n);
      if !ok {
        return false, false;
      }
      while pos < |tokens| && tokens[pos] == And
        invariant ok && start < pos <= |tokens| && Ready(n) && resolver.resolving == old(resolver.resolving)
        invariant IfFeatureGrammar.ParseAnd(tokens, start, up) == AndRest(tokens, pos, value, up)
        invariant IfFeatureGrammar.ParseAnd(tokens, start, low).Parsed? ==>
                  IfFeatureGrammar.ParseAnd(tokens, start, low) == AndRest(tokens, pos, value, low)
      {
        pos := pos + 1;
        var right, rightOk := ParseNot(n);
        if !rightOk {
          return false, false;
        }
        value := value && right;
      }
    }

    method ParseNot(ghost n: nat) returns (value: bool, ok: bool)
      requires Ready(n)
      modifies this, resolver
      ensures Ready(n) && resolver.resolving == old(resolver.resolving)
      ensures ParsesBetween(Result(value, ok, pos), IfFeatureGrammar.ParseNot(tokens, old(pos), Low(n)),
                            IfFeatureGrammar.ParseNot(tokens, old(pos), Up()))
      decreases resolver.graph.Keys - resolver.resolving, 1, |tokens| - pos, 2
    {
      hide IfFeatureGrammar.ParsePrimary, Low, Up;
      if pos < |tokens| && tokens[pos] == Not {
        pos := pos + 1;
        value, ok := ParseNot(n);
        value := !value;
      } else {
        value, ok := ParsePrimary(n);
      }
    }

    method ParsePrimary(ghost n: nat) returns (value: bool, ok: bool)
      requires Ready(n)
      modifies this, resolver
      ensures Ready(n) && resolver.resolving == old(resolver.resolving)
      ensures ParsesBetween(Result(value, ok, pos), IfFeatureGrammar.ParsePrimary(tokens, old(pos), Low(n)),
                            IfFeatureGrammar.ParsePrimary(tokens, old(pos), Up()))
      decreases resolver.graph.Keys - resolver.resolving, 1, |tokens| - pos, 1
    {
      hide IfFeatureGrammar.ParseOr, Round, Determined;
      if pos >= |tokens| {
        return false, false;
      }
      match tokens[pos] {
        case Ident(text) =>
          pos := pos + 1;
          var r := resolver.ResolveFeature(mode, scope, text, n);
          ok := r.Some?;
          value := ok && r.value;
        case LParen =>
          pos := pos + 1;
          value, ok := ParseOr(n);
          if !ok || !(pos < |tokens| && tokens[pos] == RParen) {
            return false, false;
          }
          pos := pos + 1;
        case _ =>
          return false, false;
      }
    }
  }
}
