/** Chains of typedefs: each level admits only values of the level below, and cycles never resolve. */
module TypedefChains {
  import opened Common
  import opened RangeBounds
  import opened Typedefs
  import LeastSolutions

  /** A reference names td, possibly inside a union. */
  ghost predicate Mentions(stmt: TypeStmt, td: TypedefId) {
    match stmt
    case Named(target, _) => target == td
    case UnionOf(ms) => exists m :: m in ms && Mentions(m, td)
    case _ => false
  }

  ghost predicate Refers(graph: TypedefGraph, a: TypedefId, b: TypedefId) {
    a in graph && graph[a].Some? && Mentions(graph[a].value, b)
  }

  /** Consecutive typedefs of path refer to one another. */
  ghost predicate RefersAlong(graph: TypedefGraph, path: seq<TypedefId>) {
    forall i :: 0 <= i < |path| - 1 ==> Refers(graph, path[i], path[i + 1])
  }

  // ---- Cycles

  lemma {:induction false} MentionedIsKnown(stmt: TypeStmt, td: TypedefId, known: Types)
    requires TypeValue(stmt, known).Some? && Mentions(stmt, td)
    ensures td in known
  {
    hide ApplyTypeRestrictions, Narrowed;
    if stmt.UnionOf? {
      var m :| m in stmt.members && Mentions(m, td);
      MemberValue(stmt.members, m, known);
      MentionedIsKnown(m, td, known);
    }
  }

  lemma {:induction false} MemberValue(ms: seq<TypeStmt>, m: TypeStmt, known: Types)
    requires MembersValue(ms, known).Some? && m in ms
    ensures TypeValue(m, known).Some?
  {
    hide TypeValue;
    if m != ms[0] {
      MemberValue(ms[1..], m, known);
    }
  }

  lemma ReferredEarlier(graph: TypedefGraph, a: TypedefId, b: TypedefId, n: nat)
    requires a in Round(graph, n) && Refers(graph, a, b)
    ensures n > 0 && b in Round(graph, n - 1)
  {
    hide Round, TypeValue, Mentions;
    if n == 0 {
      NothingInRoundZero(graph);
    } else {
      RoundStep(graph, a, n - 1);
      MentionedIsKnown(graph[a].value, b, Round(graph, n - 1));
    }
  }

  lemma {:induction false} PathTakesRounds(graph: TypedefGraph, path: seq<TypedefId>, n: nat)
    requires |path| > 0 && path[0] in Round(graph, n) && RefersAlong(graph, path)
    ensures |path| - 1 <= n && path[|path| - 1] in Round(graph, n - (|path| - 1))
    decreases |path|
  {
    hide Round, Refers;
    if |path| > 1 {
      assert path[0 + 1] == path[1];
      ReferredEarlier(graph, path[0], path[1], n);
      forall i | 0 <= i < |path[1..]| - 1
        ensures Refers(graph, path[1..][i], path[1..][i + 1])
      {
        assert Refers(graph, path[i + 1], path[i + 1 + 1]);
      }
      PathTakesRounds(graph, path[1..], n - 1);
    }
  }

  /** Nothing resolves from which a cycle can be reached, wherever resolution starts. */
  lemma CyclesNeverResolve(graph: TypedefGraph, path: seq<TypedefId>, cycle: seq<TypedefId>)
    requires |path| > 0 && RefersAlong(graph, path)
    requires |cycle| > 1 && cycle[0] == cycle[|cycle| - 1] == path[|path| - 1] && RefersAlong(graph, cycle)
    ensures path[0] !in Determined(graph)
  {
    hide Round, RefersAlong;
    if path[0] in Determined(graph) {
      PathTakesRounds(graph, path, |graph.Keys|);
      var m := FirstRound(graph, cycle[0], |graph.Keys| - (|path| - 1));
      PathTakesRounds(graph, cycle, m + 1);
      RoundsGrowFrom(graph, m + 1 - (|cycle| - 1), m);
      assert false;
    }
  }

  // ---- Narrowing

  lemma SubsetTransitive(a: seq<RangeBound>, b: seq<RangeBound>, c: seq<RangeBound>, base: Base)
    requires Subset(a, b, base) && Subset(b, c, base)
    ensures Subset(a, c, base)
  {
    hide Admits;
  }

  /** The typedefs below a restricted type, each given by its memo entry. */
  ghost predicate NarrowsAlong(info: TypeInfo, known: Types) {
    info.resolved.Restricted? ==>
      forall i :: 0 <= i < |info.chain| ==>
        && info.chain[i] in known
        && var below := known[info.chain[i]];
           && below.resolved.Restricted? && below.resolved.base == info.resolved.base
           && below.chain == info.chain[i + 1..]
           && Subset(info.resolved.bounds, below.resolved.bounds, info.resolved.base)
  }

  lemma {:induction false} AppliedNarrows(info: TypeInfo, td: TypedefId, restriction: Restriction, known: Types)
    requires td in known && known[td] == info && InfoProper(info) && NarrowsAlong(info, known)
    requires ApplyTypeRestrictions(info, td, restriction).Some?
    ensures NarrowsAlong(ApplyTypeRestrictions(info, td, restriction).value, known)
  {
    hide Narrowed, Proper, Increasing, Subset;
    if info.resolved.Restricted? {
      var base := info.resolved.base;
      NarrowedNarrows(restriction, base, info.resolved.bounds);
      var r := ApplyTypeRestrictions(info, td, restriction).value;
      forall i | 0 <= i < |r.chain|
        ensures r.chain[i] in known
        ensures var below := known[r.chain[i]];
                && below.resolved.Restricted? && below.resolved.base == base && below.chain == r.chain[i + 1..]
                && Subset(r.resolved.bounds, below.resolved.bounds, base)
      {
        if i > 0 {
          assert r.chain[i] == info.chain[i - 1] && r.chain[i + 1..] == info.chain[i..];
          SubsetTransitive(r.resolved.bounds, info.resolved.bounds, known[r.chain[i]].resolved.bounds, base);
        }
      }
    }
  }

  lemma TypeNarrows(stmt: TypeStmt, known: Types)
    requires TypeValue(stmt, known).Some? && AllProper(known)
    requires forall td :: td in known ==> NarrowsAlong(known[td], known)
    ensures NarrowsAlong(TypeValue(stmt, known).value, known)
  {
    hide Narrowed, ApplyTypeRestrictions, InfoProper, NarrowsAlong;
    if stmt.Named? {
      AppliedNarrows(known[stmt.target], stmt.target, stmt.restriction, known);
    } else {
      EmptyChainNarrows(TypeValue(stmt, known).value, known);
    }
  }

  lemma EmptyChainNarrows(info: TypeInfo, known: Types)
    requires info.chain == []
    ensures NarrowsAlong(info, known)
  {
  }

  lemma NarrowsMonotone(info: TypeInfo, a: Types, b: Types)
    requires NarrowsAlong(info, a) && LeastSolutions.Agrees(a, b)
    ensures NarrowsAlong(info, b)
  {
    hide Subset;
  }

  lemma {:induction false} RoundNarrows(graph: TypedefGraph, n: nat)
    requires WellFormed(graph)
    ensures forall td :: td in Round(graph, n) ==> NarrowsAlong(Round(graph, n)[td], Round(graph, n))
  {
    hide Round, NarrowsAlong, TypeValue;
    if n == 0 {
      NothingInRoundZero(graph);
    } else {
      RoundNarrows(graph, n - 1);
      RoundProper(graph, n - 1);
      RoundsGrowFrom(graph, n - 1, n);
      forall td | td in Round(graph, n)
        ensures NarrowsAlong(Round(graph, n)[td], Round(graph, n))
      {
        RoundStep(graph, td, n - 1);
        TypeNarrows(graph[td].value, Round(graph, n - 1));
        NarrowsMonotone(Round(graph, n)[td], Round(graph, n - 1), Round(graph, n));
      }
    }
  }

  /**
   However a type is reached through typedefs, its values are values of every typedef on
   the way; the typedefs of an integer type list theirs in increasing order.
   */
  lemma ChainNarrows(graph: TypedefGraph, stmt: TypeStmt)
    requires WellFormed(graph) && Resolvable(stmt, graph) && TypeValue(stmt, Determined(graph)).Some?
    ensures NarrowsAlong(TypeValue(stmt, Determined(graph)).value, Determined(graph))
    ensures InfoProper(TypeValue(stmt, Determined(graph)).value) && AllProper(Determined(graph))
  {
    hide Round, NarrowsAlong, TypeValue, InfoProper, Resolvable;
    RoundNarrows(graph, |graph.Keys|);
    RoundProper(graph, |graph.Keys|);
    TypeNarrows(stmt, Determined(graph));
    TypeValueProper(stmt, graph, Determined(graph));
  }

  /** Where an integer typedef is used, min and max read as the least and the greatest of its values. */
  lemma KeywordsOfTypedef(graph: TypedefGraph, td: TypedefId)
    requires WellFormed(graph) && td in Determined(graph)
    requires Determined(graph)[td].resolved.Restricted? && !Determined(graph)[td].resolved.base.keepsWords
    ensures var t := Determined(graph)[td].resolved;
            var min, max := NormalizeBound(Written(MinWord), t.base, t.bounds),
                NormalizeBound(Written(MaxWord), t.base, t.bounds);
            && min.Some? && max.Some? && min.value.Lit? && max.value.Lit?
            && Admits(t.bounds, t.base, min.value.value) && Admits(t.bounds, t.base, max.value.value)
            && forall v :: Admits(t.bounds, t.base, v) ==> min.value.value <= v <= max.value.value
  {
    hide Round, Proper, Increasing, Admits;
    RoundProper(graph, |graph.Keys|);
    var t := Determined(graph)[td].resolved;
    assert InfoProper(Determined(graph)[td]);
    KeywordsAreEnds(t.base, t.bounds);
    NormalizedInBase(Written(MinWord), t.base, t.bounds);
    NormalizedInBase(Written(MaxWord), t.base, t.bounds);
  }
}
