/**
 Typedef resolution over typedefs that may refer to one another in cycles, with the
 set of typedefs being resolved and, during a rebuild, a memo of finished ones.
 */
module Typedefs {
  import opened Common
  import opened YangRanges
  import opened RangeBounds
  import LeastSolutions

  type TypedefId = nat

  /** A type statement, with the typedef its name resolves to where it stands. */
  datatype TypeStmt =
    | Builtin(base: Base, restriction: Restriction)
    | OtherBuiltin(accepted: bool)
    | UnionOf(members: seq<TypeStmt>)
    | Named(target: TypedefId, restriction: Restriction)
    | UnknownName

  datatype ResolvedType =
    | Restricted(base: Base, bounds: seq<RangeBound>)
    | Unrestricted
    | Members(members: seq<TypeInfo>)

  /** A resolved type and the typedefs it was reached through, outermost first. */
  datatype TypeInfo = TypeInfo(resolved: ResolvedType, chain: seq<TypedefId>)

  /** Each typedef's type statement; None if it has not exactly one, or too many defaults. */
  type TypedefGraph = map<TypedefId, Option<TypeStmt>>

  type Types = map<TypedefId, TypeInfo>

  ghost predicate Resolvable(stmt: TypeStmt, graph: TypedefGraph) {
    match stmt
    case Builtin(base, _) => ValidBase(base)
    case UnionOf(ms) => forall m :: m in ms ==> Resolvable(m, graph)
    case Named(td, _) => td in graph
    case _ => true
  }

  ghost predicate WellFormed(graph: TypedefGraph) {
    forall td :: td in graph && graph[td].Some? ==> Resolvable(graph[td].value, graph)
  }

  // ---- The defining equations

  /** The restrictions written where a typedef is used, applied to what the typedef stands for. */
  ghost function ApplyTypeRestrictions(info: TypeInfo, td: TypedefId, restriction: Restriction): Option<TypeInfo> {
    match info.resolved
    case Restricted(base, bounds) =>
      (match Narrowed(restriction, base, bounds)
       case None => None
       case Some(bs) => Some(TypeInfo(Restricted(base, bs), [td] + info.chain)))
    case _ => if restriction.Some? then None else Some(TypeInfo(info.resolved, [td] + info.chain))
  }

  /** What a type statement resolves to when exactly the typedefs in known are resolved. */
  ghost function TypeValue(stmt: TypeStmt, known: Types): Option<TypeInfo> {
    match stmt
    case Builtin(base, restriction) =>
      (match Narrowed(restriction, base, [])
       case None => None
       case Some(bs) => Some(TypeInfo(Restricted(base, bs), [])))
    case OtherBuiltin(accepted) => if accepted then Some(TypeInfo(Unrestricted, [])) else None
    case UnionOf(ms) =>
      if ms == [] then None
      else (match MembersValue(ms, known)
            case None => None
            case Some(infos) => Some(TypeInfo(Members(infos), [])))
    case Named(td, restriction) => if td in known then ApplyTypeRestrictions(known[td], td, restriction) else None
    case UnknownName => None
  }

  ghost function MembersValue(ms: seq<TypeStmt>, known: Types): Option<seq<TypeInfo>> {
    if ms == [] then Some([])
    else match TypeValue(ms[0], known)
      case None => None
      case Some(info) =>
        match MembersValue(ms[1..], known)
        case None => None
        case Some(rest) => Some([info] + rest)
  }

  ghost function TypedefValue(graph: TypedefGraph, td: TypedefId, known: Types): Option<TypeInfo> {
    if td in graph && graph[td].Some? then TypeValue(graph[td].value, known) else None
  }

  ghost function Definition(graph: TypedefGraph): (TypedefId, Types) -> Option<TypeInfo> {
    (td: TypedefId, known: Types) => TypedefValue(graph, td, known)
  }

  ghost function Round(graph: TypedefGraph, n: nat): Types { LeastSolutions.Round(graph.Keys, Definition(graph), n) }

  /** What the typedefs stand for: the least solution of their defining equations. */
  ghost function Determined(graph: TypedefGraph): Types { Round(graph, |graph.Keys|) }

  lemma {:induction false} TypeMonotone(stmt: TypeStmt, a: Types, b: Types)
    requires LeastSolutions.Agrees(a, b)
    ensures TypeValue(stmt, a).Some? ==> TypeValue(stmt, b) == TypeValue(stmt, a)
  {
    hide Narrowed, ApplyTypeRestrictions;
    if stmt.UnionOf? {
      MembersMonotone(stmt.members, a, b);
    }
  }

  lemma {:induction false} MembersMonotone(ms: seq<TypeStmt>, a: Types, b: Types)
    requires LeastSolutions.Agrees(a, b)
    ensures MembersValue(ms, a).Some? ==> MembersValue(ms, b) == MembersValue(ms, a)
  {
    hide TypeValue;
    if ms != [] {
      TypeMonotone(ms[0], a, b);
      MembersMonotone(ms[1..], a, b);
    }
  }

  lemma DefinitionMonotone(graph: TypedefGraph)
    ensures LeastSolutions.Monotone(Definition(graph))
  {
    hide TypeValue;
    forall td: TypedefId, a: Types, b: Types | LeastSolutions.Agrees(a, b) && Definition(graph)(td, a).Some?
      ensures Definition(graph)(td, b) == Definition(graph)(td, a)
    {
      TypeMonotone(graph[td].value, a, b);
    }
  }

  lemma DeterminedIsSolution(graph: TypedefGraph)
    ensures Determined(graph).Keys <= graph.Keys
    ensures forall td :: td in graph ==>
              TypedefValue(graph, td, Determined(graph)) == if td in Determined(graph) then Some(Determined(graph)[td])
                else None
  {
    hide TypedefValue;
    DefinitionMonotone(graph);
    LeastSolutions.SolutionSolves(graph.Keys, Definition(graph));
    assert forall td :: td in graph ==>
           Definition(graph)(td, Determined(graph)) == TypedefValue(graph, td, Determined(graph));
  }

  lemma RoundsAreDetermined(graph: TypedefGraph, n: nat)
    ensures LeastSolutions.Agrees(Round(graph, n), Determined(graph))
  {
    DefinitionMonotone(graph);
    LeastSolutions.RoundsInSolution(graph.Keys, Definition(graph), n);
  }

  lemma RoundsGrowFrom(graph: TypedefGraph, m: nat, n: nat)
    requires m <= n
    ensures LeastSolutions.Agrees(Round(graph, m), Round(graph, n))
  {
    DefinitionMonotone(graph);
    LeastSolutions.RoundsGrowFrom(graph.Keys, Definition(graph), m, n);
  }

  lemma RoundStep(graph: TypedefGraph, td: TypedefId, n: nat)
    ensures td in Round(graph, n + 1) <==> td in graph && TypedefValue(graph, td, Round(graph, n)).Some?
    ensures td in Round(graph, n + 1) ==> TypedefValue(graph, td, Round(graph, n)) == Some(Round(graph, n + 1)[td])
  {
    hide TypedefValue;
  }

  /** The round in which a typedef is first resolved. */
  lemma FirstRound(graph: TypedefGraph, td: TypedefId, n: nat) returns (m: nat)
    requires td in Round(graph, n)
    ensures m < n && td !in Round(graph, m) && td in Round(graph, m + 1)
            && Round(graph, m + 1)[td] == Round(graph, n)[td]
  {
    DefinitionMonotone(graph);
    m := LeastSolutions.FirstRound(graph.Keys, Definition(graph), td, n);
  }

  /** A round without the typedefs in seen and without td either, whose successor has td if round n has. */
  lemma FreshRound(graph: TypedefGraph, td: TypedefId, n: nat, seen: set<TypedefId>) returns (m: nat)
    requires seen !! Round(graph, n).Keys
    ensures seen + {td} !! Round(graph, m).Keys
    ensures td in Round(graph, n) ==> td in Round(graph, m + 1) && Round(graph, m + 1)[td] == Round(graph, n)[td]
  {
    m := n;
    if td in Round(graph, n) {
      m := FirstRound(graph, td, n);
      RoundsGrowFrom(graph, m, n);
    }
  }

  // ---- What resolved types are like

  /** Restrictions hold readable bounds; those of integers are in increasing order. */
  ghost predicate InfoProper(info: TypeInfo) {
    match info.resolved
    case Restricted(base, bs) => ValidBase(base) && Proper(bs, base) && (!base.keepsWords ==> Increasing(bs, base))
    case Members(ms) => forall m :: m in ms ==> InfoProper(m)
    case Unrestricted => true
  }

  ghost predicate AllProper(known: Types) { forall td :: td in known ==> InfoProper(known[td]) }

  lemma AppliedProper(info: TypeInfo, td: TypedefId, restriction: Restriction)
    requires InfoProper(info) && ApplyTypeRestrictions(info, td, restriction).Some?
    ensures InfoProper(ApplyTypeRestrictions(info, td, restriction).value)
  {
    hide Narrowed, Proper, Increasing, Subset;
    if info.resolved.Restricted? {
      NarrowedNarrows(restriction, info.resolved.base, info.resolved.bounds);
    }
  }

  lemma {:induction false} TypeValueProper(stmt: TypeStmt, graph: TypedefGraph, known: Types)
    requires Resolvable(stmt, graph) && AllProper(known) && TypeValue(stmt, known).Some?
    ensures InfoProper(TypeValue(stmt, known).value)
  {
    hide Narrowed, Proper, Increasing, Subset, ApplyTypeRestrictions;
    match stmt
    case Builtin(base, restriction) =>
      NothingIsProper(base);
      NarrowedNarrows(restriction, base, []);
    case UnionOf(ms) =>
      MembersProper(ms, graph, known);
    case Named(td, restriction) =>
      AppliedProper(known[td], td, restriction);
    case _ =>
  }

  lemma NothingIsProper(base: Base)
    ensures Proper([], base) && Increasing([], base)
  {
  }

  lemma {:induction false} MembersProper(ms: seq<TypeStmt>, graph: TypedefGraph, known: Types)
    requires (forall m :: m in ms ==> Resolvable(m, graph)) && AllProper(known) && MembersValue(ms, known).Some?
    ensures forall info :: info in MembersValue(ms, known).value ==> InfoProper(info)
  {
    hide TypeValue, InfoProper;
    if ms != [] {
      TypeValueProper(ms[0], graph, known);
      MembersProper(ms[1..], graph, known);
    }
  }

  lemma {:induction false} RoundProper(graph: TypedefGraph, n: nat)
    requires WellFormed(graph)
    ensures AllProper(Round(graph, n))
  {
    hide InfoProper, TypeValue, Resolvable;
    if n > 0 {
      RoundProper(graph, n - 1);
      forall td | td in Round(graph, n)
        ensures InfoProper(Round(graph, n)[td])
      {
        RoundStep(graph, td, n - 1);
        TypeValueProper(graph[td].value, graph, Round(graph, n - 1));
      }
    }
  }

  // ---- Resolution with a memo

  ghost predicate Between<T(!new)>(r: Option<T>, low: Option<T>, up: Option<T>) {
    (r.Some? ==> up == r) && (low.Some? ==> r == low)
  }

  function Lookup(known: Types, td: TypedefId): Option<TypeInfo> { if td in known then Some(known[td]) else None }

  function Prepended(infos: seq<TypeInfo>, more: Option<seq<TypeInfo>>): Option<seq<TypeInfo>> {
    match more
    case None => None
    case Some(rest) => Some(infos + rest)
  }

  lemma MembersStep(ms: seq<TypeStmt>, i: nat, infos: seq<TypeInfo>, known: Types)
    requires i < |ms|
    ensures var v := TypeValue(ms[i], known);
            Prepended(infos, MembersValue(ms[i..], known)) == if v.None? then None
              else Prepended(infos + [v.value], MembersValue(ms[i + 1..], known))
  {
    hide TypeValue;
    assert ms[i..][0] == ms[i] && ms[i..][1..] == ms[i + 1..];
    var v, rest := TypeValue(ms[i], known), MembersValue(ms[i + 1..], known);
    if v.Some? && rest.Some? {
      assert infos + ([v.value] + rest.value) == infos + [v.value] + rest.value;
    }
  }

  lemma UnionIsMembers(stmt: TypeStmt, known: Types)
    requires stmt.UnionOf?
    ensures stmt.members == [] ==> TypeValue(stmt, known).None?
    ensures stmt.members != [] ==>
              TypeValue(stmt, known) ==
              match MembersValue(stmt.members, known)
              case None => None
              case Some(infos) => Some(TypeInfo(Members(infos), []))
    ensures Prepended([], MembersValue(stmt.members, known)) == MembersValue(stmt.members[0..], known)
    ensures MembersValue([], known) == Some([])
  {
    assert stmt.members[0..] == stmt.members;
    if MembersValue(stmt.members, known).Some? {
      assert [] + MembersValue(stmt.members, known).value == MembersValue(stmt.members, known).value;
    }
  }

  class TypeResolver {
    const graph: TypedefGraph
    // Outside a rebuild there is no memo: lookups miss and nothing is stored.
    const memoizing: bool
    var typedefTypes: Types
    var seen: set<TypedefId>

    constructor (graph: TypedefGraph, memoizing: bool)
      requires WellFormed(graph)
      ensures this.graph == graph && this.memoizing == memoizing && Sound() && seen == {}
    {
      this.graph, this.memoizing, typedefTypes, seen := graph, memoizing, map[], {};
    }

    /** The memo holds only what the typedefs stand for. */
    ghost predicate Sound()
      reads this
    {
      WellFormed(graph) && LeastSolutions.Agrees(typedefTypes, Determined(graph))
    }

    ghost predicate Clear(n: nat)
      reads this
    {
      seen !! Round(graph, n).Keys
    }

    /** The type of typedef td, which is marked as being resolved. */
    method ResolveTypedefType(td: TypedefId, typ: TypeStmt, ghost n: nat) returns (r: Option<TypeInfo>)
      requires Sound() && Clear(n) && td in graph && graph[td] == Some(typ)
      modifies this
      ensures Sound() && seen == old(seen)
      ensures Between(r, TypeValue(typ, Round(graph, n)), TypeValue(typ, Determined(graph)))
      decreases graph.Keys - seen, typ, 2
    {
      hide Determined, Round, TypeValue, Resolvable;
      DeterminedIsSolution(graph);
      RoundsAreDetermined(graph, n);
      TypeMonotone(typ, Round(graph, n), Determined(graph));
      if td in typedefTypes {
        return Some(typedefTypes[td]);
      }
      r := ParseTypeSeen(typ, n);
      if r.Some? && memoizing {
        typedefTypes := typedefTypes[td := r.value];
      }
    }

    /** What a type statement resolves to, or None if it cannot be resolved from here. */
    method ParseTypeSeen(stmt: TypeStmt, ghost n: nat) returns (r: Option<TypeInfo>)
      requires Sound() && Clear(n) && Resolvable(stmt, graph)
      modifies this
      ensures Sound() && seen == old(seen)
      ensures Between(r, TypeValue(stmt, Round(graph, n)), TypeValue(stmt, Determined(graph)))
      decreases graph.Keys - seen, stmt, 1
    {
      hide Determined, Round, Narrowed, Proper, Increasing, Subset, ApplyTypeRestrictions, EachWithin, Accepted;
      match stmt {
        case Builtin(base, restriction) =>
          NothingIsProper(base);
          var bounds := Restrict(restriction, base, []);
          if bounds.Err? {
            return None;
          }
          r := Some(TypeInfo(Restricted(base, bounds.value), []));
        case OtherBuiltin(accepted) =>
          r := if accepted then Some(TypeInfo(Unrestricted, [])) else None;
        case UnknownName =>
          r := None;
        case UnionOf(ms) =>
          r := ParseMembers(stmt, n);
        case Named(td, restriction) =>
          r := ParseNamed(td, restriction, stmt, n);
      }
    }

    /** The member types of a union, in order. */
    method ParseMembers(stmt: TypeStmt, ghost n: nat) returns (r: Option<TypeInfo>)
      requires Sound() && Clear(n) && Resolvable(stmt, graph) && stmt.UnionOf?
      modifies this
      ensures Sound() && seen == old(seen)
      ensures Between(r, TypeValue(stmt, Round(graph, n)), TypeValue(stmt, Determined(graph)))
      decreases graph.Keys - seen, stmt, 0
    {
      hide Determined, Round;
      ghost var low, up := Round(graph, n), Determined(graph);
      hide TypeValue, MembersValue;
      UnionIsMembers(stmt, low);
      UnionIsMembers(stmt, up);
      var ms := stmt.members;
      if |ms| == 0 {
        return None;
      }
      var infos: seq<TypeInfo> := [];
      var i := 0;
      while i < |ms|
        invariant 0 <= i <= |ms|
        invariant Sound() && seen == old(seen)
        invariant MembersValue(ms, up) == Prepended(infos, MembersValue(ms[i..], up))
        invariant MembersValue(ms, low).Some? ==> MembersValue(ms, low) == Prepended(infos, MembersValue(ms[i..], low))
      {
        assert ms[i] in ms && ms[i..][0] == ms[i] && ms[i..][1..] == ms[i + 1..];
        MembersStep(ms, i, infos, low);
        MembersStep(ms, i, infos, up);
        var member := ParseTypeSeen(ms[i], n);
        if member.None? {
          return None;
        }
        infos := infos + [member.value];
        i := i + 1;
      }
      assert ms[i..] == [] && infos + [] == infos;
      r := Some(TypeInfo(Members(infos), []));
    }

    /** A reference to typedef td, with its restrictions. */
    method ParseNamed(td: TypedefId, restriction: Restriction, ghost stmt: TypeStmt, ghost n: nat)
      returns (r: Option<TypeInfo>)
      requires Sound() && Clear(n) && Resolvable(stmt, graph) && stmt == Named(td, restriction)
      modifies this
      ensures Sound() && seen == old(seen)
      ensures Between(r, TypeValue(stmt, Round(graph, n)), TypeValue(stmt, Determined(graph)))
      decreases graph.Keys - seen, stmt, 0
    {
      hide Determined, Round, TypeValue, ApplyTypeRestrictions, TypedefValue;
      NamedIsLookup(td, restriction, Round(graph, n));
      NamedIsLookup(td, restriction, Determined(graph));
      RoundsAreDetermined(graph, n);
      if td in seen {
        return None;
      }
      ghost var m := FreshRound(graph, td, n, seen);
      seen := seen + {td};
      var target := ResolveTarget(td, m);
      seen := seen - {td};
      assert seen == old(seen);
      TargetDecides(graph, td, n, m, target);
      if target.None? {
        return None;
      }
      r := Apply(target.value, td, restriction);
    }

    /** What typedef td stands for, while it is marked as being resolved. */
    method ResolveTarget(td: TypedefId, ghost m: nat) returns (r: Option<TypeInfo>)
      requires Sound() && Clear(m) && td in graph
      modifies this
      ensures Sound() && seen == old(seen)
      ensures Between(r, TypedefValue(graph, td, Round(graph, m)), TypedefValue(graph, td, Determined(graph)))
      decreases graph.Keys - seen
    {
      hide Determined, Round, TypeValue;
      match graph[td] {
        case None => r := None;
        case Some(typ) => r := ResolveTypedefType(td, typ, m);
      }
    }

    method Apply(info: TypeInfo, td: TypedefId, restriction: Restriction) returns (r: Option<TypeInfo>)
      requires InfoProper(info)
      ensures r == ApplyTypeRestrictions(info, td, restriction)
    {
      hide Narrowed, Proper, Increasing, Subset, EachWithin, Accepted;
      match info.resolved {
        case Restricted(base, bounds) =>
          var narrowed := Restrict(restriction, base, bounds);
          r := if narrowed.Ok? then Some(TypeInfo(Restricted(base, narrowed.value), [td] + info.chain)) else None;
        case _ =>
          r := if restriction.Some? then None else Some(TypeInfo(info.resolved, [td] + info.chain));
      }
    }

    /** A type statement at the top level resolves to exactly its determined type, with the memo or without. */
    method ParseType(stmt: TypeStmt) returns (r: Option<TypeInfo>)
      requires Sound() && seen == {} && Resolvable(stmt, graph)
      modifies this
      ensures Sound() && seen == {}
      ensures r == TypeValue(stmt, Determined(graph))
      ensures r == Unmemoized(graph, stmt, {})
    {
      hide TypeValue, Round, Resolvable, Unmemoized;
      r := ParseTypeSeen(stmt, |graph.Keys|);
      UnmemoizedFromTopLevel(graph, stmt);
    }
  }

  lemma NamedIsLookup(td: TypedefId, restriction: Restriction, known: Types)
    ensures TypeValue(Named(td, restriction), known) ==
              match Lookup(known, td) case None => None case Some(info) => ApplyTypeRestrictions(info, td, restriction)
  {
    hide ApplyTypeRestrictions;
  }

  /** What resolving td below itself found is what td stands for. */
  lemma TargetDecides(graph: TypedefGraph, td: TypedefId, n: nat, m: nat, r: Option<TypeInfo>)
    requires WellFormed(graph) && td in graph
    requires td in Round(graph, n) ==> td in Round(graph, m + 1) && Round(graph, m + 1)[td] == Round(graph, n)[td]
    requires Between(r, TypedefValue(graph, td, Round(graph, m)), TypedefValue(graph, td, Determined(graph)))
    ensures Between(r, Lookup(Round(graph, n), td), Lookup(Determined(graph), td))
    ensures r.Some? ==> InfoProper(r.value)
  {
    hide Round, TypedefValue, InfoProper;
    DeterminedIsSolution(graph);
    RoundStep(graph, td, m);
    RoundProper(graph, |graph.Keys|);
  }

  // ---- Resolution without a memo

  /** The recursion without any memo: a typedef met while it is being resolved is a cycle. */
  ghost function Unmemoized(graph: TypedefGraph, stmt: TypeStmt, seen: set<TypedefId>): Option<TypeInfo>
    decreases graph.Keys - seen, stmt, 2
  {
    TypeValue(stmt, UnmemoizedBelow(graph, seen))
  }

  /** The typedefs that can be resolved while those in seen are being resolved. */
  ghost function UnmemoizedBelow(graph: TypedefGraph, seen: set<TypedefId>): Types
    decreases graph.Keys - seen
  {
    map td | td in graph && td !in seen && graph[td].Some? && UnmemoizedTypedef(graph, td, seen).Some? ::
      UnmemoizedTypedef(graph, td, seen).value
  }

  ghost function UnmemoizedTypedef(graph: TypedefGraph, td: TypedefId, seen: set<TypedefId>): Option<TypeInfo>
    requires td in graph && td !in seen && graph[td].Some?
    decreases graph.Keys - seen, 0
  {
    assert td in graph.Keys - seen;
    TypeValue(graph[td].value, UnmemoizedBelow(graph, seen + {td}))
  }

  lemma {:induction false} UnmemoizedIsDetermined(graph: TypedefGraph, seen: set<TypedefId>)
    ensures LeastSolutions.Agrees(UnmemoizedBelow(graph, seen), Determined(graph))
    decreases graph.Keys - seen
  {
    hide Determined, TypeValue;
    DeterminedIsSolution(graph);
    forall td | td in UnmemoizedBelow(graph, seen)
      ensures td in Determined(graph) && Determined(graph)[td] == UnmemoizedBelow(graph, seen)[td]
    {
      assert td in graph.Keys - seen;
      UnmemoizedIsDetermined(graph, seen + {td});
      TypeMonotone(graph[td].value, UnmemoizedBelow(graph, seen + {td}), Determined(graph));
    }
  }

  lemma {:induction false} RoundIsUnmemoized(graph: TypedefGraph, seen: set<TypedefId>, n: nat)
    requires seen !! Round(graph, n).Keys
    ensures LeastSolutions.Agrees(Round(graph, n), UnmemoizedBelow(graph, seen))
    decreases n
  {
    hide TypeValue, Round;
    if n == 0 {
      NothingInRoundZero(graph);
    } else {
      forall td | td in Round(graph, n)
        ensures td in UnmemoizedBelow(graph, seen) && UnmemoizedBelow(graph, seen)[td] == Round(graph, n)[td]
      {
        var m := FirstRound(graph, td, n);
        RoundsGrowFrom(graph, m, n);
        RoundIsUnmemoized(graph, seen + {td}, m);
        RoundStep(graph, td, m);
        TypeMonotone(graph[td].value, Round(graph, m), UnmemoizedBelow(graph, seen + {td}));
      }
    }
  }

  lemma NothingInRoundZero(graph: TypedefGraph)
    ensures Round(graph, 0) == map[]
  {
  }

  lemma UnmemoizedFromTopLevel(graph: TypedefGraph, stmt: TypeStmt)
    ensures Unmemoized(graph, stmt, {}) == TypeValue(stmt, Determined(graph))
  {
    hide Round, TypeValue;
    UnmemoizedIsDetermined(graph, {});
    RoundIsUnmemoized(graph, {}, |graph.Keys|);
    LeastSolutions.SameKeysSame(UnmemoizedBelow(graph, {}), Determined(graph));
    LeastSolutions.SameKeysSame(Determined(graph), UnmemoizedBelow(graph, {}));
  }
}
