/**
 The values of a type statement, read off the statement itself: a bound stands for the number
 written or for an end of the type below, and a restriction admits what its segments hold.
 */
module TypedefValues {
  import opened Common
  import opened RangeBounds
  import opened Typedefs
  import LeastSolutions

  // ---- What a restriction says

  ghost predicate Least(bs: seq<RangeBound>, base: Base, x: int) {
    Admits(bs, base, x) && forall v :: Admits(bs, base, v) ==> x <= v
  }

  ghost predicate Greatest(bs: seq<RangeBound>, base: Base, x: int) {
    Admits(bs, base, x) && forall v :: Admits(bs, base, v) ==> v <= x
  }

  /** The number a written bound stands for over a type restricted to bs: itself, its least or its greatest value. */
  ghost predicate StandsFor(text: BoundText, bs: seq<RangeBound>, base: Base, x: int) {
    text.Written? &&
    match text.bound
    case Lit(v) => x == v
    case MinWord => Least(bs, base, x)
    case MaxWord => Greatest(bs, base, x)
  }

  ghost predicate HeldBy(s: Segment, bs: seq<RangeBound>, base: Base, v: int) {
    exists lo, hi :: StandsFor(s.lo, bs, base, lo) && StandsFor(s.hi, bs, base, hi) && lo <= v <= hi
  }

  /** Some written segment holds v. */
  ghost predicate WrittenValue(parts: seq<Segment>, bs: seq<RangeBound>, base: Base, v: int) {
    exists i :: 0 <= i < |parts| && HeldBy(parts[i], bs, base, v)
  }

  /** A restriction in order that keeps within the type below: each segment holds a value, and values go up. */
  ghost predicate Fits(parts: seq<Segment>, bs: seq<RangeBound>, base: Base) {
    && parts != []
    && (forall i :: 0 <= i < |parts| ==> Nonempty(parts[i], bs, base))
    && (forall i :: 0 <= i < |parts| - 1 ==> Below(parts[i], parts[i + 1], bs, base))
    && forall v :: WrittenValue(parts, bs, base, v) ==> Admits(bs, base, v)
  }

  ghost predicate Nonempty(s: Segment, bs: seq<RangeBound>, base: Base) {
    exists lo, hi :: StandsFor(s.lo, bs, base, lo) && StandsFor(s.hi, bs, base, hi) && lo <= hi
  }

  ghost predicate Below(s: Segment, t: Segment, bs: seq<RangeBound>, base: Base) {
    forall hi, lo :: StandsFor(s.hi, bs, base, hi) && StandsFor(t.lo, bs, base, lo) ==> hi < lo
  }

  // ---- Ascending lists

  /** Each segment lies above the one before, or shares a limit with it that is spelt in two ways. */
  ghost predicate Ascending(bs: seq<RangeBound>, base: Base) {
    forall i :: 0 <= i < |bs| - 1 ==>
      ValueOf(bs[i].max, base) < ValueOf(bs[i + 1].min, base) || FalselyBelow(bs[i].max, bs[i + 1].min, base)
  }

  lemma {:induction false} EndsEncloseAll(bs: seq<RangeBound>, base: Base, i: nat, j: nat)
    requires Proper(bs, base) && Ascending(bs, base) && i <= j < |bs|
    ensures ValueOf(bs[i].min, base) <= ValueOf(bs[j].min, base) && ValueOf(bs[i].max, base) <= ValueOf(bs[j].max, base)
    decreases j - i
  {
    hide ValueOf, FalselyBelow;
    if i < j {
      assert ProperBound(bs[i], base) && ProperBound(bs[i + 1], base);
      FalselyBelowIsEqual(bs[i].max, bs[i + 1].min, base);
      EndsEncloseAll(bs, base, i + 1, j);
    }
  }

  lemma FirstIsLeast(bs: seq<RangeBound>, base: Base)
    requires Proper(bs, base) && Ascending(bs, base) && bs != []
    ensures Least(bs, base, ValueOf(bs[0].min, base)) && Greatest(bs, base, ValueOf(bs[|bs| - 1].max, base))
  {
    hide ValueOf, Ascending;
    var last := |bs| - 1;
    assert ProperBound(bs[0], base) && ProperBound(bs[last], base);
    assert Admits(bs, base, ValueOf(bs[0].min, base)) && Admits(bs, base, ValueOf(bs[last].max, base));
    forall v | Admits(bs, base, v)
      ensures ValueOf(bs[0].min, base) <= v <= ValueOf(bs[last].max, base)
    {
      var i :| 0 <= i < |bs| && ValueOf(bs[i].min, base) <= v <= ValueOf(bs[i].max, base);
      EndsEncloseAll(bs, base, 0, i);
      EndsEncloseAll(bs, base, i, last);
    }
  }

  /** The bound read is the one written number the text stands for. */
  lemma ReadStandsFor(text: BoundText, bs: seq<RangeBound>, base: Base, x: int)
    requires ValidBase(base) && Proper(bs, base) && Ascending(bs, base) && NormalizeBound(text, base, bs).Some?
    ensures StandsFor(text, bs, base, x) <==> x == ValueOf(NormalizeBound(text, base, bs).value, base)
  {
    hide Ascending;
    if bs != [] {
      FirstIsLeast(bs, base);
    } else {
      assert Least(bs, base, base.min) && Greatest(bs, base, base.max);
    }
  }

  /** A bound that stands for a value of the type can be read. */
  lemma StandsForReadable(text: BoundText, bs: seq<RangeBound>, base: Base, x: int)
    requires ValidBase(base) && Proper(bs, base) && Ascending(bs, base)
    requires StandsFor(text, bs, base, x) && Admits(bs, base, x)
    ensures NormalizeBound(text, base, bs).Some?
  {
    hide Ascending;
    if bs != [] {
      FirstIsLeast(bs, base);
      assert ProperBound(bs[0], base) && ProperBound(bs[|bs| - 1], base);
      var i :| 0 <= i < |bs| && ValueOf(bs[i].min, base) <= x <= ValueOf(bs[i].max, base);
      assert ProperBound(bs[i], base);
    }
  }

  lemma ReadHolds(s: Segment, bs: seq<RangeBound>, base: Base, v: int)
    requires ValidBase(base) && Proper(bs, base) && Ascending(bs, base) && SegmentReadable(s, base, bs)
    ensures HeldBy(s, bs, base, v) <==> ValueOf(Lower(s, base, bs), base) <= v <= ValueOf(Upper(s, base, bs), base)
  {
    hide StandsFor, ValueOf, Ascending, Proper, NormalizeBound;
    var lo, hi := ValueOf(Lower(s, base, bs), base), ValueOf(Upper(s, base, bs), base);
    ReadStandsFor(s.lo, bs, base, lo);
    ReadStandsFor(s.hi, bs, base, hi);
    if HeldBy(s, bs, base, v) {
      var l, h :| StandsFor(s.lo, bs, base, l) && StandsFor(s.hi, bs, base, h) && l <= v <= h;
      ReadStandsFor(s.lo, bs, base, l);
      ReadStandsFor(s.hi, bs, base, h);
    }
  }

  // ---- What a restriction leaves

  /** A restriction that goes through leaves exactly the values it writes, for lengths and decimals too. */
  lemma NarrowedValues(parts: seq<Segment>, base: Base, bs: seq<RangeBound>)
    requires ValidBase(base) && Proper(bs, base) && Ascending(bs, base) && Narrowed(Some(parts), base, bs).Some?
    ensures var r := Narrowed(Some(parts), base, bs).value;
            Ascending(r, base) && forall v :: Admits(r, base, v) <==> WrittenValue(parts, bs, base, v)
  {
    hide StandsFor, ValueOf, Proper, NormalizeBound, EachWithin, FalselyBelow, NumberOf, HeldBy;
    var r := ReadAll(parts, base, bs);
    assert Ascending(r, base) by {
      assert forall i :: 0 <= i < |parts| - 1 ==> NeighboursAccepted(parts[i], parts[i + 1], base, bs);
    }
    forall v
      ensures Admits(r, base, v) <==> WrittenValue(parts, bs, base, v)
    {
      forall i | 0 <= i < |parts|
        ensures HeldBy(parts[i], bs, base, v) <==> ValueOf(r[i].min, base) <= v <= ValueOf(r[i].max, base)
      {
        ReadHolds(parts[i], bs, base, v);
      }
    }
  }

  /** No bound is spelt as a keyword: those of the type below, or where it has none those written. */
  ghost predicate Literal(parts: seq<Segment>, bs: seq<RangeBound>) {
    if bs != [] then forall b :: b in bs ==> b.min.Lit? && b.max.Lit?
    else forall s :: s in parts ==> (s.lo.Written? ==> s.lo.bound.Lit?) && (s.hi.Written? ==> s.hi.bound.Lit?)
  }

  lemma ReadAsLiterals(parts: seq<Segment>, base: Base, bs: seq<RangeBound>)
    requires Proper(bs, base) && (base.keepsWords ==> Literal(parts, bs)) && AllReadable(parts, base, bs)
    ensures forall i :: 0 <= i < |parts| ==> Lower(parts[i], base, bs).Lit? && Upper(parts[i], base, bs).Lit?
  {
    forall i | 0 <= i < |parts|
      ensures Lower(parts[i], base, bs).Lit? && Upper(parts[i], base, bs).Lit?
    {
      assert parts[i] in parts;
      assert SegmentReadable(parts[i], base, bs);
      if bs != [] {
        assert bs[0] in bs && bs[|bs| - 1] in bs;
      }
    }
  }

  lemma AscendingLiterals(bs: seq<RangeBound>, base: Base)
    requires Ascending(bs, base) && forall b :: b in bs ==> b.min.Lit? && b.max.Lit?
    ensures Increasing(bs, base)
  {
    hide ValueOf;
  }

  lemma LiteralsNotMisspelt(parents: seq<RangeBound>, children: seq<RangeBound>, base: Base)
    requires forall b :: b in parents || b in children ==> b.min.Lit? && b.max.Lit?
    ensures !AnyMisspelt(parents, children, base)
  {
  }

  lemma {:induction false} CoalescedLiterals(bs: seq<RangeBound>)
    requires forall b :: b in bs ==> b.min.Lit? && b.max.Lit?
    ensures forall b :: b in Coalesced(bs) ==> b.min.Lit? && b.max.Lit?
  {
    hide Adjacent;
    if |bs| > 1 {
      assert forall b :: b in bs[..|bs| - 1] ==> b in bs;
      CoalescedLiterals(bs[..|bs| - 1]);
    }
  }

  /** Read in order is written in order. */
  lemma InOrderIsFit(parts: seq<Segment>, base: Base, bs: seq<RangeBound>)
    requires ValidBase(base) && Proper(bs, base) && Ascending(bs, base) && AllReadable(parts, base, bs)
    ensures InOrder(parts, base, bs) <==>
            && (forall i :: 0 <= i < |parts| ==> Nonempty(parts[i], bs, base))
            && (forall i :: 0 <= i < |parts| - 1 ==> Below(parts[i], parts[i + 1], bs, base))
  {
    hide StandsFor, ValueOf, Ascending, Proper, NormalizeBound, Nonempty, Below;
    forall i | 0 <= i < |parts|
      ensures Nonempty(parts[i], bs, base) <==>
              ValueOf(Lower(parts[i], base, bs), base) <= ValueOf(Upper(parts[i], base, bs), base)
    {
      ReadNonempty(parts[i], bs, base);
    }
    forall i | 0 <= i < |parts| - 1
      ensures Below(parts[i], parts[i + 1], bs, base) <==>
              ValueOf(Upper(parts[i], base, bs), base) < ValueOf(Lower(parts[i + 1], base, bs), base)
    {
      assert SegmentReadable(parts[i], base, bs) && SegmentReadable(parts[i + 1], base, bs);
      ReadBelow(parts[i], parts[i + 1], bs, base);
    }
  }

  lemma ReadNonempty(s: Segment, bs: seq<RangeBound>, base: Base)
    requires ValidBase(base) && Proper(bs, base) && Ascending(bs, base) && SegmentReadable(s, base, bs)
    ensures Nonempty(s, bs, base) <==> ValueOf(Lower(s, base, bs), base) <= ValueOf(Upper(s, base, bs), base)
  {
    hide StandsFor, ValueOf, Ascending, Proper, NormalizeBound;
    var lo, hi := ValueOf(Lower(s, base, bs), base), ValueOf(Upper(s, base, bs), base);
    ReadStandsFor(s.lo, bs, base, lo);
    ReadStandsFor(s.hi, bs, base, hi);
    if Nonempty(s, bs, base) {
      var l, h :| StandsFor(s.lo, bs, base, l) && StandsFor(s.hi, bs, base, h) && l <= h;
      ReadStandsFor(s.lo, bs, base, l);
      ReadStandsFor(s.hi, bs, base, h);
    }
  }

  lemma ReadBelow(s: Segment, t: Segment, bs: seq<RangeBound>, base: Base)
    requires ValidBase(base) && Proper(bs, base) && Ascending(bs, base)
    requires SegmentReadable(s, base, bs) && SegmentReadable(t, base, bs)
    ensures Below(s, t, bs, base) <==> ValueOf(Upper(s, base, bs), base) < ValueOf(Lower(t, base, bs), base)
  {
    hide StandsFor, ValueOf, Ascending, Proper, NormalizeBound;
    var hi, lo := ValueOf(Upper(s, base, bs), base), ValueOf(Lower(t, base, bs), base);
    ReadStandsFor(s.hi, bs, base, hi);
    ReadStandsFor(t.lo, bs, base, lo);
    forall h, l | StandsFor(s.hi, bs, base, h) && StandsFor(t.lo, bs, base, l)
      ensures h == hi && l == lo
    {
      ReadStandsFor(s.hi, bs, base, h);
      ReadStandsFor(t.lo, bs, base, l);
    }
  }

  /** What fits can be read. */
  lemma FitIsReadable(parts: seq<Segment>, base: Base, bs: seq<RangeBound>)
    requires ValidBase(base) && Proper(bs, base) && Ascending(bs, base) && Fits(parts, bs, base)
    ensures AllReadable(parts, base, bs)
  {
    hide StandsFor, ValueOf, Ascending, Proper, NormalizeBound, Admits;
    forall i | 0 <= i < |parts|
      ensures SegmentReadable(parts[i], base, bs)
    {
      assert Nonempty(parts[i], bs, base);
      var lo, hi :| StandsFor(parts[i].lo, bs, base, lo) && StandsFor(parts[i].hi, bs, base, hi) && lo <= hi;
      assert HeldBy(parts[i], bs, base, lo) && HeldBy(parts[i], bs, base, hi);
      assert WrittenValue(parts, bs, base, lo) && WrittenValue(parts, bs, base, hi);
      StandsForReadable(parts[i].lo, bs, base, lo);
      StandsForReadable(parts[i].hi, bs, base, hi);
    }
  }

  lemma ReadValues(parts: seq<Segment>, base: Base, bs: seq<RangeBound>)
    requires ValidBase(base) && Proper(bs, base) && Ascending(bs, base) && AllReadable(parts, base, bs) && parts != []
    ensures forall v :: Admits(ReadAll(parts, base, bs), base, v) <==> WrittenValue(parts, bs, base, v)
  {
    hide StandsFor, ValueOf, Ascending, Proper, NormalizeBound, HeldBy, NumberOf;
    var r := ReadAll(parts, base, bs);
    forall v
      ensures Admits(r, base, v) <==> WrittenValue(parts, bs, base, v)
    {
      forall i | 0 <= i < |parts|
        ensures HeldBy(parts[i], bs, base, v) <==> ValueOf(r[i].min, base) <= v <= ValueOf(r[i].max, base)
      {
        ReadHolds(parts[i], bs, base, v);
      }
    }
  }

  /** Where no bound is a keyword, and for integers always, a restriction goes through exactly when it fits. */
  lemma NarrowedExactly(parts: seq<Segment>, base: Base, bs: seq<RangeBound>)
    requires ValidBase(base) && Proper(bs, base) && Ascending(bs, base) && (base.keepsWords ==> Literal(parts, bs))
    ensures Narrowed(Some(parts), base, bs).Some? <==> Fits(parts, bs, base)
  {
    hide StandsFor, ValueOf, Ascending, Proper, NormalizeBound, HeldBy, NumberOf, Admits, EachWithin, Accepted, InOrder,
         ReadAll, Nonempty, Below, AllReadable, Coalesced, Literal;
    if Accepted(parts, base, bs) {
      AcceptedNonempty(parts, base, bs);
    }
    if Fits(parts, bs, base) {
      FitIsReadable(parts, base, bs);
    }
    if parts != [] && AllReadable(parts, base, bs) {
      ReadValues(parts, base, bs);
      InOrderIsFit(parts, base, bs);
      AcceptedIsOrder(parts, base, bs);
      if Accepted(parts, base, bs) {
        WithinIsInclusion(parts, base, bs);
      }
    }
  }

  lemma AcceptedIsOrder(parts: seq<Segment>, base: Base, bs: seq<RangeBound>)
    requires ValidBase(base) && Proper(bs, base) && (base.keepsWords ==> Literal(parts, bs))
    requires parts != [] && AllReadable(parts, base, bs)
    ensures Accepted(parts, base, bs) <==> InOrder(parts, base, bs)
  {
    hide ValueOf, Proper, NormalizeBound, Literal;
    ReadAsLiterals(parts, base, bs);
  }

  lemma WithinIsInclusion(parts: seq<Segment>, base: Base, bs: seq<RangeBound>)
    requires ValidBase(base) && Proper(bs, base) && Ascending(bs, base) && (base.keepsWords ==> Literal(parts, bs))
    requires Accepted(parts, base, bs)
    ensures bs == [] || EachWithin(Coalesced(bs), ReadAll(parts, base, bs)) <==>
            Subset(ReadAll(parts, base, bs), bs, base)
  {
    hide ValueOf, NormalizeBound, NumberOf, Admits, EachWithin, Coalesced, Increasing, Ascending, AnyMisspelt;
    var r := ReadAll(parts, base, bs);
    ReadIsProper(parts, base, bs);
    if bs == [] {
      InsideBase(r, base);
    } else {
      ReadAsLiterals(parts, base, bs);
      AscendingLiterals(bs, base);
      CoalescedLiterals(bs);
      CoalescedMeans(bs, base);
      LiteralsNotMisspelt(Coalesced(bs), r, base);
      DecideByEach(bs, Coalesced(bs), r, base);
    }
  }

  // ---- Types of determined typedefs

  ghost predicate InfoAscending(info: TypeInfo) {
    match info.resolved
    case Restricted(base, bs) => Ascending(bs, base)
    case Members(ms) => forall m :: m in ms ==> InfoAscending(m)
    case Unrestricted => true
  }

  ghost predicate AllAscending(known: Types) { forall td :: td in known ==> InfoAscending(known[td]) }

  lemma AppliedAscending(info: TypeInfo, td: TypedefId, restriction: Restriction)
    requires InfoProper(info) && InfoAscending(info) && ApplyTypeRestrictions(info, td, restriction).Some?
    ensures InfoAscending(ApplyTypeRestrictions(info, td, restriction).value)
  {
    hide Narrowed, Proper, Increasing, Ascending;
    if info.resolved.Restricted? {
      NarrowedAscending(restriction, info.resolved.base, info.resolved.bounds);
    }
  }

  lemma NarrowedAscending(restriction: Restriction, base: Base, bs: seq<RangeBound>)
    requires ValidBase(base) && Proper(bs, base) && Ascending(bs, base) && Narrowed(restriction, base, bs).Some?
    ensures Ascending(Narrowed(restriction, base, bs).value, base)
  {
    hide Proper, Ascending, Accepted, EachWithin;
    if restriction.Some? {
      NarrowedValues(restriction.value, base, bs);
    }
  }

  lemma {:induction false} TypeAscending(stmt: TypeStmt, graph: TypedefGraph, known: Types)
    requires Typedefs.Resolvable(stmt, graph) && AllProper(known) && AllAscending(known) && TypeValue(stmt, known).Some?
    ensures InfoAscending(TypeValue(stmt, known).value)
  {
    hide Narrowed, Proper, Increasing, ApplyTypeRestrictions;
    match stmt
    case Builtin(base, restriction) =>
      NothingIsProper(base);
      NarrowedAscending(restriction, base, []);
    case UnionOf(ms) =>
      MembersAscending(ms, graph, known);
    case Named(td, restriction) =>
      AppliedAscending(known[td], td, restriction);
    case _ =>
  }

  lemma {:induction false} MembersAscending(ms: seq<TypeStmt>, graph: TypedefGraph, known: Types)
    requires (forall m :: m in ms ==> Typedefs.Resolvable(m, graph)) && AllProper(known) && AllAscending(known)
    requires MembersValue(ms, known).Some?
    ensures forall info :: info in MembersValue(ms, known).value ==> InfoAscending(info)
  {
    hide TypeValue, InfoProper, InfoAscending;
    if ms != [] {
      TypeAscending(ms[0], graph, known);
      MembersAscending(ms[1..], graph, known);
    }
  }

  lemma {:induction false} RoundAscending(graph: TypedefGraph, n: nat)
    requires WellFormed(graph)
    ensures AllAscending(Round(graph, n))
  {
    hide InfoProper, InfoAscending, TypeValue, Typedefs.Resolvable, Round;
    if n == 0 {
      NothingInRoundZero(graph);
    } else {
      RoundAscending(graph, n - 1);
      RoundProper(graph, n - 1);
      forall td | td in Round(graph, n)
        ensures InfoAscending(Round(graph, n)[td])
      {
        RoundStep(graph, td, n - 1);
        TypeAscending(graph[td].value, graph, Round(graph, n - 1));
      }
    }
  }

  lemma DeterminedAscending(graph: TypedefGraph)
    requires WellFormed(graph)
    ensures AllProper(Determined(graph)) && AllAscending(Determined(graph))
  {
    hide Round, AllProper, AllAscending;
    RoundProper(graph, |graph.Keys|);
    RoundAscending(graph, |graph.Keys|);
  }

  // ---- What ParseType returns

  /** The values of a built-in type with a restriction, and when it is refused. */
  method ParseBuiltin(resolver: TypeResolver, base: Base, parts: seq<Segment>)
    returns (bare: Option<TypeInfo>, r: Option<TypeInfo>)
    requires resolver.Sound() && resolver.seen == {} && ValidBase(base)
    modifies resolver
    ensures bare == Some(TypeInfo(Restricted(base, []), []))
    ensures r.Some? ==> r.value.resolved.Restricted? && r.value.resolved.base == base && r.value.chain == []
    ensures r.Some? ==> forall v :: Admits(r.value.resolved.bounds, base, v) <==> WrittenValue(parts, [], base, v)
    ensures r.Some? ==> InfoProper(r.value)
    ensures r.Some? ==> forall v :: WrittenValue(parts, [], base, v) ==> base.min <= v <= base.max
    ensures base.keepsWords ==> Literal(parts, []) ==> (r.Some? <==> Fits(parts, [], base))
    ensures !base.keepsWords ==> (r.Some? <==> Fits(parts, [], base))
  {
    hide Narrowed, Determined, Unmemoized, Fits, Proper;
    var plain, stmt := Builtin(base, None), Builtin(base, Some(parts));
    bare := resolver.ParseType(plain);
    r := resolver.ParseType(stmt);
    BuiltinValue(base, resolver.graph);
    NothingIsProper(base);
    if !base.keepsWords || Literal(parts, []) {
      NarrowedExactly(parts, base, []);
    }
    if r.Some? {
      NarrowedValues(parts, base, []);
      NarrowedNarrows(Some(parts), base, []);
    }
  }

  lemma BuiltinValue(base: Base, graph: TypedefGraph)
    ensures Narrowed(None, base, []) == Some([])
  {
  }

  /**
   The type statement of typedef td, and references to td, bare and with a restriction.  Bare,
   it is what the statement of td gives, reached through td.  A restriction leaves exactly the
   values some written segment holds, min and max standing for the least and the greatest
   value of td.
   */
  method ParseReference(resolver: TypeResolver, td: TypedefId, parts: seq<Segment>)
    returns (own: Option<TypeInfo>, bare: Option<TypeInfo>, r: Option<TypeInfo>)
    requires resolver.Sound() && resolver.seen == {} && td in resolver.graph
    modifies resolver
    ensures resolver.graph[td].None? ==> own.None?
    ensures bare == if own.None? then None else Some(TypeInfo(own.value.resolved, [td] + own.value.chain))
    ensures r.Some? ==> bare.Some? && bare.value.resolved.Restricted? && r.value.chain == bare.value.chain
    ensures r.Some? ==> InfoProper(r.value) && r.value.resolved.Restricted?
                        && r.value.resolved.base == bare.value.resolved.base
    ensures bare.Some? && bare.value.resolved.Restricted? ==>
              var base, bs := bare.value.resolved.base, bare.value.resolved.bounds;
              && (r.Some? ==>
                    forall v :: Admits(r.value.resolved.bounds, base, v) <==> WrittenValue(parts, bs, base, v))
              && (base.keepsWords ==> Literal(parts, bs) ==> (r.Some? <==> Fits(parts, bs, base)))
              && (!base.keepsWords ==> (r.Some? <==> Fits(parts, bs, base)))
  {
    hide Narrowed, Determined, Unmemoized, Fits, Proper, TypedefValue, Increasing, Ascending;
    var graph := resolver.graph;
    own := None;
    if graph[td].Some? {
      own := resolver.ParseType(graph[td].value);
    }
    bare := resolver.ParseType(Named(td, None));
    r := resolver.ParseType(Named(td, Some(parts)));
    DeterminedIsSolution(graph);
    BareReference(graph, td);
    if td in Determined(graph) {
      DeterminedAscending(graph);
      var info := Determined(graph)[td];
      if info.resolved.Restricted? {
        RestrictedReference(info, td, parts);
      }
    }
  }

  lemma BareReference(graph: TypedefGraph, td: TypedefId)
    requires td in graph
    ensures TypedefValue(graph, td, Determined(graph)) ==
            if graph[td].Some? then TypeValue(graph[td].value, Determined(graph)) else None
    ensures forall base, bs :: Narrowed(None, base, bs) == Some(bs)
  {
    hide Determined, TypeValue;
  }

  lemma RestrictedReference(info: TypeInfo, td: TypedefId, parts: seq<Segment>)
    requires info.resolved.Restricted? && InfoProper(info) && InfoAscending(info)
    ensures var base, bs := info.resolved.base, info.resolved.bounds;
            var r := ApplyTypeRestrictions(info, td, Some(parts));
            && (r.Some? ==> InfoProper(r.value) && r.value.resolved.Restricted? && r.value.resolved.base == base)
            && (r.Some? ==> forall v :: Admits(r.value.resolved.bounds, base, v) <==> WrittenValue(parts, bs, base, v))
            && (base.keepsWords ==> Literal(parts, bs) ==> (r.Some? <==> Fits(parts, bs, base)))
            && (!base.keepsWords ==> (r.Some? <==> Fits(parts, bs, base)))
  {
    hide Narrowed, Fits, Proper, Increasing, Ascending, Admits, Literal;
    var base, bs := info.resolved.base, info.resolved.bounds;
    if !base.keepsWords || Literal(parts, bs) {
      NarrowedExactly(parts, base, bs);
    }
    if ApplyTypeRestrictions(info, td, Some(parts)).Some? {
      NarrowedValues(parts, base, bs);
      AppliedProper(info, td, Some(parts));
    }
  }

  /** A union is made of its members' types, in order, and is refused when it has none or one of them is. */
  method ParseUnion(resolver: TypeResolver, members: seq<TypeStmt>)
    returns (r: Option<TypeInfo>, each: seq<Option<TypeInfo>>)
    requires resolver.Sound() && resolver.seen == {} && Resolvable(UnionOf(members), resolver.graph)
    modifies resolver
    ensures |each| == |members|
            && forall i :: 0 <= i < |each| ==> each[i] == TypeValue(members[i], Determined(resolver.graph))
    ensures r.Some? <==> members != [] && forall i :: 0 <= i < |each| ==> each[i].Some?
    ensures r.Some? ==>
              && r.value.chain == [] && r.value.resolved.Members? && |r.value.resolved.members| == |members|
              && forall i :: 0 <= i < |each| ==> each[i] == Some(r.value.resolved.members[i])
  {
    hide Determined, Unmemoized, TypeValue;
    r := resolver.ParseType(UnionOf(members));
    each := [];
    while |each| < |members|
      invariant resolver.Sound() && resolver.seen == {} && |each| <= |members|
      invariant forall i :: 0 <= i < |each| ==> each[i] == TypeValue(members[i], Determined(resolver.graph))
    {
      assert members[|each|] in members;
      var one := resolver.ParseType(members[|each|]);
      each := each + [one];
    }
    UnionIsMembers(UnionOf(members), Determined(resolver.graph));
    EachMember(members, Determined(resolver.graph));
  }

  lemma {:induction false} EachMember(ms: seq<TypeStmt>, known: Types)
    ensures MembersValue(ms, known).Some? <==> forall i :: 0 <= i < |ms| ==> TypeValue(ms[i], known).Some?
    ensures MembersValue(ms, known).Some? ==>
              var infos := MembersValue(ms, known).value;
              |infos| == |ms| && forall i :: 0 <= i < |ms| ==> TypeValue(ms[i], known) == Some(infos[i])
  {
    hide TypeValue;
    if ms != [] {
      EachMember(ms[1..], known);
      if forall i :: 0 <= i < |ms| ==> TypeValue(ms[i], known).Some? {
        forall i | 0 <= i < |ms[1..]|
          ensures TypeValue(ms[1..][i], known).Some?
        {
          assert ms[1..][i] == ms[i + 1];
        }
      }
      if MembersValue(ms, known).Some? {
        forall i | 0 <= i < |ms|
          ensures TypeValue(ms[i], known) == Some(MembersValue(ms, known).value[i])
        {
          if i > 0 {
            assert ms[i] == ms[1..][i - 1];
          }
        }
      }
    }
  }
}
