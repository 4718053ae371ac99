/**
 Identity resolution: every identity's list of derived identities is filled while
 its bases are resolved, by a walk over its ancestors.  A walk for an identity
 with one base uses no visited set: it recognises a visited ancestor by finding
 the identity as the last entry of that ancestor's list.
 */
module Identities {
  import opened Common
  import opened Graphs

  type Identity = nat
  type ModuleId = nat

  /** For every identity, what each of its base statements names; None is an unknown identity. */
  type BaseNames = map<Identity, seq<Option<Identity>>>

  ghost predicate WellFormedNames(names: BaseNames) {
    forall x, b :: x in names && Some(b) in names[x] ==> b in names
  }

  /** For every identity, the identities recorded as derived from it. */
  type Derivations = map<Identity, seq<Identity>>

  function KnownBases(bases: seq<Option<Identity>>): (r: seq<Identity>) {
    if bases == [] then []
    else match bases[0]
      case Some(b) => [b] + KnownBases(bases[1..])
      case None => KnownBases(bases[1..])
  }

  /** The declared graph: an edge from an identity to each of its known bases. */
  function BaseGraph(names: BaseNames): Graph<Identity> {
    map x | x in names :: KnownBases(names[x])
  }

  lemma {:induction false} KnownBasesHolds(bases: seq<Option<Identity>>, b: Identity)
    ensures b in KnownBases(bases) <==> Some(b) in bases
  {
    if bases != [] {
      KnownBasesHolds(bases[1..], b);
      assert bases == [bases[0]] + bases[1..];
    }
  }

  lemma BaseIsKnown(names: BaseNames, x: Identity, i: nat)
    requires WellFormedNames(names) && x in names && i < |names[x]| && names[x][i].Some?
    ensures names[x][i].value in names && names[x][i].value in Succ(BaseGraph(names), x)
  {
    assert Some(names[x][i].value) in names[x];
    KnownBasesHolds(names[x], names[x][i].value);
  }

  lemma {:induction false} AllKnown(bases: seq<Option<Identity>>, known: seq<Identity>)
    requires |known| == |bases| && forall i :: 0 <= i < |known| ==> bases[i] == Some(known[i])
    ensures KnownBases(bases) == known
  {
    if bases != [] {
      AllKnown(bases[1..], known[1..]);
    }
  }

  /** What RFC 7950 section 7.18.2 forbids: an unknown base, several bases before YANG 1.1, or a cycle. */
  ghost predicate Defective(names: BaseNames, yang11: set<Identity>) {
    || (exists x :: x in names && None in names[x])
    || (exists x :: x in names && |names[x]| > 1 && x !in yang11)
    || !Acyclic(BaseGraph(names))
  }

  /** The resolver's state between two steps that recorded no error. */
  ghost predicate Consistent(names: BaseNames, bases: Graph<Identity>, derived: Derivations,
                             resolved: set<Identity>, resolving: set<Identity>, order: seq<Identity>)
  {
    && derived.Keys == names.Keys
    && Progress(names, bases, resolved, resolving)
    && RecordedAs(bases, derived)
    && NoRepeats(derived)
    && BasesFirst(bases, resolved, order)
  }

  /** Bases are recorded in declaration order, only for identities under way or done, and only once resolved. */
  ghost predicate Progress(names: BaseNames, bases: Graph<Identity>, resolved: set<Identity>,
                           resolving: set<Identity>) {
    && bases.Keys == names.Keys
    && resolved <= names.Keys && resolving <= names.Keys && resolved !! resolving
    && (forall x :: x in names && x !in resolved && x !in resolving ==> bases[x] == [])
    && (forall x :: x in names ==> PrefixOfNames(bases[x], names[x]))
    && (forall x :: x in resolved ==> |bases[x]| == |names[x]|)
    && (forall x, b :: x in names && b in bases[x] ==> b in resolved)
  }

  ghost predicate BasesInside(bases: Graph<Identity>) {
    forall x, b :: x in bases && b in bases[x] ==> b in bases
  }

  lemma StillInside(bases: Graph<Identity>, next: Graph<Identity>, d: Identity, base: Identity)
    requires BasesInside(bases) && d in bases && base in bases && next == bases[d := bases[d] + [base]]
    ensures BasesInside(next)
  {
  }

  /** Every resolved identity with several bases is in a YANG 1.1 module. */
  ghost predicate VersionsOk(names: BaseNames, resolved: set<Identity>, yang11: set<Identity>) {
    forall x :: x in resolved && x in names && |names[x]| > 1 ==> x in yang11
  }

  ghost predicate NoRepeats(derived: Derivations) {
    forall b :: b in derived ==> Distinct(derived[b])
  }

  /** order lists the resolved identities, bases first. */
  ghost predicate BasesFirst(bases: Graph<Identity>, resolved: set<Identity>, order: seq<Identity>) {
    Distinct(order) && (forall x :: x in order <==> x in resolved) && Topological(bases, order)
  }

  /** A list holds exactly the identities that the recorded base edges lead up from. */
  ghost predicate RecordedAs(bases: Graph<Identity>, derived: Derivations) {
    forall d, b :: b in derived ==> (d in derived[b] <==> StrictlyReaches(bases, d, b))
  }

  ghost predicate PrefixOfNames(bases: seq<Identity>, names: seq<Option<Identity>>) {
    |bases| <= |names| && forall i :: 0 <= i < |bases| ==> names[i] == Some(bases[i])
  }

  /** The ancestors a walk that appends d treats as visited. */
  ghost function Visited(derived: Derivations, d: Identity, seen: Option<set<Identity>>): set<Identity> {
    match seen
    case Some(s) => s
    case None => set b | b in derived && derived[b] != [] && derived[b][|derived[b]| - 1] == d
  }

  /** The nodes a walk from base added to was: all above base, with everything above them visited. */
  ghost predicate WalkedFrom(bases: Graph<Identity>, base: Identity, was: set<Identity>, now: set<Identity>) {
    && (forall n, m :: n in now - was && m in Succ(bases, n) ==> m in now)
    && (forall n :: n in now - was ==> Reaches(bases, base, n))
  }

  /** The same part-way: only the first i bases of base itself have been walked. */
  ghost predicate WalkedUpTo(bases: Graph<Identity>, base: Identity, was: set<Identity>, now: set<Identity>, i: nat)
    requires base in bases && i <= |bases[base]|
  {
    && (forall n, m :: n in now - was && n != base && m in Succ(bases, n) ==> m in now)
    && (forall n :: n in now - was ==> Reaches(bases, base, n))
    && (forall j :: 0 <= j < i ==> bases[base][j] in now)
  }

  lemma NothingWalked(bases: Graph<Identity>, base: Identity, was: set<Identity>)
    ensures WalkedFrom(bases, base, was, was)
  {
  }

  lemma WalkBegins(bases: Graph<Identity>, base: Identity, was: set<Identity>)
    requires base in bases
    ensures WalkedUpTo(bases, base, was, was + {base}, 0)
  {
    ReachesSelf(bases, base);
  }

  lemma WalkStep(bases: Graph<Identity>, base: Identity, was: set<Identity>, now: set<Identity>, next: set<Identity>,
                 i: nat)
    requires base in bases && i < |bases[base]| && was <= now <= next && bases[base][i] in next
    requires WalkedUpTo(bases, base, was, now, i) && WalkedFrom(bases, bases[base][i], now, next)
    ensures WalkedUpTo(bases, base, was, next, i + 1)
  {
    hide Reaches;
    assert bases[base][i] in Succ(bases, base);
    forall n | n in next - was
      ensures Reaches(bases, base, n)
    {
      if n !in now {
        EdgeReaches(bases, base, bases[base][i]);
        ReachesTransitive(bases, base, bases[base][i], n);
      }
    }
  }

  lemma WalkEnds(bases: Graph<Identity>, base: Identity, was: set<Identity>, now: set<Identity>)
    requires base in bases && WalkedUpTo(bases, base, was, now, |bases[base]|)
    ensures WalkedFrom(bases, base, was, now)
  {
    hide Reaches;
  }

  lemma BaseInside(bases: Graph<Identity>, base: Identity, i: nat)
    requires BasesInside(bases) && base in bases && i < |bases[base]|
    ensures bases[base][i] in bases
  {
  }

  lemma AppendedInTurn(a: Derivations, b: Derivations, c: Derivations, d: Identity,
                       was: set<Identity>, now: set<Identity>, next: set<Identity>)
    requires was <= now <= next && AppendedTo(a, b, d, now - was) && AppendedTo(b, c, d, next - now)
    ensures AppendedTo(a, c, d, next - was)
  {
  }

  /** seen holds exactly the identities that already have d in their list. */
  ghost predicate HoldsMarks(names: BaseNames, derived: Derivations, d: Identity, seen: set<Identity>)
    requires derived.Keys == names.Keys
  {
    forall b :: b in seen <==> b in names && d in derived[b]
  }

  /** No identity in xs was added to or dropped from any list. */
  ghost predicate SameRecords(before: Derivations, after: Derivations, xs: set<Identity>) {
    after.Keys == before.Keys && forall x, b :: x in xs && b in before ==> (x in after[b] <==> x in before[b])
  }

  /** Neither the recorded bases of the identities in xs nor their places in any list changed. */
  ghost predicate Undisturbed(bases: Graph<Identity>, before: Derivations, bases': Graph<Identity>, after: Derivations,
                              xs: set<Identity>)
  {
    SameRecords(before, after, xs) && bases'.Keys == bases.Keys
      && forall x :: x in xs && x in bases ==> bases'[x] == bases[x]
  }

  lemma UndisturbedReflexive(bases: Graph<Identity>, a: Derivations, xs: set<Identity>)
    ensures Undisturbed(bases, a, bases, a, xs)
  {
  }

  lemma UndisturbedTransitive(bases: Graph<Identity>, a: Derivations, bases': Graph<Identity>, b: Derivations,
                              bases'': Graph<Identity>, c: Derivations, xs: set<Identity>, ys: set<Identity>)
    requires Undisturbed(bases, a, bases', b, ys) && Undisturbed(bases', b, bases'', c, xs) && xs <= ys
    ensures Undisturbed(bases, a, bases'', c, xs)
  {
  }

  lemma BasesKept(bases: Graph<Identity>, before: Derivations, bases': Graph<Identity>, after: Derivations,
                  xs: set<Identity>, d: Identity)
    requires Undisturbed(bases, before, bases', after, xs) && d in xs && d in bases
    ensures d in bases' && bases'[d] == bases[d]
  {
  }

  lemma MarksKept(names: BaseNames, bases: Graph<Identity>, before: Derivations,
                  bases': Graph<Identity>, after: Derivations, xs: set<Identity>, d: Identity, seen: set<Identity>)
    requires before.Keys == names.Keys && Undisturbed(bases, before, bases', after, xs) && d in xs && d in bases
    requires HoldsMarks(names, before, d, seen)
    ensures HoldsMarks(names, after, d, seen) && bases'[d] == bases[d]
  {
  }

  lemma VisitedInside(derived: Derivations, d: Identity, seen: Option<set<Identity>>)
    requires seen.Some? ==> seen.value <= derived.Keys
    ensures Visited(derived, d, seen) <= derived.Keys
  {
  }

  lemma VisitedSet(derived: Derivations, d: Identity, seen: Option<set<Identity>>)
    ensures seen.Some? ==> Visited(derived, d, seen) == seen.value
  {
  }

  lemma Revisited(derived: Derivations, d: Identity, seen: Option<set<Identity>>, base: Identity)
    requires base in derived
    ensures (seen.Some? ==> seen.value <= derived.Keys) ==> Visited(derived, d, seen) <= derived.Keys
    ensures base in Visited(derived, d, seen) <==>
              match seen
              case Some(s) => base in s
              case None => derived[base] != [] && derived[base][|derived[base]| - 1] == d
  {
  }

  lemma NewlyVisited(derived: Derivations, d: Identity, seen: Option<set<Identity>>, base: Identity)
    requires base in derived
    ensures var marked := if seen.Some? then Some(seen.value + {base}) else None;
            Visited(derived[base := derived[base] + [d]], d, marked) == Visited(derived, d, seen) + {base}
  {
  }

  /** after is before with d appended exactly to the lists of the nodes in added. */
  ghost predicate AppendedTo(before: Derivations, after: Derivations,
                             d: Identity, added: set<Identity>)
  {
    && after.Keys == before.Keys
    && forall b :: b in before ==> after[b] == if b in added then before[b] + [d] else before[b]
  }

  /** Recording one more base of d adds exactly what that base reaches to what d reaches. */
  lemma OneMoreBase(bases: Graph<Identity>, next: Graph<Identity>, resolved: set<Identity>, d: Identity, base: Identity)
    requires d in bases && d !in resolved && base in resolved && Closed(bases, resolved)
    requires next == bases[d := bases[d] + [base]] && forall m :: m in bases[d] ==> m in resolved
    ensures forall m, b :: m in resolved ==> (Reaches(bases, m, b) <==> Reaches(next, m, b))
    ensures forall b :: StrictlyReaches(next, d, b) <==> StrictlyReaches(bases, d, b) || Reaches(bases, base, b)
    ensures Closed(next, resolved)
  {
    assert forall n :: n in resolved ==> Succ(bases, n) == Succ(next, n);
    forall m, b | m in resolved
      ensures Reaches(bases, m, b) <==> Reaches(next, m, b)
    {
      hide Reaches;
      AgreeingReaches(bases, next, resolved, m, b);
    }
    forall b
      ensures StrictlyReaches(next, d, b) <==> StrictlyReaches(bases, d, b) || Reaches(bases, base, b)
    {
      OneMoreBaseAt(bases, next, resolved, d, base, b);
    }
  }

  lemma OneMoreBaseAt(bases: Graph<Identity>, next: Graph<Identity>, resolved: set<Identity>, d: Identity,
                      base: Identity, b: Identity)
    requires d in bases && base in resolved
    requires next == bases[d := bases[d] + [base]]
    requires forall m :: m in resolved ==> (Reaches(bases, m, b) <==> Reaches(next, m, b))
    requires forall m :: m in bases[d] ==> m in resolved
    ensures StrictlyReaches(next, d, b) <==> StrictlyReaches(bases, d, b) || Reaches(bases, base, b)
  {
    hide Reaches;
    assert Succ(next, d) == Succ(bases, d) + [base];
    if StrictlyReaches(next, d, b) {
      var m :| m in Succ(next, d) && Reaches(next, m, b);
      assert m in Succ(bases, d) || m == base;
    }
    if StrictlyReaches(bases, d, b) {
      var m :| m in Succ(bases, d) && Reaches(bases, m, b);
      assert m in Succ(next, d);
    }
    if Reaches(bases, base, b) {
      assert base in Succ(next, d);
    }
  }

  /**
   visited is everything above the bases of d recorded so far and added is what a walk
   from one more base appended; together they are everything above d.
   */
  lemma WalkCovers(bases: Graph<Identity>, next: Graph<Identity>, resolved: set<Identity>, d: Identity, base: Identity,
                   visited: set<Identity>, added: set<Identity>)
    requires d in bases && d !in resolved && base in resolved && Closed(bases, resolved)
    requires next == bases[d := bases[d] + [base]] && forall m :: m in bases[d] ==> m in resolved
    requires forall b :: b in visited <==> StrictlyReaches(bases, d, b)
    requires base in visited + added
    requires forall n, m :: n in added && m in Succ(next, n) ==> m in visited + added
    requires forall n :: n in added ==> Reaches(next, base, n)
    ensures forall b :: b in visited + added <==> StrictlyReaches(next, d, b)
  {
    hide Reaches;
    OneMoreBase(bases, next, resolved, d, base);
    var marked := visited + added;
    forall n, m | n in marked && n != d && m in Succ(next, n)
      ensures m in marked
    {
      if n in visited {
        var k :| k in Succ(bases, d) && Reaches(bases, k, n);
        ReachesThenEdge(bases, k, n, m);
      }
    }
    forall b | Reaches(bases, base, b)
      ensures b in marked
    {
      MarkedReaches(next, resolved, marked, d, base, b);
    }
  }

  lemma MarkedReaches(g: Graph<Identity>, resolved: set<Identity>, marked: set<Identity>, d: Identity, base: Identity,
                      b: Identity)
    requires Closed(g, resolved) && d !in resolved && base in resolved && base in marked
    requires forall n, m :: n in marked && n != d && m in Succ(g, n) ==> m in marked
    requires Reaches(g, base, b)
    ensures b in marked
  {
    hide Reaches;
    assert Closed(g, resolved * marked);
    ClosedReaches(g, resolved * marked, base, b);
  }

  /** A walk that closed its visited set has appended d to the base and everything above it. */
  lemma WalkRecords(names: BaseNames, bases: Graph<Identity>, before: Derivations,
                    after: Derivations, resolved: set<Identity>, resolving: set<Identity>,
                    order: seq<Identity>, d: Identity, base: Identity, visited: set<Identity>, added: set<Identity>)
    requires Consistent(names, bases, before, resolved, resolving, order)
    requires d in resolving && base in resolved && |bases[d]| < |names[d]| && names[d][|bases[d]|] == Some(base)
    requires forall b :: b in visited <==> b in names && d in before[b]
    requires AppendedTo(before, after, d, added) && visited !! added && base in visited + added && added <= names.Keys
    requires forall n, m :: n in added && m in Succ(bases[d := bases[d] + [base]], n) ==> m in visited + added
    requires forall n :: n in added ==> Reaches(bases[d := bases[d] + [base]], base, n)
    ensures Consistent(names, bases[d := bases[d] + [base]], after, resolved, resolving, order)
    ensures forall b :: b in visited + added <==> b in names && d in after[b]
    ensures forall xs :: d !in xs ==> SameRecords(before, after, xs)
  {
    hide Reaches, StrictlyReaches, Topological, Distinct, BasesFirst, NoRepeats, PrefixOfNames, AppendedTo, SameRecords;
    var next := bases[d := bases[d] + [base]];
    forall b
      ensures b in visited <==> StrictlyReaches(bases, d, b)
    {
      if b !in names && StrictlyReaches(bases, d, b) {
        StaysInside(bases, d, b);
      }
    }
    WalkCovers(bases, next, resolved, d, base, visited, added);
    MarkedAfter(names, before, after, d, visited, added);
    OnlyAppended(before, after, d, added);
    OtherRecords(bases, next, resolved, before, after, d, base, added);
    StillOrdered(bases, next, resolved, order);
    AppendedOnce(before, after, d, visited, added);
    NextProgress(names, bases, resolved, resolving, d, base);
  }

  lemma MarkedAfter(names: BaseNames, before: Derivations, after: Derivations, d: Identity, visited: set<Identity>,
                    added: set<Identity>)
    requires before.Keys == names.Keys && AppendedTo(before, after, d, added) && added <= names.Keys
    requires forall b :: b in visited <==> b in names && d in before[b]
    ensures forall b :: b in visited + added <==> b in names && d in after[b]
  {
  }

  lemma OnlyAppended(before: Derivations, after: Derivations, d: Identity, added: set<Identity>)
    requires AppendedTo(before, after, d, added)
    ensures after.Keys == before.Keys
    ensures forall xs :: d !in xs ==> SameRecords(before, after, xs)
  {
  }

  lemma NextProgress(names: BaseNames, bases: Graph<Identity>, resolved: set<Identity>, resolving: set<Identity>,
                     d: Identity, base: Identity)
    requires Progress(names, bases, resolved, resolving)
    requires d in resolving && base in resolved && |bases[d]| < |names[d]| && names[d][|bases[d]|] == Some(base)
    ensures Progress(names, bases[d := bases[d] + [base]], resolved, resolving)
  {
  }

  lemma StillOrdered(bases: Graph<Identity>, next: Graph<Identity>, resolved: set<Identity>, order: seq<Identity>)
    requires BasesFirst(bases, resolved, order)
    requires forall x :: x in resolved ==> Succ(next, x) == Succ(bases, x)
    ensures BasesFirst(next, resolved, order)
  {
    forall i, m | 0 <= i < |order| && m in Succ(next, order[i])
      ensures m in order[..i]
    {
      assert order[i] in resolved;
    }
  }

  lemma AppendedOnce(before: Derivations, after: Derivations, d: Identity, visited: set<Identity>, added: set<Identity>)
    requires NoRepeats(before) && AppendedTo(before, after, d, added) && visited !! added
    requires forall b :: b in before && d in before[b] ==> b in visited
    ensures NoRepeats(after)
  {
  }

  /** What is reached by an edge is a node that has a list of its own. */
  lemma StaysInside(bases: Graph<Identity>, d: Identity, b: Identity)
    requires forall x, m :: x in bases && m in bases[x] ==> m in bases
    requires StrictlyReaches(bases, d, b)
    ensures b in bases
  {
    var m :| m in Succ(bases, d) && Reaches(bases, m, b);
    assert Closed(bases, bases.Keys);
    ClosedReaches(bases, bases.Keys, m, b);
  }

  lemma OtherRecords(bases: Graph<Identity>, next: Graph<Identity>, resolved: set<Identity>,
                     before: Derivations, after: Derivations, d: Identity, base: Identity, added: set<Identity>)
    requires before.Keys == bases.Keys && d in bases && d !in resolved && base in resolved && Closed(bases, resolved)
    requires forall x, m :: x in bases && m in bases[x] ==> m in resolved
    requires next == bases[d := bases[d] + [base]] && RecordedAs(bases, before)
    requires AppendedTo(before, after, d, added)
    requires forall b :: b in before ==> (d in after[b] <==> StrictlyReaches(next, d, b))
    ensures RecordedAs(next, after)
  {
    hide Reaches;
    OneMoreBase(bases, next, resolved, d, base);
    forall y, b | b in before && y != d
      ensures StrictlyReaches(next, y, b) <==> StrictlyReaches(bases, y, b)
    {
      assert Succ(next, y) == Succ(bases, y);
    }
  }
  /** An identity whose resolution has not begun has recorded nothing. */
  lemma Start(names: BaseNames, bases: Graph<Identity>, derived: Derivations,
              resolved: set<Identity>, resolving: set<Identity>, order: seq<Identity>, d: Identity)
    requires Consistent(names, bases, derived, resolved, resolving, order)
    requires d in names && d !in resolved && d !in resolving
    ensures Consistent(names, bases, derived, resolved, resolving + {d}, order)
    ensures bases[d] == [] && HoldsMarks(names, derived, d, {})
  {
    forall b | b in names
      ensures d !in derived[b]
    {
      assert Succ(bases, d) == [];
    }
  }

  /** An identity whose bases were all recorded becomes resolved. */
  lemma Finish(names: BaseNames, bases: Graph<Identity>, derived: Derivations,
               resolved: set<Identity>, resolving: set<Identity>, order: seq<Identity>, d: Identity,
                 yang11: set<Identity>)
    requires Consistent(names, bases, derived, resolved, resolving, order) && VersionsOk(names, resolved, yang11)
    requires d in resolving && |bases[d]| == |names[d]| && (|names[d]| > 1 ==> d in yang11)
    ensures VersionsOk(names, resolved + {d}, yang11)
    ensures Consistent(names, bases, derived, resolved + {d}, resolving - {d}, order + [d])
  {
    var longer := order + [d];
    forall i, m | 0 <= i < |longer| && m in Succ(bases, longer[i])
      ensures m in longer[..i]
    {
      if i < |order| {
        assert longer[..i] == order[..i];
      } else {
        assert longer[..i] == order;
      }
    }
  }

  /** When everything is resolved the recorded graph is the declared one. */
  lemma CompleteGraph(names: BaseNames, bases: Graph<Identity>, derived: Derivations, order: seq<Identity>)
    requires Consistent(names, bases, derived, names.Keys, {}, order)
    ensures bases == BaseGraph(names)
    ensures Acyclic(bases)
  {
    forall x | x in names
      ensures bases[x] == KnownBases(names[x])
    {
      AllKnown(names[x], bases[x]);
    }
    forall n
      ensures !StrictlyReaches(bases, n, n)
    {
      if n in names {
        TopologicalAcyclic(bases, order, n);
      } else {
        assert Succ(bases, n) == [];
      }
    }
  }

  lemma Complete(names: BaseNames, bases: Graph<Identity>, derived: Derivations, resolved: set<Identity>,
                 order: seq<Identity>, yang11: set<Identity>)
    requires Consistent(names, bases, derived, resolved, {}, order) && names.Keys <= resolved
    requires VersionsOk(names, resolved, yang11)
    ensures resolved == names.Keys && bases == BaseGraph(names) && !Defective(names, yang11)
    ensures derived.Keys == names.Keys
    ensures RecordedAs(BaseGraph(names), derived) && NoRepeats(derived)
  {
    assert resolved == names.Keys;
    CompleteGraph(names, bases, derived, order);
    forall x | x in names
      ensures None !in names[x]
    {
      assert PrefixOfNames(bases[x], names[x]);
    }
  }

  lemma AddThenRemove<T>(s: set<T>, x: T)
    requires x !in s
    ensures s + {x} - {x} == s
  {
  }

  class IdentityResolver {
    const names: BaseNames
    const moduleOf: map<Identity, ModuleId>
    const yang11: set<Identity>
    var bases: Graph<Identity>
    var derived: Derivations
    var resolved: set<Identity>
    var resolving: set<Identity>
    // The modules on which a schema error was recorded.
    var failed: set<ModuleId>
    ghost var order: seq<Identity>

    ghost predicate Shape()
      reads this
    {
      && WellFormedNames(names)
      && moduleOf.Keys == names.Keys
      && bases.Keys == derived.Keys == names.Keys
      && BasesInside(bases)
      && resolving <= names.Keys
    }

    ghost predicate Valid()
      reads this
    {
      && Shape()
      && (failed == {} ==> Consistent(names, bases, derived, resolved, resolving, order))
      && (failed == {} ==> VersionsOk(names, resolved, yang11))
      && (failed != {} ==> Defective(names, yang11))
    }

    constructor (names: BaseNames, moduleOf: map<Identity, ModuleId>, yang11: set<Identity>)
      requires WellFormedNames(names) && moduleOf.Keys == names.Keys
      ensures Valid() && this.names == names && this.yang11 == yang11
      ensures resolved == {} && resolving == {} && failed == {}
    {
      this.names, this.moduleOf, this.yang11 := names, moduleOf, yang11;
      bases := map x | x in names :: [];
      derived := map x | x in names :: [];
      resolved, resolving, failed, order := {}, {}, {}, [];
    }

    /** Records d on base and on every ancestor of base, once each. */
    method AppendDerivedToAncestors(base: Identity, d: Identity, seen: Option<set<Identity>>)
      returns (marked: Option<set<Identity>>)
      requires Shape() && base in names
      requires seen.Some? ==> seen.value <= names.Keys
      modifies this`derived
      ensures Shape()
      ensures marked.Some? == seen.Some? && (marked.Some? ==> marked.value <= names.Keys)
      ensures var was, now := Visited(old(derived), d, seen), Visited(derived, d, marked);
              && was <= now <= names.Keys && base in now
              && AppendedTo(old(derived), derived, d, now - was)
              && WalkedFrom(bases, base, was, now)
      decreases names.Keys - Visited(derived, d, seen), 0
    {
      hide Reaches, WellFormedNames, Visited, BasesInside, WalkedFrom, WalkedUpTo;
      ghost var was := Visited(derived, d, seen);
      Revisited(derived, d, seen, base);
      NothingWalked(bases, base, was);
      match seen {
        case None =>
          var n := |derived[base]|;
          if n > 0 && derived[base][n - 1] == d {
            return seen;
          }
          marked := None;
        case Some(s) =>
          if base in s {
            return seen;
          }
          marked := Some(s + {base});
      }
      NewlyVisited(derived, d, seen, base);
      WalkBegins(bases, base, was);
      derived := derived[base := derived[base] + [d]];
      marked := AppendToAncestorsOf(base, d, marked, was, old(derived));
    }

    /** Continues a walk that has just appended d to base with the bases of base, in order. */
    method AppendToAncestorsOf(base: Identity, d: Identity, seen: Option<set<Identity>>, ghost was: set<Identity>,
                               ghost start: Derivations)
      returns (marked: Option<set<Identity>>)
      requires Shape() && base in names
      requires seen.Some? ==> seen.value <= names.Keys
      requires Visited(derived, d, seen) == was + {base} && was + {base} <= names.Keys
      requires AppendedTo(start, derived, d, was + {base} - was) && WalkedUpTo(bases, base, was, was + {base}, 0)
      modifies this`derived
      ensures Shape()
      ensures marked.Some? == seen.Some? && (marked.Some? ==> marked.value <= names.Keys)
      ensures var now := Visited(derived, d, marked);
              && was + {base} <= now <= names.Keys
              && AppendedTo(start, derived, d, now - was) && WalkedFrom(bases, base, was, now)
      decreases names.Keys - Visited(derived, d, seen), 1
    {
      hide Reaches, WellFormedNames, Visited, BasesInside, WalkedFrom, WalkedUpTo, AppendedTo;
      marked := seen;
      var i := 0;
      while i < |bases[base]|
        invariant 0 <= i <= |bases[base]|
        invariant Shape() && marked.Some? == seen.Some? && (marked.Some? ==> marked.value <= names.Keys)
        invariant was + {base} <= Visited(derived, d, marked) <= names.Keys
        invariant AppendedTo(start, derived, d, Visited(derived, d, marked) - was)
        invariant WalkedUpTo(bases, base, was, Visited(derived, d, marked), i)
      {
        ghost var before := Visited(derived, d, marked);
        ghost var listed := derived;
        BaseInside(bases, base, i);
        marked := AppendDerivedToAncestors(bases[base][i], d, marked);
        WalkStep(bases, base, was, before, Visited(derived, d, marked), i);
        AppendedInTurn(start, listed, derived, d, was, before, Visited(derived, d, marked));
        i := i + 1;
      }
      WalkEnds(bases, base, was, Visited(derived, d, marked));
    }

    /** Appends base to the bases of id and id to the lists of base and all its ancestors. */
    method RecordBase(id: Identity, base: Identity, ancestors: Option<set<Identity>>)
      returns (marked: Option<set<Identity>>)
      requires Shape() && id in names && base in names
      requires ancestors.Some? ==> ancestors.value <= names.Keys
      requires failed == {} ==> Consistent(names, bases, derived, resolved, resolving, order)
      requires failed == {} ==> id in resolving && base in resolved
      requires failed == {} ==> |bases[id]| < |names[id]| && names[id][|bases[id]|] == Some(base)
      requires failed == {} ==> if ancestors.None? then bases[id] == []
               else HoldsMarks(names, derived, id, ancestors.value)
      modifies this`bases, this`derived
      ensures Shape() && marked.Some? == ancestors.Some?
      ensures marked.Some? ==> marked.value <= names.Keys
      ensures bases == old(bases)[id := old(bases[id]) + [base]]
      ensures failed == {} ==> Consistent(names, bases, derived, resolved, resolving, order)
      ensures failed == {} && marked.Some? ==> HoldsMarks(names, derived, id, marked.value)
      ensures failed == {} ==> Undisturbed(old(bases), old(derived), bases, derived, resolving - {id})
    {
      hide Reaches, StrictlyReaches, Consistent, Visited, WellFormedNames, BasesInside;
      ghost var before := Visited(derived, id, ancestors);
      if failed == {} {
        NotVisited(names, bases, derived, resolved, resolving, order, id, ancestors);
      }
      VisitedInside(derived, id, ancestors);
      bases := bases[id := bases[id] + [base]];
      StillInside(old(bases), bases, id, base);
      marked := AppendDerivedToAncestors(base, id, ancestors);
      VisitedSet(derived, id, marked);
      if failed == {} {
        WalkRecords(names, old(bases), old(derived), derived, resolved, resolving, order, id, base,
                    before, Visited(derived, id, marked) - before);
      }
    }

    /**
     Resolves one identity after its bases.  path is the chain of identities whose
     resolution is under way, each naming the next as a base.
     */
    method ResolveIdentity(id: Identity, ghost path: seq<Identity>)
      requires Valid() && id in names
      requires IsWalk(BaseGraph(names), path + [id])
      requires forall x :: x in path <==> x in resolving
      modifies this`bases, this`derived, this`resolved, this`resolving, this`failed, this`order
      ensures Valid() && resolving == old(resolving) && old(failed) <= failed
      ensures failed == {} ==> old(failed) == {}
      ensures failed == {} ==> id in resolved && old(resolved) <= resolved
      ensures failed == {} ==> Undisturbed(old(bases), old(derived), bases, derived, resolving)
      decreases names.Keys - resolving, 1
    {
      hide Reaches, StrictlyReaches, IsWalk, Acyclic, Consistent, Visited, HoldsMarks, BasesInside,
           WellFormedNames, Undisturbed, Defective, VersionsOk;
      UndisturbedReflexive(bases, derived, resolving);
      if id in resolved {
        return;
      }
      if id in resolving {
        ghost var k :| 0 <= k < |path| && path[k] == id;
        CycleFound(names, yang11, path + [id], k);
        failed := failed + {moduleOf[id]};
        return;
      }
      ResolveFresh(id, path);
    }

    /** Resolves an identity that is neither resolved nor under way. */
    method ResolveFresh(id: Identity, ghost path: seq<Identity>)
      requires Valid() && id in names && id !in resolved && id !in resolving
      requires IsWalk(BaseGraph(names), path + [id])
      requires forall x :: x in path <==> x in resolving
      modifies this`bases, this`derived, this`resolved, this`resolving, this`failed, this`order
      ensures Valid() && resolving == old(resolving) && old(failed) <= failed
      ensures failed == {} ==> old(failed) == {}
      ensures failed == {} ==> id in resolved && old(resolved) <= resolved
      ensures failed == {} ==> Undisturbed(old(bases), old(derived), bases, derived, resolving)
      decreases names.Keys - resolving, 0
    {
      hide Reaches, StrictlyReaches, IsWalk, Acyclic, Consistent, Visited, HoldsMarks, BasesInside,
           WellFormedNames, Undisturbed, Defective, VersionsOk;
      if failed == {} {
        Start(names, bases, derived, resolved, resolving, order, id);
      }
      AddThenRemove(resolving, id);
      resolving := resolving + {id};
      var ok := ResolveBases(id, path);
      if ok {
        MarkResolved(id);
      }
      resolving := resolving - {id};
    }

    /** Marks id as resolved, its bases all being recorded. */
    method MarkResolved(id: Identity)
      requires Valid() && id in resolving
      requires failed == {} ==> |bases[id]| == |names[id]| && (|names[id]| > 1 ==> id in yang11)
      modifies this`resolved, this`order
      ensures resolved == old(resolved) + {id}
      ensures failed == {} ==>
                && Consistent(names, bases, derived, resolved, resolving - {id}, order)
                && VersionsOk(names, resolved, yang11)
    {
      hide Reaches, StrictlyReaches, IsWalk, Acyclic, Consistent, Visited, HoldsMarks, BasesInside,
           WellFormedNames, Undisturbed, Defective, VersionsOk;
      if failed == {} {
        Finish(names, bases, derived, resolved, resolving, order, id, yang11);
      }
      order := order + [id];
      resolved := resolved + {id};
    }

    /** The part of resolving id that runs while id is marked as being resolved; false means it stopped at an error. */
    method ResolveBases(id: Identity, ghost path: seq<Identity>) returns (ok: bool)
      requires Valid() && id in names && id in resolving && id !in path
      requires IsWalk(BaseGraph(names), path + [id])
      requires forall x :: x in path + [id] <==> x in resolving
      requires failed == {} ==> bases[id] == [] && HoldsMarks(names, derived, id, {})
      modifies this`bases, this`derived, this`resolved, this`resolving, this`failed, this`order
      ensures Valid() && resolving == old(resolving) && old(failed) <= failed
      ensures failed == {} ==> old(failed) == {} && ok && old(resolved) <= resolved
      ensures failed == {} ==> |bases[id]| == |names[id]| && (|names[id]| > 1 ==> id in yang11)
      ensures failed == {} ==> Undisturbed(old(bases), old(derived), bases, derived, resolving - {id})
      decreases names.Keys - resolving, 3
    {
      hide Reaches, StrictlyReaches, IsWalk, Acyclic, Consistent, Visited, HoldsMarks, BasesInside,
           WellFormedNames, Undisturbed, Defective, VersionsOk;
      // With several bases one visited set spans their walks.
      var ancestors: Option<set<Identity>> := if |names[id]| > 1 then Some({}) else None;
      UndisturbedReflexive(bases, derived, resolving - {id});
      var i := 0;
      while i < |names[id]|
        invariant 0 <= i <= |names[id]|
        invariant Valid() && resolving == old(resolving) && old(failed) <= failed
        invariant ancestors.Some? <==> |names[id]| > 1
        invariant ancestors.Some? ==> ancestors.value <= names.Keys
        invariant failed == {} ==> old(failed) == {} && |bases[id]| == i && old(resolved) <= resolved
        invariant failed == {} && ancestors.Some? ==> HoldsMarks(names, derived, id, ancestors.value)
        invariant failed == {} ==> Undisturbed(old(bases), old(derived), bases, derived, resolving - {id})
      {
        label Before:
        ok, ancestors := ResolveBase(id, i, ancestors, path);
        if !ok {
          return;
        }
        if failed == {} {
          UndisturbedTransitive(old(bases), old(derived), old@Before(bases), old@Before(derived), bases, derived,
                                resolving - {id}, resolving - {id});
        }
        i := i + 1;
      }
      ok := true;
      if |names[id]| > 1 && id !in yang11 {
        VersionFound(names, yang11, id);
        failed := failed + {moduleOf[id]};
        ok := false;
      }
    }

    /** Resolves the identity that base statement i of id names and records it. */
    method ResolveBase(id: Identity, i: nat, ancestors: Option<set<Identity>>, ghost path: seq<Identity>)
      returns (ok: bool, marked: Option<set<Identity>>)
      requires Valid() && id in names && id in resolving && i < |names[id]|
      requires IsWalk(BaseGraph(names), path + [id])
      requires forall x :: x in path + [id] <==> x in resolving
      requires ancestors.Some? <==> |names[id]| > 1
      requires ancestors.Some? ==> ancestors.value <= names.Keys
      requires failed == {} ==> |bases[id]| == i
      requires failed == {} && ancestors.Some? ==> HoldsMarks(names, derived, id, ancestors.value)
      modifies this`bases, this`derived, this`resolved, this`resolving, this`failed, this`order
      ensures Valid() && resolving == old(resolving) && old(failed) <= failed
      ensures marked.Some? == ancestors.Some? && (marked.Some? ==> marked.value <= names.Keys)
      ensures failed == {} ==> old(failed) == {} && ok && |bases[id]| == i + 1 && old(resolved) <= resolved
      ensures failed == {} && marked.Some? ==> HoldsMarks(names, derived, id, marked.value)
      ensures failed == {} ==> Undisturbed(old(bases), old(derived), bases, derived, resolving - {id})
      decreases names.Keys - resolving, 2
    {
      hide Reaches, StrictlyReaches, IsWalk, Acyclic, Consistent, Visited, HoldsMarks, BasesInside,
           WellFormedNames, Undisturbed, Defective, VersionsOk;
      marked := ancestors;
      if names[id][i].None? {
        UnknownFound(names, yang11, id, i);
        failed := failed + {moduleOf[id]};
        return false, marked;
      }
      var base := names[id][i].value;
      BaseIsKnown(names, id, i);
      ExtendWalk(BaseGraph(names), path + [id], base);
      ResolveIdentity(base, path + [id]);
      if moduleOf[base] in failed {
        return false, marked;
      }
      ok := true;
      ghost var bases1, derived1 := bases, derived;
      if failed == {} {
        BasesKept(old(bases), old(derived), bases, derived, resolving, id);
        if ancestors.Some? {
          MarksKept(names, old(bases), old(derived), bases, derived, resolving, id, ancestors.value);
        }
      }
      marked := RecordBase(id, base, ancestors);
      if failed == {} {
        UndisturbedTransitive(old(bases), old(derived), bases1, derived1, bases, derived, resolving - {id}, resolving);
      }
    }

    /**
     Resolves the identities of all modules.  No error is recorded exactly when the
     declarations have no defect, and then each identity's list holds every identity
     derived from it, directly or not, once, and nothing else.
     */
    method ResolveIdentities(ids: seq<Identity>)
      requires Valid() && resolved == {} && resolving == {} && failed == {}
      requires forall x :: x in ids <==> x in names
      modifies this`bases, this`derived, this`resolved, this`resolving, this`failed, this`order
      ensures failed == {} <==> !Defective(names, yang11)
      ensures failed == {} ==> resolved == names.Keys && bases == BaseGraph(names)
      ensures failed == {} ==> derived.Keys == names.Keys
      ensures failed == {} ==> forall b, d :: b in names ==>
              (d in derived[b] <==> StrictlyReaches(BaseGraph(names), d, b))
      ensures failed == {} ==> forall b :: b in names ==> Distinct(derived[b])
    {
      hide Reaches, StrictlyReaches, Defective, Consistent, Distinct, WellFormedNames;
      var i := 0;
      while i < |ids|
        invariant 0 <= i <= |ids|
        invariant Valid() && resolving == {}
        invariant failed == {} ==> forall j :: 0 <= j < i ==> ids[j] in resolved
      {
        ResolveIdentity(ids[i], []);
        i := i + 1;
      }
      if failed == {} {
        Complete(names, bases, derived, resolved, order, yang11);
      }
    }
  }

  lemma CycleFound(names: BaseNames, yang11: set<Identity>, walk: seq<Identity>, k: nat)
    requires IsWalk(BaseGraph(names), walk) && k < |walk| - 1 && walk[k] == walk[|walk| - 1]
    ensures Defective(names, yang11)
  {
    var c := walk[k..];
    assert ClosedWalk(BaseGraph(names), c);
    ClosedWalkIsCycle(BaseGraph(names), c);
  }

  lemma UnknownFound(names: BaseNames, yang11: set<Identity>, x: Identity, i: nat)
    requires x in names && i < |names[x]| && names[x][i].None?
    ensures Defective(names, yang11)
  {
    assert names[x][i] == None;
    assert None in names[x];
  }

  lemma VersionFound(names: BaseNames, yang11: set<Identity>, x: Identity)
    requires x in names && |names[x]| > 1 && x !in yang11
    ensures Defective(names, yang11)
  {
  }

  lemma ExtendWalk(g: Graph<Identity>, walk: seq<Identity>, next: Identity)
    requires IsWalk(g, walk) && next in Succ(g, walk[|walk| - 1])
    ensures IsWalk(g, walk + [next])
  {
  }

  /** At the start of a walk, visited means already recorded, even without a visited set. */
  lemma NotVisited(names: BaseNames, bases: Graph<Identity>, derived: Derivations,
                   resolved: set<Identity>, resolving: set<Identity>, order: seq<Identity>,
                   d: Identity, seen: Option<set<Identity>>)
    requires Consistent(names, bases, derived, resolved, resolving, order) && d in names
    requires d in bases && (seen.None? ==> bases[d] == [])
    requires seen.Some? ==> HoldsMarks(names, derived, d, seen.value)
    ensures forall b :: b in Visited(derived, d, seen) <==> b in names && d in derived[b]
  {
    if seen.None? {
      forall b | b in names
        ensures d !in derived[b]
      {
        assert Succ(bases, d) == [];
      }
    }
  }

  /**
   Whether id is derived from one of wanted by one or more base edges; base names that
   do not resolve are skipped, and seen cuts the search at identities already looked at.
   */
  method StrictlyDerivedFromAny(names: BaseNames, id: Identity, wanted: set<Identity>, seen: set<Identity>)
    returns (found: bool, seen': set<Identity>)
    requires WellFormedNames(names) && id in names && seen <= names.Keys
    ensures seen <= seen' <= names.Keys && id in seen'
    ensures found ==> exists w :: w in wanted && StrictlyReaches(BaseGraph(names), id, w)
    ensures !found ==> forall n, m :: n in seen' - seen && m in Succ(BaseGraph(names), n) ==> m in seen' && m !in wanted
    decreases names.Keys - seen
  {
    var g := BaseGraph(names);
    if id in seen {
      return false, seen;
    }
    seen' := seen + {id};
    var i := 0;
    while i < |names[id]|
      invariant 0 <= i <= |names[id]|
      invariant seen + {id} <= seen' <= names.Keys
      invariant forall n, m :: n in seen' - seen && n != id && m in Succ(g, n) ==> m in seen' && m !in wanted
      invariant forall j :: 0 <= j < i && names[id][j].Some? ==>
                names[id][j].value in seen' && names[id][j].value !in wanted
    {
      if names[id][i].Some? {
        var base := names[id][i].value;
        BaseIsKnown(names, id, i);
        if base in wanted {
          EdgeReaches(g, id, base);
          return true, seen';
        }
        found, seen' := StrictlyDerivedFromAny(names, base, wanted, seen');
        if found {
          ghost var w :| w in wanted && StrictlyReaches(g, base, w);
          StrictlyReachesReaches(g, base, w);
          assert base in Succ(g, id);
          assert StrictlyReaches(g, id, w);
          return;
        }
      }
      i := i + 1;
    }
    forall m | m in Succ(g, id)
      ensures m in seen' && m !in wanted
    {
      KnownBasesHolds(names[id], m);
    }
    found := false;
  }

  /** The question asked from an empty visited set has the exact answer. */
  method DerivedFromAny(names: BaseNames, id: Identity, wanted: set<Identity>) returns (found: bool)
    requires WellFormedNames(names) && id in names
    ensures found <==> exists w :: w in wanted && StrictlyReaches(BaseGraph(names), id, w)
  {
    var g := BaseGraph(names);
    var seen;
    found, seen := StrictlyDerivedFromAny(names, id, wanted, {});
    if !found {
      assert Closed(g, seen);
      forall w | StrictlyReaches(g, id, w)
        ensures w !in wanted
      {
        var w' := LastEdge(g, id, w);
        ClosedReaches(g, seen, id, w');
      }
    }
  }

  /** A non-empty walk to b has a last edge. */
  lemma LastEdge<N(!new)>(g: Graph<N>, a: N, b: N) returns (m: N)
    requires StrictlyReaches(g, a, b)
    ensures Reaches(g, a, m) && b in Succ(g, m)
  {
    var f :| f in Succ(g, a) && Reaches(g, f, b);
    var w :| WalkFromTo(g, w, f, b);
    if |w| == 1 {
      m := a;
      ReachesSelf(g, a);
    } else {
      m := w[|w| - 2];
      assert WalkFromTo(g, w[..|w| - 1], f, m);
      EdgeReaches(g, a, f);
      ReachesTransitive(g, a, f, m);
      assert w[|w| - 1] in Succ(g, w[|w| - 2]);
    }
  }
}
