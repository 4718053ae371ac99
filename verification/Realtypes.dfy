/**
 The pass that stores in every leafref a copy of its target's type, targets before
 the leaves that refer to them.  Schemas may be loaded with leafref cycles; there the
 pass leaves out the copy at the edge that closes a cycle.
 */
module Realtypes {
  import opened Common
  import opened Graphs
  import opened Leafrefs
  import opened LeafrefCycles

  datatype State = Active | Complete

  type States = map<Node, State>

  /**
   What a leafref of n holds when the nodes in before were finished before n.  A copy is left
   out exactly when the target was not finished, and then its chain leads back to n.
   */
  ghost predicate CopyOf(orig: Types, types: Types, before: seq<Node>, n: Node, target: Option<Node>,
                         realtype: Option<Resolved>) {
    if target.None? || target.value !in orig || target.value !in types then realtype == None
    else if !ContainsLeafref(orig[target.value]) || target.value in before then realtype == Some(types[target.value])
    else realtype == None && Reaches(TargetGraph(orig), target.value, n)
  }

  /** r is o with the copies of its leafrefs filled in from types. */
  ghost predicate Snapped(orig: Types, types: Types, before: seq<Node>, n: Node, o: Resolved, r: Resolved) {
    match o
    case LeafRef(target, _) => r.LeafRef? && r.target == target && CopyOf(orig, types, before, n, target, r.realtype)
    case Union(members) =>
      r.Union? && |r.members| == |members|
      && forall i :: 0 <= i < |members| ==> Snapped(orig, types, before, n, members[i], r.members[i])
    case Other(_) => r == o
  }

  /** Visited nodes keep their state, newly visited ones are finished, and a finished node keeps its type. */
  ghost predicate Advances(types: Types, states: States, done: seq<Node>, types': Types, states': States,
                           done': seq<Node>) {
    && types'.Keys == types.Keys && done <= done'
    && (forall m :: m in states ==> m in states' && states'[m] == states[m])
    && (forall m :: m in states' && m !in states ==> states'[m] == Complete)
    && (forall m :: m in types && (m !in states' || (m in states && states[m] == Complete)) ==> types'[m] == types[m])
  }

  /** done lists the finished nodes in the order they were finished. */
  ghost predicate PassInvariant(orig: Types, types: Types, states: States, done: seq<Node>) {
    && types.Keys == orig.Keys
    && (forall m :: m in states ==> IsLeafrefNode(orig, m))
    && (forall m :: m in types && (m !in states || states[m] == Active) ==> types[m] == orig[m])
    && Distinct(done) && (forall m :: m in done <==> m in states && states[m] == Complete)
    && (forall i :: 0 <= i < |done| ==> Settled(orig, types, states, done, i))
  }

  /** The i-th finished node found its targets visited, and its copies were made from those finished before it. */
  ghost predicate Settled(orig: Types, types: Types, states: States, done: seq<Node>, i: nat)
    requires types.Keys == orig.Keys && i < |done|
  {
    && done[i] in orig && Snapped(orig, types, done[..i], done[i], orig[done[i]], types[done[i]])
    && TargetsVisited(orig, states, orig[done[i]])
  }

  ghost predicate TargetsVisited(orig: Types, states: States, r: Resolved) {
    forall t :: t in Targets(r) && IsLeafrefNode(orig, t) ==> t in states
  }

  ghost predicate ActiveReach(orig: Types, states: States, n: Node) {
    forall a :: a in states && states[a] == Active ==> Reaches(TargetGraph(orig), a, n)
  }

  /** A filled-in type stays right while the finished nodes it took its copies from keep their types. */
  lemma {:induction false} SnappedLater(orig: Types, types: Types, before: seq<Node>, types': Types, before': seq<Node>,
                                        n: Node, o: Resolved, r: Resolved)
    requires types.Keys == types'.Keys == orig.Keys
    requires forall m :: m in orig && (!ContainsLeafref(orig[m]) || m in before) ==> types'[m] == types[m]
    requires forall m :: m in before ==> m in before'
    requires forall t :: t in Targets(o) && IsLeafrefNode(orig, t) && t in before' ==> t in before
    requires Snapped(orig, types, before, n, o, r)
    ensures Snapped(orig, types', before', n, o, r)
  {
    hide Reaches;
    match o
    case Union(members) =>
      forall i | 0 <= i < |members|
        ensures Snapped(orig, types', before', n, members[i], r.members[i])
      {
        MemberTargetsHold(members, i);
        SnappedLater(orig, types, before, types', before', n, members[i], r.members[i]);
      }
    case _ =>
  }

  lemma PlainTypesKept(orig: Types, types: Types, states: States, done: seq<Node>)
    requires PassInvariant(orig, types, states, done)
    ensures forall m :: m in orig && !ContainsLeafref(orig[m]) ==> types[m] == orig[m]
  {
  }

  /** A filled-in part of the type of a node being visited stays right as the pass advances. */
  lemma SnappedWhileVisiting(orig: Types, types: Types, states: States, done: seq<Node>, types': Types, states': States,
                             done': seq<Node>,
                             n: Node, o: Resolved, r: Resolved)
    requires PassInvariant(orig, types, states, done) && PassInvariant(orig, types', states', done')
    requires Advances(types, states, done, types', states', done')
    requires Snapped(orig, types, done, n, o, r) && TargetsVisited(orig, states, o)
    ensures Snapped(orig, types', done', n, o, r) && TargetsVisited(orig, states', o)
  {
    hide Snapped, Settled;
    PlainTypesKept(orig, types, states, done);
    PlainTypesKept(orig, types', states', done');
    SnappedLater(orig, types, done, types', done', n, o, r);
  }

  lemma AdvancesBoth(types: Types, states: States, done: seq<Node>, types': Types, states': States, done': seq<Node>,
                     types'': Types, states'': States, done'': seq<Node>)
    requires Advances(types, states, done, types', states', done')
             && Advances(types', states', done', types'', states'', done'')
    ensures Advances(types, states, done, types'', states'', done'')
  {
  }

  /** Marking a node as being visited. */
  lemma Begin(orig: Types, types: Types, states: States, done: seq<Node>, n: Node)
    requires PassInvariant(orig, types, states, done) && IsLeafrefNode(orig, n) && n !in states
             && ActiveReach(orig, states, n)
    ensures PassInvariant(orig, types, states[n := Active], done) && ActiveReach(orig, states[n := Active], n)
    ensures orig.Keys - states[n := Active].Keys < orig.Keys - states.Keys
  {
    hide Snapped, Reaches;
    var next := states[n := Active];
    assert n in orig.Keys - states.Keys;
    ReachesSelf(TargetGraph(orig), n);
    forall i | 0 <= i < |done|
      ensures Settled(orig, types, next, done, i)
    {
      assert Settled(orig, types, states, done, i);
    }
  }

  /** Storing a node's filled-in type and finishing it. */
  lemma End(orig: Types, types: Types, states: States, done: seq<Node>, n: Node, r: Resolved)
    requires PassInvariant(orig, types, states, done) && n in states && states[n] == Active
    requires Snapped(orig, types, done, n, orig[n], r) && TargetsVisited(orig, states, orig[n])
    ensures PassInvariant(orig, types[n := r], states[n := Complete], done + [n])
  {
    hide Snapped;
    var types', states', done' := types[n := r], states[n := Complete], done + [n];
    forall i | 0 <= i < |done'|
      ensures Settled(orig, types', states', done', i)
    {
      assert done'[..i] == done[..i];
      assert i < |done| ==> Settled(orig, types, states, done, i) && done[i] != n;
      SnappedLater(orig, types, done[..i], types', done[..i], done'[i], orig[done'[i]], types'[done'[i]]);
    }
  }

  lemma StepReaches(orig: Types, states: States, n: Node, t: Node)
    requires ActiveReach(orig, states, n) && t in Succ(TargetGraph(orig), n)
    ensures ActiveReach(orig, states, t)
  {
    hide Reaches;
    forall a | a in states && states[a] == Active
      ensures Reaches(TargetGraph(orig), a, t)
    {
      ReachesThenEdge(TargetGraph(orig), a, n, t);
    }
  }

  lemma {:induction false} MemberTargetsHold(members: seq<Resolved>, i: nat)
    requires i < |members|
    ensures forall t :: t in Targets(members[i]) ==> t in MemberTargets(members)
  {
    if i > 0 {
      MemberTargetsHold(members[1..], i - 1);
    }
  }

  /** Filling in copies does not change whether a type contains a leafref. */
  lemma {:induction false} SnappedShape(orig: Types, types: Types, before: seq<Node>, n: Node, o: Resolved, r: Resolved)
    requires Snapped(orig, types, before, n, o, r)
    ensures ContainsLeafref(r) == ContainsLeafref(o)
  {
    hide CopyOf;
    match o
    case Union(members) =>
      forall i | 0 <= i < |members|
        ensures ContainsLeafref(r.members[i]) == ContainsLeafref(members[i])
      {
        SnappedShape(orig, types, before, n, members[i], r.members[i]);
      }
      if ContainsLeafref(o) {
        var m :| m in members && ContainsLeafref(m);
        var i :| 0 <= i < |members| && members[i] == m;
        assert r.members[i] in r.members;
      }
      if ContainsLeafref(r) {
        var m :| m in r.members && ContainsLeafref(m);
        var i :| 0 <= i < |r.members| && r.members[i] == m;
        assert members[i] in members;
      }
    case _ =>
  }

  lemma SameShape(orig: Types, types: Types, states: States, done: seq<Node>, n: Node)
    requires PassInvariant(orig, types, states, done) && n in types
    ensures n in orig && ContainsLeafref(types[n]) == ContainsLeafref(orig[n])
  {
    if n in done {
      var i :| 0 <= i < |done| && done[i] == n;
      assert Settled(orig, types, states, done, i);
      SnappedShape(orig, types, done[..i], n, orig[n], types[n]);
    }
  }

  lemma StillActiveReach(orig: Types, types: Types, states: States, done: seq<Node>, types': Types, states': States,
                         done': seq<Node>, n: Node)
    requires Advances(types, states, done, types', states', done') && ActiveReach(orig, states, n)
    ensures ActiveReach(orig, states', n) && states.Keys <= states'.Keys
    ensures n in states ==> states'[n] == states[n]
  {
    hide Reaches;
  }

  /** The whole visit of a node not visited before. */
  lemma VisitAdvances(types: Types, states: States, done: seq<Node>, types1: Types, states1: States, done1: seq<Node>,
                      n: Node, r: Resolved)
    requires n !in states && n in types && Advances(types, states[n := Active], done, types1, states1, done1)
    ensures Advances(types, states, done, types1[n := r], states1[n := Complete], done1 + [n])
  {
  }

  lemma NothingAdvances(types: Types, states: States, done: seq<Node>)
    ensures Advances(types, states, done, types, states, done)
  {
  }

  /** What a visit to the target says about the copy to store; there is none for a target still under way. */
  lemma CopyJustified(orig: Types, types: Types, states: States, done: seq<Node>, n: Node, target: Option<Node>,
                      visited: bool)
    requires PassInvariant(orig, types, states, done) && ActiveReach(orig, states, n)
    requires target.Some? && target.value in types ==> VisitOutcome(orig, states, target.value, visited)
    ensures CopyOf(orig, types, done, n, target,
                   if target.Some? && target.value in types && visited then Some(types[target.value]) else None)
    ensures target.Some? && IsLeafrefNode(orig, target.value) ==>
              target.value in states && (visited <==> target.value in done)
                && (!visited <==> states[target.value] == Active)
  {
    hide Reaches, Settled;
  }

  /** A visit fails exactly when it meets a node still being visited. */
  ghost predicate VisitOutcome(orig: Types, states: States, n: Node, ok: bool) {
    if IsLeafrefNode(orig, n) then n in states && (ok <==> states[n] == Complete) else ok
  }

  /** The first i members are filled in and the others are as they were. */
  ghost predicate MembersSnapped(orig: Types, types: Types, states: States, done: seq<Node>, n: Node, os: seq<Resolved>,
                                 rs: seq<Resolved>, i: nat)
  {
    && |rs| == |os|
    && (forall j :: 0 <= j < i && j < |os| ==>
        Snapped(orig, types, done, n, os[j], rs[j]) && TargetsVisited(orig, states, os[j]))
    && (forall j :: i <= j < |os| ==> rs[j] == os[j])
  }

  lemma OneMoreMember(orig: Types, types: Types, states: States, done: seq<Node>, types': Types, states': States,
                      done': seq<Node>,
                      n: Node, os: seq<Resolved>, rs: seq<Resolved>, i: nat, r: Resolved)
    requires MembersSnapped(orig, types, states, done, n, os, rs, i) && i < |os|
    requires PassInvariant(orig, types, states, done) && PassInvariant(orig, types', states', done')
    requires Advances(types, states, done, types', states', done')
    requires Snapped(orig, types', done', n, os[i], r) && TargetsVisited(orig, states', os[i])
    ensures MembersSnapped(orig, types', states', done', n, os, rs[i := r], i + 1)
  {
    hide Snapped, TargetsVisited, PassInvariant, Advances;
    forall j | 0 <= j < i
      ensures Snapped(orig, types', done', n, os[j], rs[j]) && TargetsVisited(orig, states', os[j])
    {
      SnappedWhileVisiting(orig, types, states, done, types', states', done', n, os[j], rs[j]);
    }
  }

  lemma NoMembers(orig: Types, types: Types, states: States, done: seq<Node>, n: Node, os: seq<Resolved>)
    ensures MembersSnapped(orig, types, states, done, n, os, os, 0)
  {
  }

  lemma AllMembers(orig: Types, types: Types, states: States, done: seq<Node>, n: Node, os: seq<Resolved>,
                   rs: seq<Resolved>)
    requires MembersSnapped(orig, types, states, done, n, os, rs, |os|)
    ensures Snapped(orig, types, done, n, Union(os), Union(rs)) && TargetsVisited(orig, states, Union(os))
  {
    hide CopyOf;
    forall t | t in MemberTargets(os) && IsLeafrefNode(orig, t)
      ensures t in states
    {
      var i := MemberTargetFrom(os, t);
    }
  }

  lemma {:induction false} MemberTargetFrom(members: seq<Resolved>, t: Node) returns (i: nat)
    requires t in MemberTargets(members)
    ensures i < |members| && t in Targets(members[i])
  {
    if t in Targets(members[0]) {
      i := 0;
    } else {
      i := MemberTargetFrom(members[1..], t);
      i := i + 1;
    }
  }

  lemma LeafrefSnapped(orig: Types, types: Types, states: States, done: seq<Node>, n: Node, r: Resolved,
                       realtype: Option<Resolved>)
    requires r.LeafRef? && CopyOf(orig, types, done, n, r.target, realtype)
    requires r.target.Some? && IsLeafrefNode(orig, r.target.value) ==> r.target.value in states
    ensures Snapped(orig, types, done, n, r, LeafRef(r.target, realtype)) && TargetsVisited(orig, states, r)
  {
  }

  lemma OtherSnapped(orig: Types, types: Types, states: States, done: seq<Node>, n: Node, r: Resolved)
    requires r.Other?
    ensures Snapped(orig, types, done, n, r, r) && TargetsVisited(orig, states, r)
  {
  }

  lemma TypesOf(orig: Types, types: Types, states: States, done: seq<Node>)
    requires PassInvariant(orig, types, states, done)
    ensures types.Keys == orig.Keys
    ensures forall m :: m in types && m !in states ==> types[m] == orig[m]
    ensures forall m :: m in states ==> IsLeafrefNode(orig, m)
    ensures Distinct(done) && forall m :: m in done <==> m in states && states[m] == Complete
  {
  }

  class RealtypePass {
    ghost const orig: Types
    var types: Types
    var states: States
    // The finished nodes, in the order they were finished.
    ghost var done: seq<Node>

    constructor (types: Types)
      ensures this.orig == types && this.types == types && states == map[] && done == []
      ensures PassInvariant(orig, this.types, states, done)
    {
      this.orig, this.types := types, types;
      states, done := map[], [];
    }

    /** Visits n unless it was visited before; false means n is still being visited. */
    method Visit(n: Node) returns (ok: bool)
      requires PassInvariant(orig, types, states, done) && n in types
      requires IsLeafrefNode(orig, n) ==> ActiveReach(orig, states, n)
      modifies this
      ensures PassInvariant(orig, types, states, done)
      ensures Advances(old(types), old(states), old(done), types, states, done)
      ensures VisitOutcome(orig, states, n, ok)
      decreases orig.Keys - states.Keys, 0
    {
      hide Reaches, PassInvariant, ActiveReach, Advances, Snapped, TargetsVisited;
      NothingAdvances(types, states, done);
      SameShape(orig, types, states, done, n);
      if !ContainsLeafref(types[n]) {
        return true;
      }
      if n in states {
        return states[n] == Complete;
      }
      TypesOf(orig, types, states, done);
      Begin(orig, types, states, done, n);
      ghost var types0, states0, done0 := types, states, done;
      states := states[n := Active];
      var r := ResolveType(types[n], n);
      VisitAdvances(types0, states0, done0, types, states, done, n, r);
      End(orig, types, states, done, n, r);
      types := types[n := r];
      states := states[n := Complete];
      done := done + [n];
      ok := true;
    }

    /** Fills in the leafrefs of r, part of the type of the node n being visited. */
    method ResolveType(r: Resolved, ghost n: Node) returns (r': Resolved)
      requires PassInvariant(orig, types, states, done) && ActiveReach(orig, states, n)
      requires n in orig && n in states && states[n] == Active && forall t :: t in Targets(r) ==> t in Targets(orig[n])
      modifies this
      ensures PassInvariant(orig, types, states, done) && ActiveReach(orig, states, n)
      ensures Advances(old(types), old(states), old(done), types, states, done) && n in states && states[n] == Active
      ensures Snapped(orig, types, done, n, r, r') && TargetsVisited(orig, states, r)
      decreases orig.Keys - states.Keys, 1, r
    {
      hide Reaches, PassInvariant, ActiveReach, Advances, Snapped, TargetsVisited, CopyOf, VisitOutcome;
      NothingAdvances(types, states, done);
      match r {
        case LeafRef(target, _) =>
          var realtype: Option<Resolved> := None;
          ghost var visited := false;
          if target.Some? && target.value in types {
            TypesOf(orig, types, states, done);
            if IsLeafrefNode(orig, target.value) {
              TargetGraphEdge(orig, n, target.value);
              StepReaches(orig, states, n, target.value);
            }
            var finished := Visit(target.value);
            visited := finished;
            TypesOf(orig, types, states, done);
            if finished {
              realtype := Some(types[target.value]);
            }
          }
          StillActiveReach(orig, old(types), old(states), old(done), types, states, done, n);
          CopyJustified(orig, types, states, done, n, target, visited);
          LeafrefSnapped(orig, types, states, done, n, r, realtype);
          r' := LeafRef(target, realtype);
        case Union(members) =>
          var filled := members;
          var i := 0;
          NoMembers(orig, types, states, done, n, members);
          while i < |members|
            invariant 0 <= i <= |members|
            invariant PassInvariant(orig, types, states, done) && ActiveReach(orig, states, n)
            invariant Advances(old(types), old(states), old(done), types, states, done) && n in states
                      && states[n] == Active
            invariant old(states).Keys <= states.Keys
            invariant MembersSnapped(orig, types, states, done, n, members, filled, i)
          {
            ghost var types0, states0, done0 := types, states, done;
            MemberTargetsHold(members, i);
            var member := ResolveType(members[i], n);
            AdvancesBoth(old(types), old(states), old(done), types0, states0, done0, types, states, done);
            StillActiveReach(orig, types0, states0, done0, types, states, done, n);
            OneMoreMember(orig, types0, states0, done0, types, states, done, n, members, filled, i, member);
            filled := filled[i := member];
            i := i + 1;
          }
          AllMembers(orig, types, states, done, n, members, filled);
          r' := Union(filled);
        case Other(_) =>
          OtherSnapped(orig, types, states, done, n, r);
          r' := r;
      }
    }

    /** Visits every node below t in schema order. */
    method WalkSchemaNodes(t: Tree)
      requires PassInvariant(orig, types, states, done) && NoneActive(states)
      modifies this
      ensures PassInvariant(orig, types, states, done) && NoneActive(states) && old(states).Keys <= states.Keys
      ensures forall n :: n in Below(t) && IsLeafrefNode(orig, n) ==> n in states
      decreases t
    {
      hide Reaches, PassInvariant, ActiveReach, Advances, Snapped, TargetsVisited;
      var i := 0;
      while i < |t.children|
        invariant 0 <= i <= |t.children|
        invariant PassInvariant(orig, types, states, done) && NoneActive(states) && old(states).Keys <= states.Keys
        invariant forall j, n ::
                    (0 <= j < i && n in {t.children[j].node} + Below(t.children[j]) && IsLeafrefNode(orig, n)) ==>
                    n in states
      {
        var child := t.children[i];
        TypesOf(orig, types, states, done);
        if child.node in types {
          NoneActiveReach(orig, states, child.node);
          ghost var types0, states0, done0 := types, states, done;
          var _ := Visit(child.node);
          StillNoneActive(types0, states0, done0, types, states, done);
        }
        WalkSchemaNodes(child);
        i := i + 1;
      }
      forall n | n in Below(t) && IsLeafrefNode(orig, n)
        ensures n in states
      {
        BelowAllHolds(t.children, n);
      }
    }

    /**
     Runs the pass over all loaded modules.  Afterwards every leafref node in them is
     finished, and each of its leafrefs holds its target's final type except at the edges
     that were cut.  Each of those closes a cycle, and without them no cycle is left.
     */
    method ResolveLeafrefRealtypes(modules: seq<Module>)
      requires PassInvariant(orig, types, states, done) && states == map[] && done == []
      modifies this
      ensures types.Keys == orig.Keys
      ensures PassInvariant(orig, types, states, done) && NoneActive(states)
      ensures forall m, n :: m in modules && m.root.Some? && n in Below(m.root.value) && IsLeafrefNode(orig, n) ==>
              n in states
      ensures forall n, t :: CutEdge(orig, done, n, t) ==> Reaches(TargetGraph(orig), t, n)
      ensures Acyclic(Uncut(orig, done))
      ensures forall n :: n in states && AcyclicFrom(TargetGraph(orig), n) ==> types[n] == Unfolded(orig, n)
    {
      hide Reaches, PassInvariant, Snapped, Unfolded, AcyclicFrom, CutEdge, Uncut, Acyclic, Distinct;
      var i := 0;
      while i < |modules|
        invariant 0 <= i <= |modules|
        invariant PassInvariant(orig, types, states, done) && NoneActive(states)
        invariant forall j, n :: (0 <= j < i && modules[j].root.Some? && n in Below(modules[j].root.value)
                                  && IsLeafrefNode(orig, n)) ==> n in states
      {
        if modules[i].root.Some? {
          WalkSchemaNodes(modules[i].root.value);
        }
        i := i + 1;
      }
      TypesOf(orig, types, states, done);
      CutsCloseCycles(orig, types, states, done);
      UncutAcyclic(orig, done);
      forall n | n in states && AcyclicFrom(TargetGraph(orig), n)
        ensures types[n] == Unfolded(orig, n)
      {
        SnapshotIsUnfolding(orig, types, states, done, n);
      }
    }
  }

  ghost predicate NoneActive(states: States) {
    forall m :: m in states ==> states[m] == Complete
  }

  lemma NoneActiveReach(orig: Types, states: States, n: Node)
    requires NoneActive(states)
    ensures ActiveReach(orig, states, n)
  {
  }

  lemma StillNoneActive(types: Types, states: States, done: seq<Node>, types': Types, states': States, done': seq<Node>)
    requires NoneActive(states) && Advances(types, states, done, types', states', done')
    ensures NoneActive(states') && states.Keys <= states'.Keys
  {
  }

  // ---- The edges without a copy

  /** The edges of the target graph whose target was not finished before their source: those left without a copy. */
  ghost predicate CutEdge(orig: Types, done: seq<Node>, n: Node, t: Node) {
    exists i :: CutAt(orig, done, i, n, t)
  }

  ghost predicate CutAt(orig: Types, done: seq<Node>, i: int, n: Node, t: Node) {
    0 <= i < |done| && done[i] == n && t in Succ(TargetGraph(orig), n) && t !in done[..i]
  }

  /** The target graph of the finished nodes without those edges. */
  ghost function Uncut(orig: Types, done: seq<Node>): Graph<Node> {
    map n | n in done :: UncutFrom(orig, done, n, Succ(TargetGraph(orig), n))
  }

  ghost function UncutFrom(orig: Types, done: seq<Node>, n: Node, ts: seq<Node>): seq<Node> {
    if ts == [] then []
    else (if CutEdge(orig, done, n, ts[0]) then [] else [ts[0]]) + UncutFrom(orig, done, n, ts[1..])
  }

  lemma {:induction false} UncutHolds(orig: Types, done: seq<Node>, n: Node, ts: seq<Node>, t: Node)
    ensures t in UncutFrom(orig, done, n, ts) <==> t in ts && !CutEdge(orig, done, n, t)
  {
    hide CutEdge;
    if ts != [] {
      UncutHolds(orig, done, n, ts[1..], t);
    }
  }

  lemma CutsCloseCycles(orig: Types, types: Types, states: States, done: seq<Node>)
    requires PassInvariant(orig, types, states, done)
    ensures forall n, t :: CutEdge(orig, done, n, t) ==> Reaches(TargetGraph(orig), t, n)
  {
    hide Reaches, Snapped;
    forall n, t | CutEdge(orig, done, n, t)
      ensures Reaches(TargetGraph(orig), t, n)
    {
      var i :| CutAt(orig, done, i, n, t);
      assert Settled(orig, types, states, done, i);
      TargetGraphEdge(orig, n, t);
      MissingCloses(orig, types, done[..i], n, orig[n], types[n], t);
    }
  }

  lemma {:induction false} MissingCloses(orig: Types, types: Types, before: seq<Node>, n: Node, o: Resolved,
                                         r: Resolved, t: Node)
    requires Snapped(orig, types, before, n, o, r) && types.Keys == orig.Keys
    requires t in Targets(o) && IsLeafrefNode(orig, t) && t !in before
    ensures Reaches(TargetGraph(orig), t, n)
  {
    hide Reaches;
    match o
    case LeafRef(_, _) =>
    case Union(members) =>
      var i := MemberTargetFrom(members, t);
      MissingCloses(orig, types, before, n, members[i], r.members[i], t);
  }

  /** Every edge that was not cut leads to a node finished earlier. */
  lemma UncutAcyclic(orig: Types, done: seq<Node>)
    requires Distinct(done)
    ensures Acyclic(Uncut(orig, done))
  {
    hide Reaches, CutEdge;
    var g := Uncut(orig, done);
    forall i, m | 0 <= i < |done| && m in Succ(g, done[i])
      ensures m in done[..i]
    {
      UncutHolds(orig, done, done[i], Succ(TargetGraph(orig), done[i]), m);
      NotCut(orig, done, i, m);
    }
    forall n
      ensures !StrictlyReaches(g, n, n)
    {
      if n in done {
        TopologicalAcyclic(g, done, n);
      }
    }
  }

  lemma NotCut(orig: Types, done: seq<Node>, i: nat, t: Node)
    requires i < |done| && t in Succ(TargetGraph(orig), done[i]) && !CutEdge(orig, done, done[i], t)
    ensures t in done[..i]
  {
    assert !CutAt(orig, done, i, done[i], t);
  }

  // ---- Full unfolding

  /** The type of n with every leafref's target type copied in, all the way down. */
  ghost function Unfolded(orig: Types, n: Node): Resolved
    requires n in orig
  {
    Unfold(orig, orig[n], {n})
  }

  /** Unfolds r; path holds the nodes whose types are being unfolded around it. */
  ghost function Unfold(orig: Types, r: Resolved, path: set<Node>): Resolved
    decreases orig.Keys - path, r
  {
    match r
    case LeafRef(target, _) =>
      if target.None? || target.value !in orig || target.value in path then LeafRef(target, None)
      else LeafRef(target, Some(Unfold(orig, orig[target.value], path + {target.value})))
    case Union(members) => Union(seq(|members|, i requires 0 <= i < |members| => Unfold(orig, members[i], path)))
    case Other(_) => r
  }

  /** On an acyclic target graph a node's final type is its full unfolding, whatever the order of visits. */
  lemma SnapshotIsUnfolding(orig: Types, types: Types, states: States, done: seq<Node>, n: Node)
    requires PassInvariant(orig, types, states, done) && NoneActive(states)
    requires n in states && AcyclicFrom(TargetGraph(orig), n)
    ensures n in orig && n in types && types[n] == Unfolded(orig, n)
  {
    hide Reaches;
    ReachesSelf(TargetGraph(orig), n);
    NodeUnfolds(orig, types, states, done, n, n, {n});
  }

  lemma {:induction false} NodeUnfolds(orig: Types, types: Types, states: States, done: seq<Node>, root: Node, n: Node,
                                       path: set<Node>)
    requires PassInvariant(orig, types, states, done) && NoneActive(states) && n in states
    requires AcyclicFrom(TargetGraph(orig), root) && Reaches(TargetGraph(orig), root, n)
    requires forall p :: p in path ==> IsLeafrefNode(orig, p) && Reaches(TargetGraph(orig), p, n)
    ensures n in orig && n in types && types[n] == Unfold(orig, orig[n], path)
    decreases orig.Keys - path, 2
  {
    hide Reaches, Unfold;
    TypesOf(orig, types, states, done);
    var i :| 0 <= i < |done| && done[i] == n;
    assert Settled(orig, types, states, done, i);
    TypeUnfolds(orig, types, states, done, root, n, done[..i], path, orig[n], types[n]);
  }

  lemma {:induction false} TypeUnfolds(orig: Types, types: Types, states: States, done: seq<Node>, root: Node, n: Node,
                                       before: seq<Node>, path: set<Node>, o: Resolved, r: Resolved)
    requires PassInvariant(orig, types, states, done) && NoneActive(states) && n in orig
    requires AcyclicFrom(TargetGraph(orig), root) && Reaches(TargetGraph(orig), root, n)
    requires forall p :: p in path ==> IsLeafrefNode(orig, p) && Reaches(TargetGraph(orig), p, n)
    requires (forall m :: m in before ==> m in done) && Snapped(orig, types, before, n, o, r)
             && forall t :: t in Targets(o) ==> t in Targets(orig[n])
    ensures r == Unfold(orig, o, path)
    decreases orig.Keys - path, 1, o
  {
    hide Reaches, PassInvariant;
    TypesOf(orig, types, states, done);
    match o
    case LeafRef(target, _) =>
      if target.Some? && target.value in orig {
        var t := target.value;
        if IsLeafrefNode(orig, t) {
          LeafrefUnfolds(orig, types, states, done, root, n, before, path, t, r);
        } else {
          assert t !in path;
          PlainTypesKept(orig, types, states, done);
          PlainUnfolds(orig, orig[t], path + {t});
        }
      }
    case Union(members) =>
      forall i | 0 <= i < |members|
        ensures r.members[i] == Unfold(orig, members[i], path)
      {
        MemberTargetsHold(members, i);
        TypeUnfolds(orig, types, states, done, root, n, before, path, members[i], r.members[i]);
      }
      assert r.members == seq(|members|, i requires 0 <= i < |members| => Unfold(orig, members[i], path));
    case Other(_) =>
  }

  lemma {:induction false} LeafrefUnfolds(orig: Types, types: Types, states: States, done: seq<Node>, root: Node,
                                          n: Node, before: seq<Node>, path: set<Node>, t: Node, r: Resolved)
    requires PassInvariant(orig, types, states, done) && NoneActive(states) && n in orig && t in Targets(orig[n])
    requires AcyclicFrom(TargetGraph(orig), root) && Reaches(TargetGraph(orig), root, n)
    requires forall p :: p in path ==> IsLeafrefNode(orig, p) && Reaches(TargetGraph(orig), p, n)
    requires IsLeafrefNode(orig, t) && r.LeafRef? && r.target == Some(t) && (forall m :: m in before ==> m in done)
             && CopyOf(orig, types, before, n, Some(t), r.realtype)
    ensures t !in path && r.realtype == Some(Unfold(orig, orig[t], path + {t}))
    decreases orig.Keys - path, 0
  {
    hide Reaches, PassInvariant, Unfold;
    var g := TargetGraph(orig);
    TypesOf(orig, types, states, done);
    TargetGraphEdge(orig, n, t);
    ReachesThenEdge(g, root, n, t);
    NoReturn(g, root, n, t);
    assert t !in path;
    forall p | p in path + {t}
      ensures IsLeafrefNode(orig, p) && Reaches(g, p, t)
    {
      if p in path {
        ReachesThenEdge(g, p, n, t);
      } else {
        ReachesSelf(g, t);
      }
    }
    assert t in orig.Keys - path;
    NodeUnfolds(orig, types, states, done, root, t, path + {t});
  }

  lemma NoReturn(g: Graph<Node>, root: Node, n: Node, t: Node)
    requires AcyclicFrom(g, root) && Reaches(g, root, n) && t in Succ(g, n)
    ensures !Reaches(g, t, n)
  {
    hide Reaches;
    assert Reaches(g, t, n) ==> StrictlyReaches(g, n, n);
  }

  /** A type without leafrefs has nothing to unfold. */
  lemma {:induction false} PlainUnfolds(orig: Types, r: Resolved, path: set<Node>)
    requires !ContainsLeafref(r)
    ensures Unfold(orig, r, path) == r
  {
    match r
    case Union(members) =>
      forall i | 0 <= i < |members|
        ensures Unfold(orig, members[i], path) == members[i]
      {
        PlainUnfolds(orig, members[i], path);
      }
      assert members == seq(|members|, i requires 0 <= i < |members| => Unfold(orig, members[i], path));
    case _ =>
  }
}
