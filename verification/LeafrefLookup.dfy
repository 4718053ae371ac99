/**
 The cycle check, the pass that stores the copies, and the chain lookup, one after the
 other: the pass rewrites the types in between, yet the lookup still profits from the check.
 */
module LeafrefLookup {
  import opened Common
  import opened Graphs
  import opened Leafrefs
  import opened LeafrefCycles
  import opened Realtypes

  lemma {:induction false} SnappedTargets(orig: Types, types: Types, before: seq<Node>, n: Node, o: Leafrefs.Resolved,
                                          r: Leafrefs.Resolved)
    requires Snapped(orig, types, before, n, o, r)
    ensures Targets(r) == Targets(o) && (r.LeafRef? <==> o.LeafRef?)
    decreases o, 1
  {
    hide CopyOf;
    match o
    case Union(members) => SnappedMembers(orig, types, before, n, o, members, r.members);
    case _ =>
  }

  lemma {:induction false} SnappedMembers(orig: Types, types: Types, before: seq<Node>, n: Node,
                                          o: Leafrefs.Resolved, os: seq<Leafrefs.Resolved>, rs: seq<Leafrefs.Resolved>)
    requires |os| == |rs| && forall i :: 0 <= i < |os| ==> os[i] < o && Snapped(orig, types, before, n, os[i], rs[i])
    ensures MemberTargets(rs) == MemberTargets(os)
    decreases o, 0, |os|
  {
    hide Snapped;
    if os != [] {
      SnappedTargets(orig, types, before, n, os[0], rs[0]);
      SnappedMembers(orig, types, before, n, o, os[1..], rs[1..]);
    }
  }

  lemma NodeKept(orig: Types, types: Types, states: States, done: seq<Node>, n: Node)
    requires PassInvariant(orig, types, states, done) && n in orig
    ensures n in types && Targets(types[n]) == Targets(orig[n]) && (types[n].LeafRef? <==> orig[n].LeafRef?)
    ensures ContainsLeafref(types[n]) == ContainsLeafref(orig[n])
  {
    hide Snapped;
    SameShape(orig, types, states, done, n);
    if n in done {
      var i :| 0 <= i < |done| && done[i] == n;
      assert Settled(orig, types, states, done, i);
      SnappedTargets(orig, types, done[..i], n, orig[n], types[n]);
    }
  }

  lemma {:induction false} SameFollowed(a: Types, b: Types, targets: seq<Node>)
    requires forall n :: IsLeafrefNode(a, n) <==> IsLeafrefNode(b, n)
    ensures Followed(a, targets) == Followed(b, targets)
  {
    if targets != [] {
      SameFollowed(a, b, targets[1..]);
    }
  }

  /** The pass changes copies only: the target graph and the direct leafrefs stay what they were. */
  lemma PassKeepsTargets(orig: Types, types: Types, states: States, done: seq<Node>)
    requires PassInvariant(orig, types, states, done)
    ensures TargetGraph(types) == TargetGraph(orig)
    ensures forall n :: IsDirectLeafref(types, n) <==> IsDirectLeafref(orig, n)
    ensures forall n :: IsDirectLeafref(types, n) && IsDirectLeafref(orig, n) ==> types[n].target == orig[n].target
    ensures forall n :: IsLeafrefNode(types, n) <==> IsLeafrefNode(orig, n)
  {
    hide PassInvariant, ContainsLeafref;
    TypesOf(orig, types, states, done);
    forall n | n in orig
      ensures Targets(types[n]) == Targets(orig[n]) && (types[n].LeafRef? <==> orig[n].LeafRef?)
      ensures ContainsLeafref(types[n]) == ContainsLeafref(orig[n])
      ensures types[n].LeafRef? ==> types[n].target == orig[n].target
    {
      NodeKept(orig, types, states, done, n);
      if types[n].LeafRef? {
        TargetIsTargets(types[n], orig[n]);
      }
    }
    forall n | n in orig
      ensures Followed(types, Targets(types[n])) == Followed(orig, Targets(orig[n]))
    {
      SameFollowed(types, orig, Targets(orig[n]));
    }
  }

  lemma TargetIsTargets(a: Leafrefs.Resolved, b: Leafrefs.Resolved)
    requires a.LeafRef? && b.LeafRef? && Targets(a) == Targets(b)
    ensures a.target == b.target
  {
    assert a.target.Some? ==> Targets(a)[0] == a.target.value;
    assert b.target.Some? ==> Targets(b)[0] == b.target.value;
  }

  /** Whatever a finished node reaches is finished. */
  lemma DoneClosed(orig: Types, types: Types, states: States, done: seq<Node>, a: Node, b: Node)
    requires PassInvariant(orig, types, states, done) && NoneActive(states)
    requires a in states && Reaches(TargetGraph(orig), a, b)
    ensures b in done
  {
    hide Reaches, Snapped;
    var g := TargetGraph(orig);
    forall n, m | n in states.Keys && m in Succ(g, n)
      ensures m in states.Keys
    {
      TargetGraphEdge(orig, n, m);
      var i :| 0 <= i < |done| && done[i] == n;
      assert Settled(orig, types, states, done, i);
    }
    ClosedReaches(g, states.Keys, a, b);
  }

  /** A trace is a walk of the target graph. */
  lemma TraceReaches(types: Types, trace: seq<Node>, end: Node)
    requires trace != [] && LeafrefTrace(types, trace, end)
    ensures Reaches(TargetGraph(types), trace[0], trace[|trace| - 1])
  {
    var g := TargetGraph(types);
    forall i | 0 <= i < |trace| - 1
      ensures trace[i + 1] in Succ(g, trace[i])
    {
      assert (trace + [end])[i + 1] == trace[i + 1];
      TargetGraphEdge(types, trace[i], trace[i + 1]);
    }
    assert WalkFromTo(g, trace, trace[0], trace[|trace| - 1]);
  }

  /** Off every cycle, a direct leafref whose target has a type holds a copy of that type. */
  lemma CopyKept(orig: Types, types: Types, states: States, done: seq<Node>, n: Node)
    requires PassInvariant(orig, types, states, done) && n in done && !StrictlyReaches(TargetGraph(orig), n, n)
    requires IsDirectLeafref(types, n) && types[n].target.Some? && types[n].target.value in types
    ensures types[n].realtype == Some(types[types[n].target.value])
  {
    hide Reaches;
    PassKeepsTargets(orig, types, states, done);
    var t := types[n].target.value;
    var i :| 0 <= i < |done| && done[i] == n;
    assert Settled(orig, types, states, done, i);
    assert CopyOf(orig, types, done[..i], n, Some(t), types[n].realtype);
    TargetGraphEdge(orig, n, t);
  }

  /** What the lookup finds at the end of a chain without cycles is the final type of that end. */
  lemma LastIsFinal(orig: Types, types: Types, states: States, done: seq<Node>, root: Node, n: Node, trace: seq<Node>,
                    end: Node)
    requires PassInvariant(orig, types, states, done) && NoneActive(states) && root in states
    requires AcyclicFrom(TargetGraph(orig), root) && Reaches(TargetGraph(orig), root, n)
    requires trace != [] && trace[0] == n && LeafrefTrace(types, trace, end) && end in types
    ensures LastRealtype(types, trace) == Some(types[end])
  {
    hide Reaches, PassInvariant, StrictlyReaches;
    var last := trace[|trace| - 1];
    PassKeepsTargets(orig, types, states, done);
    TraceReaches(types, trace, end);
    ReachesTransitive(TargetGraph(orig), root, n, last);
    DoneClosed(orig, types, states, done, root, last);
    assert (trace + [end])[|trace|] == end && types[last].target == Some(end);
    CopyKept(orig, types, states, done, last);
  }

  /**
   A load that refuses cycles, then a lookup from n.  The load is refused exactly when a chain
   from an implemented module cycles.  Otherwise no chain that those chains can reach is
   reported as a cycle, and a chain that ends at a typed node yields that node's final type.
   */
  method CheckThenLookup(types: Types, modules: seq<Module>, n: Node)
    returns (accepted: bool, final: Types, r: ChainResult)
    ensures accepted <==> CycleFree(types, modules)
    ensures accepted ==> TargetGraph(final) == TargetGraph(types)
    ensures accepted ==> (r.NotLeafref? <==> !IsDirectLeafref(types, n))
    ensures forall root :: accepted && IsRoot(types, modules, root) && Reaches(TargetGraph(types), root, n) ==>
              !r.Cycle? && (r.Resolved? && r.target in final ==> r.realtype == Some(final[r.target]))
  {
    hide Reaches, StrictlyReaches, PassInvariant, CutEdge, Uncut, Acyclic, AcyclicFrom, Unfolded;
    var check := new CycleCheck(types, modules, false);
    check.ValidateLeafrefCycles();
    if check.error.Some? {
      return false, types, NotLeafref;
    }
    var pass := new RealtypePass(types);
    pass.ResolveLeafrefRealtypes(modules);
    PassKeepsTargets(types, pass.types, pass.states, pass.done);
    r := ResolveLeafrefChain(pass.types, n);
    forall root | IsRoot(types, modules, root) && Reaches(TargetGraph(types), root, n)
      ensures !r.Cycle? && (r.Resolved? && r.target in pass.types ==> r.realtype == Some(pass.types[r.target]))
    {
      PassedCheckMeansNoCycle(types, modules, root, n, r);
      if r.Resolved? && r.target in pass.types {
        LastIsFinal(types, pass.types, pass.states, pass.done, root, n, r.trace, r.target);
      }
    }
    accepted, final := true, pass.types;
  }
}
