/**
 The check that no chain of leafrefs returns to a node already on it, and the chain
 lookup that relies on it.
 */
module LeafrefCycles {
  import opened Common
  import opened Graphs
  import opened Leafrefs

  /** A schema tree: only the nodes' order matters here. */
  datatype Tree = Tree(node: Node, children: seq<Tree>)

  /** A loaded module, with its schema tree if it has one. */
  datatype Module = Module(implemented: bool, root: Option<Tree>)

  /** The nodes strictly below t. */
  function Below(t: Tree): set<Node> {
    BelowAll(t.children)
  }

  function BelowAll(children: seq<Tree>): set<Node> {
    if children == [] then {} else {children[0].node} + Below(children[0]) + BelowAll(children[1..])
  }

  lemma {:induction false} BelowAllHolds(children: seq<Tree>, n: Node)
    ensures n in BelowAll(children) <==> exists i :: 0 <= i < |children| && n in {children[i].node} + Below(children[i])
  {
    if children != [] {
      BelowAllHolds(children[1..], n);
      if n in BelowAll(children[1..]) {
        var i :| 0 <= i < |children[1..]| && n in {children[1..][i].node} + Below(children[1..][i]);
        assert n in {children[i + 1].node} + Below(children[i + 1]);
      }
      if i :| 0 <= i < |children| && n in {children[i].node} + Below(children[i]) {
        if i > 0 {
          assert children[1..][i - 1] == children[i];
        }
      }
    }
  }

  lemma ChildIsBelow(t: Tree, i: nat)
    requires i < |t.children|
    ensures {t.children[i].node} + Below(t.children[i]) <= Below(t)
  {
    forall n | n in {t.children[i].node} + Below(t.children[i])
      ensures n in Below(t)
    {
      BelowAllHolds(t.children, n);
    }
  }

  /** The nodes with leafref types in implemented modules: where the check starts its walks. */
  ghost predicate IsRoot(types: Types, modules: seq<Module>, n: Node) {
    IsLeafrefNode(types, n) && exists m :: m in modules && m.implemented && m.root.Some? && n in Below(m.root.value)
  }

  /** No node that a chain from an implemented module's leaf can reach lies on a cycle. */
  ghost predicate CycleFree(types: Types, modules: seq<Module>) {
    forall r :: IsRoot(types, modules, r) ==> AcyclicFrom(TargetGraph(types), r)
  }

  /** cycle is a real closed walk of target edges, reachable from an implemented module's leaf. */
  ghost predicate RealCycle(types: Types, modules: seq<Module>, cycle: seq<Node>) {
    && ClosedWalk(TargetGraph(types), cycle)
    && exists r :: IsRoot(types, modules, r) && Reaches(TargetGraph(types), r, cycle[0])
  }

  lemma RealCycleFound(types: Types, modules: seq<Module>, cycle: seq<Node>)
    requires RealCycle(types, modules, cycle)
    ensures !CycleFree(types, modules)
  {
    hide Reaches;
    var r :| IsRoot(types, modules, r) && Reaches(TargetGraph(types), r, cycle[0]);
    ClosedWalkIsCycle(TargetGraph(types), cycle);
    assert !AcyclicFrom(TargetGraph(types), r);
  }

  /** The walk's stack, closed by an edge to position p, is a cycle reachable from where the walk started. */
  lemma StackCloses(types: Types, modules: seq<Module>, stack: seq<Node>, p: nat, target: Node)
    requires IsWalk(TargetGraph(types), stack) && IsRoot(types, modules, stack[0])
    requires p < |stack| && stack[p] == target && target in Succ(TargetGraph(types), stack[|stack| - 1])
    ensures RealCycle(types, modules, stack[p..] + [target])
  {
    WalkTailCloses(TargetGraph(types), stack, p);
  }

  lemma PushWalk(g: Graph<Node>, stack: seq<Node>, n: Node)
    requires stack == [] || (IsWalk(g, stack) && n in Succ(g, stack[|stack| - 1]))
    ensures IsWalk(g, stack + [n])
  {
  }

  lemma PopWalk(g: Graph<Node>, stack: seq<Node>)
    requires |stack| > 1 && IsWalk(g, stack)
    ensures IsWalk(g, stack[..|stack| - 1])
  {
  }

  /** A node all of whose successors are finished can be finished. */
  lemma FinishNode(g: Graph<Node>, done: seq<Node>, n: Node)
    requires Topological(g, done) && forall m :: m in Succ(g, n) ==> m in done
    ensures Topological(g, done + [n])
  {
    var longer := done + [n];
    forall i, m | 0 <= i < |longer| && m in Succ(g, longer[i])
      ensures m in longer[..i]
    {
      assert longer[..i] == done[..i];
    }
  }

  /** When every root is finished and nothing was reported, there is no cycle to report. */
  lemma AllFinished(types: Types, modules: seq<Module>, done: seq<Node>)
    requires Topological(TargetGraph(types), done) && Distinct(done)
    requires forall r :: IsRoot(types, modules, r) ==> r in done
    ensures CycleFree(types, modules)
  {
    hide Reaches, StrictlyReaches;
    var g := TargetGraph(types);
    var finished := set n | n in done;
    assert Closed(g, finished) by {
      forall n, m | n in finished && m in Succ(g, n)
        ensures m in finished
      {
        var i :| 0 <= i < |done| && done[i] == n;
        assert m in done[..i];
      }
    }
    forall r, n | IsRoot(types, modules, r) && Reaches(g, r, n)
      ensures !StrictlyReaches(g, n, n)
    {
      ClosedReaches(g, finished, r, n);
      TopologicalAcyclic(g, done, n);
    }
  }

  const DONE: int := -1

  /** pos gives the stack index plus one of each node on the stack, and DONE for each finished node. */
  ghost predicate PosWellFormed(types: Types, pos: map<Node, int>, stack: seq<Node>, done: seq<Node>) {
    && pos.Keys <= types.Keys
    && (forall i :: 0 <= i < |stack| ==> stack[i] in pos && pos[stack[i]] == i + 1)
    && (forall n :: n in pos ==> pos[n] == DONE || (1 <= pos[n] <= |stack| && stack[pos[n] - 1] == n))
    && (forall n :: n in done <==> n in pos && pos[n] == DONE)
    && Distinct(done)
  }

  lemma PosOf(types: Types, pos: map<Node, int>, stack: seq<Node>, done: seq<Node>, n: Node)
    requires PosWellFormed(types, pos, stack, done)
    ensures pos.Keys <= types.Keys
    ensures n in pos && pos[n] > 0 ==> pos[n] <= |stack| && stack[pos[n] - 1] == n
    ensures n in pos && pos[n] <= 0 ==> n in done
  {
  }

  lemma PushPos(types: Types, pos: map<Node, int>, stack: seq<Node>, done: seq<Node>, n: Node)
    requires PosWellFormed(types, pos, stack, done) && n in types && n !in pos
    ensures PosWellFormed(types, pos[n := |stack| + 1], stack + [n], done)
    ensures types.Keys - pos[n := |stack| + 1].Keys < types.Keys - pos.Keys
  {
    assert n in types.Keys - pos.Keys;
  }

  lemma PopPos(types: Types, pos: map<Node, int>, stack: seq<Node>, done: seq<Node>, n: Node)
    requires PosWellFormed(types, pos, stack, done) && |stack| > 0 && stack[|stack| - 1] == n
    ensures PosWellFormed(types, pos[n := DONE], stack[..|stack| - 1], done + [n])
  {
    assert n in pos && pos[n] == |stack|;
  }

  /** Between two states with the same stack: places already given stay, and finished nodes stay finished. */
  ghost predicate Visited(pos: map<Node, int>, pos': map<Node, int>, done: seq<Node>, done': seq<Node>) {
    && (forall m :: m in pos ==> m in pos' && pos'[m] == pos[m])
    && (forall m :: m in done ==> m in done')
  }

  lemma VisitedNone(pos: map<Node, int>, done: seq<Node>)
    ensures Visited(pos, pos, done, done)
  {
  }

  lemma VisitedBoth(pos: map<Node, int>, pos': map<Node, int>, pos'': map<Node, int>,
                    done: seq<Node>, done': seq<Node>, done'': seq<Node>)
    requires Visited(pos, pos', done, done') && Visited(pos', pos'', done', done'')
    ensures Visited(pos, pos'', done, done'') && pos.Keys <= pos'.Keys <= pos''.Keys
  {
  }

  lemma StillPushed(pos: map<Node, int>, pos': map<Node, int>, done: seq<Node>, done': seq<Node>, n: Node)
    requires Visited(pos, pos', done, done') && n in pos
    ensures n in pos' && pos'[n] == pos[n] && pos.Keys <= pos'.Keys
  {
  }

  lemma VisitedAndPopped(pos: map<Node, int>, pos1: map<Node, int>, pos2: map<Node, int>,
                         done: seq<Node>, done2: seq<Node>, n: Node, p: int)
    requires n !in pos && pos1 == pos[n := p] && Visited(pos1, pos2, done, done2)
    ensures Visited(pos, pos2[n := DONE], done, done2 + [n])
  {
    forall m | m in pos
      ensures m in pos2 && pos2[m] == pos[m]
    {
      assert m in pos1;
    }
  }

  /** The first i targets that chains continue from are finished. */
  ghost predicate TargetsDone(types: Types, targets: seq<Node>, i: nat, done: seq<Node>)
    requires i <= |targets|
  {
    forall j :: 0 <= j < i && IsLeafrefNode(types, targets[j]) ==> targets[j] in done
  }

  lemma NoTargetsDone(types: Types, targets: seq<Node>, done: seq<Node>)
    ensures TargetsDone(types, targets, 0, done)
  {
  }

  lemma OneMoreTarget(types: Types, targets: seq<Node>, i: nat, pos: map<Node, int>, pos': map<Node, int>,
                      done: seq<Node>, done': seq<Node>)
    requires i < |targets| && TargetsDone(types, targets, i, done) && Visited(pos, pos', done, done')
    requires IsLeafrefNode(types, targets[i]) ==> targets[i] in done'
    ensures TargetsDone(types, targets, i + 1, done')
  {
  }

  lemma AllTargetsDone(types: Types, n: Node, done: seq<Node>)
    requires n in types && TargetsDone(types, Targets(types[n]), |Targets(types[n])|, done)
    ensures forall m :: m in Succ(TargetGraph(types), n) ==> m in done
  {
    forall m | m in Succ(TargetGraph(types), n)
      ensures m in done
    {
      TargetGraphEdge(types, n, m);
    }
  }

  class CycleCheck {
    const types: Types
    const modules: seq<Module>
    // Vendor-compatible mode records each cycle and goes on; otherwise the first one stops the check.
    const vendor: bool
    // Absent for an unvisited node, the stack index plus one while on the stack, DONE afterwards.
    var pos: map<Node, int>
    var stack: seq<Node>
    var error: Option<seq<Node>>
    var warnings: seq<seq<Node>>
    // The finished nodes, in the order they were finished.
    ghost var done: seq<Node>

    ghost predicate Valid()
      reads this
    {
      && PosWellFormed(types, pos, stack, done)
      && (stack != [] ==> IsWalk(TargetGraph(types), stack) && IsRoot(types, modules, stack[0]))
      && (forall w :: w in warnings ==> RealCycle(types, modules, w))
      && (error.Some? ==> RealCycle(types, modules, error.value))
      && (if vendor then error.None? else warnings == [])
      && (warnings == [] && error.None? ==> Topological(TargetGraph(types), done))
    }

    constructor (types: Types, modules: seq<Module>, vendor: bool)
      ensures Valid() && this.types == types && this.modules == modules && this.vendor == vendor
      ensures stack == [] && warnings == [] && pos == map[] && error.None?
    {
      this.types, this.modules, this.vendor := types, modules, vendor;
      pos, stack, error, warnings, done := map[], [], None, [], [];
    }

    /** Walks the targets of n depth first; true means a cycle stopped the check. */
    method Visit(n: Node) returns (stop: bool)
      requires Valid() && IsLeafrefNode(types, n) && n !in pos && error.None?
      requires stack == [] ==> IsRoot(types, modules, n)
      requires stack != [] ==> n in Succ(TargetGraph(types), stack[|stack| - 1])
      modifies this`pos, this`stack, this`error, this`warnings, this`done
      ensures Valid() && stop == error.Some?
      ensures !stop ==> stack == old(stack) && n in done && Visited(old(pos), pos, old(done), done)
      ensures warnings == [] ==> old(warnings) == []
      decreases types.Keys - pos.Keys, 1
    {
      hide Reaches, IsRoot, RealCycle, Topological, PosWellFormed, Visited, IsWalk, TargetsDone, Distinct, Succ;
      hide TargetGraph, Targets, ContainsLeafref;
      PushWalk(TargetGraph(types), stack, n);
      PushPos(types, pos, stack, done, n);
      stack := stack + [n];
      pos := pos[n := |stack|];
      var targets := Targets(types[n]);
      var i := 0;
      VisitedNone(pos, done);
      NoTargetsDone(types, targets, done);
      ghost var pos1 := pos;
      while i < |targets|
        invariant 0 <= i <= |targets|
        invariant Valid() && error.None? && stack == old(stack) + [n]
        invariant Visited(pos1, pos, old(done), done) && pos1.Keys <= pos.Keys
        invariant warnings == [] ==> old(warnings) == [] && TargetsDone(types, targets, i, done)
      {
        ghost var done1 := done;
        ghost var pos2 := pos;
        if IsLeafrefNode(types, targets[i]) {
          stop := VisitTarget(n, targets[i]);
          if stop {
            return;
          }
          VisitedBoth(pos1, pos2, pos, old(done), done1, done);
        } else {
          VisitedNone(pos, done);
        }
        if warnings == [] {
          OneMoreTarget(types, targets, i, pos2, pos, done1, done);
        }
        i := i + 1;
      }
      if warnings == [] {
        AllTargetsDone(types, n, done);
        FinishNode(TargetGraph(types), done, n);
      }
      if |stack| > 1 {
        PopWalk(TargetGraph(types), stack);
      }
      StillPushed(pos1, pos, old(done), done, n);
      PopPos(types, pos, stack, done, n);
      VisitedAndPopped(old(pos), pos1, pos, old(done), done, n, |stack|);
      stack := stack[..|stack| - 1];
      pos := pos[n := DONE];
      done := done + [n];
      stop := false;
    }

    /** Handles one edge, from the node n on top of the stack to target. */
    method VisitTarget(n: Node, target: Node) returns (stop: bool)
      requires Valid() && error.None? && IsLeafrefNode(types, target)
      requires stack != [] && stack[|stack| - 1] == n && n in types && target in Targets(types[n])
      modifies this`pos, this`stack, this`error, this`warnings, this`done
      ensures Valid() && stop == error.Some?
      ensures !stop ==> stack == old(stack) && Visited(old(pos), pos, old(done), done)
      ensures !stop && warnings == [] ==> old(warnings) == [] && target in done
      ensures warnings == [] ==> old(warnings) == []
      decreases types.Keys - pos.Keys, 2
    {
      hide Reaches, IsRoot, RealCycle, Topological, PosWellFormed, Visited, IsWalk, TargetsDone, Distinct,
           IsLeafrefNode, Targets, TargetGraph, Succ;
      TargetGraphEdge(types, n, target);
      PosOf(types, pos, stack, done, target);
      VisitedNone(pos, done);
      stop := false;
      if target in pos && pos[target] > 0 {
        var cycle := stack[pos[target] - 1..] + [target];
        StackCloses(types, modules, stack, pos[target] - 1, target);
        if !vendor {
          error := Some(cycle);
          return true;
        }
        warnings := warnings + [cycle];
      } else if target !in pos {
        stop := Visit(target);
      }
    }

    /** Visits the leafref nodes below t in schema order, until a cycle stops the check. */
    method WalkSchemaNodes(t: Tree, ghost m: Module) returns (complete: bool)
      requires Valid() && error.None? && stack == []
      requires m in modules && m.implemented && m.root.Some? && Below(t) <= Below(m.root.value)
      modifies this`pos, this`stack, this`error, this`warnings, this`done
      ensures Valid() && complete == error.None?
      ensures complete ==> stack == [] && (forall x :: x in old(done) ==> x in done)
      ensures complete ==> forall n :: n in Below(t) && IsLeafrefNode(types, n) ==> n in done
      decreases t
    {
      hide Reaches, RealCycle, Topological, IsWalk;
      var i := 0;
      while i < |t.children|
        invariant 0 <= i <= |t.children|
        invariant Valid() && error.None? && stack == []
        invariant forall x :: x in old(done) ==> x in done
        invariant forall j, n ::
                    (0 <= j < i && n in {t.children[j].node} + Below(t.children[j]) && IsLeafrefNode(types, n)) ==>
                    n in done
      {
        var child := t.children[i];
        ChildIsBelow(t, i);
        PosOf(types, pos, stack, done, child.node);
        if child.node !in pos && IsLeafrefNode(types, child.node) {
          var stopped := Visit(child.node);
          if stopped {
            return false;
          }
        }
        complete := WalkSchemaNodes(child, m);
        if !complete {
          return false;
        }
        i := i + 1;
      }
      complete := true;
      forall n | n in Below(t) && IsLeafrefNode(types, n)
        ensures n in done
      {
        BelowAllHolds(t.children, n);
      }
    }

    /**
     Outside vendor-compatible mode the check fails exactly when some chain of leafrefs
     from an implemented module cycles; in that mode it records a warning exactly then.
     Whatever is reported is a real cycle.
     */
    method ValidateLeafrefCycles()
      requires Valid() && stack == [] && warnings == [] && error.None? && pos == map[]
      modifies this`pos, this`stack, this`error, this`warnings, this`done
      ensures !vendor ==> (error.None? <==> CycleFree(types, modules))
      ensures vendor ==> error.None? && (warnings == [] <==> CycleFree(types, modules))
      ensures error.Some? ==> RealCycle(types, modules, error.value)
      ensures forall w :: w in warnings ==> RealCycle(types, modules, w)
    {
      hide Reaches, RealCycle, Topological, IsWalk, CycleFree;
      var i := 0;
      while i < |modules|
        invariant 0 <= i <= |modules|
        invariant Valid() && error.None? && stack == []
        invariant forall j, n :: (0 <= j < i && modules[j].implemented && modules[j].root.Some?
                                  && n in Below(modules[j].root.value)
                                  && IsLeafrefNode(types, n)) ==> n in done
      {
        if modules[i].implemented && modules[i].root.Some? {
          assert modules[i] in modules;
          var complete := WalkSchemaNodes(modules[i].root.value, modules[i]);
          if !complete {
            RealCycleFound(types, modules, error.value);
            return;
          }
        }
        i := i + 1;
      }
      if warnings == [] {
        assert Distinct(done);
        AllFinished(types, modules, done);
      } else {
        assert warnings[0] in warnings;
        RealCycleFound(types, modules, warnings[0]);
      }
    }
  }

  /** What following leafrefs from a node finds.  trace lists the nodes left behind. */
  datatype ChainResult =
    | NotLeafref
    | UnresolvedTarget(at: Node)
    | Cycle(at: Node)
    | Resolved(target: Node, realtype: Option<Leafrefs.Resolved>, trace: seq<Node>)

  /** Whether the type of n is itself a leafref, not a union holding one. */
  predicate IsDirectLeafref(types: Types, n: Node) {
    n in types && types[n].LeafRef?
  }

  /** trace followed by end is a chain of leafrefs, each leading to the next. */
  ghost predicate LeafrefTrace(types: Types, trace: seq<Node>, end: Node) {
    && (forall i :: 0 <= i < |trace| ==> IsDirectLeafref(types, trace[i]))
    && (forall i :: 0 <= i < |trace| ==> types[trace[i]].target == Some((trace + [end])[i + 1]))
  }

  /** The snapshot held by the last leafref of the trace that holds one. */
  function LastRealtype(types: Types, trace: seq<Node>): (r: Option<Leafrefs.Resolved>)
    requires forall i :: 0 <= i < |trace| ==> IsDirectLeafref(types, trace[i])
  {
    if trace == [] then None
    else
      assert IsDirectLeafref(types, trace[|trace| - 1]);
      var last := types[trace[|trace| - 1]].realtype;
      if last.Some? then last else LastRealtype(types, trace[..|trace| - 1])
  }

  /** A trace that returned to one of its own nodes is a walk of the target graph closed by an edge. */
  lemma TraceCycles(types: Types, trace: seq<Node>, at: Node)
    requires LeafrefTrace(types, trace, at) && at in trace
    ensures Reaches(TargetGraph(types), trace[0], at)
    ensures StrictlyReaches(TargetGraph(types), at, at)
  {
    var g := TargetGraph(types);
    var k :| 0 <= k < |trace| && trace[k] == at;
    forall i | 0 <= i < |trace| - 1
      ensures trace[i + 1] in Succ(g, trace[i])
    {
      assert (trace + [at])[i + 1] == trace[i + 1];
      TargetGraphEdge(types, trace[i], trace[i + 1]);
    }
    assert (trace + [at])[|trace|] == at;
    TargetGraphEdge(types, trace[|trace| - 1], at);
    WalkTailCloses(g, trace, k);
    ClosedWalkIsCycle(g, trace[k..] + [trace[k]]);
  }

  /** Follows leafrefs from source to the first node that is not one. */
  method ResolveLeafrefChain(types: Types, source: Node) returns (r: ChainResult)
    ensures r.NotLeafref? <==> !IsDirectLeafref(types, source)
    ensures r.Resolved? ==> LeafrefTrace(types, r.trace, r.target) && !IsDirectLeafref(types, r.target)
                            && |r.trace| > 0 && r.trace[0] == source && Distinct(r.trace)
                            && r.realtype == LastRealtype(types, r.trace)
    ensures r.UnresolvedTarget? ==> IsDirectLeafref(types, r.at) && types[r.at].target.None?
                                    && exists trace :: LeafrefTrace(types, trace, r.at) && (trace + [r.at])[0] == source
    ensures r.Cycle? ==> Reaches(TargetGraph(types), source, r.at) && StrictlyReaches(TargetGraph(types), r.at, r.at)
  {
    hide Reaches, StrictlyReaches;
    var current := source;
    var seen: set<Node> := {};
    var trace: seq<Node> := [];
    var realtype: Option<Leafrefs.Resolved> := None;
    while true
      invariant LeafrefTrace(types, trace, current) && (trace + [current])[0] == source
      invariant realtype == LastRealtype(types, trace)
      invariant Distinct(trace) && seen <= types.Keys && forall n :: n in seen <==> n in trace
      decreases types.Keys - seen
    {
      if current in seen {
        TraceCycles(types, trace, current);
        return Cycle(current);
      }
      if !IsDirectLeafref(types, current) {
        if |trace| == 0 {
          return NotLeafref;
        }
        return Resolved(current, realtype, trace);
      }
      seen := seen + {current};
      var lr := types[current];
      if lr.target.None? {
        return UnresolvedTarget(current);
      }
      if lr.realtype.Some? {
        realtype := lr.realtype;
      }
      ExtendTrace(types, trace, current, lr.target.value);
      assert (trace + [current])[..|trace|] == trace;
      trace := trace + [current];
      current := lr.target.value;
    }
  }

  lemma ExtendTrace(types: Types, trace: seq<Node>, n: Node, next: Node)
    requires LeafrefTrace(types, trace, n) && IsDirectLeafref(types, n) && types[n].target == Some(next)
    ensures LeafrefTrace(types, trace + [n], next)
  {
    var longer := trace + [n];
    forall i | 0 <= i < |longer|
      ensures IsDirectLeafref(types, longer[i]) && types[longer[i]].target == Some((longer + [next])[i + 1])
    {
      if i < |trace| {
        assert (trace + [n])[i + 1] == (longer + [next])[i + 1];
      }
    }
  }

  /** Once the check has passed, no chain from a node it covered can be reported as a cycle. */
  lemma PassedCheckMeansNoCycle(types: Types, modules: seq<Module>, root: Node, n: Node, r: ChainResult)
    requires CycleFree(types, modules) && IsRoot(types, modules, root) && Reaches(TargetGraph(types), root, n)
    requires r.Cycle? ==> Reaches(TargetGraph(types), n, r.at) && StrictlyReaches(TargetGraph(types), r.at, r.at)
    ensures !r.Cycle?
  {
    if r.Cycle? {
      ReachesTransitive(TargetGraph(types), root, n, r.at);
    }
  }
}
