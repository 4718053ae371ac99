/**
 Finite directed graphs given by ordered successor lists, walks in them, and the
 facts about reachability that the identity and leafref algorithms share.
 */
module Graphs {
  import opened Common

  type Graph<N> = map<N, seq<N>>

  function Succ<N>(g: Graph<N>, n: N): seq<N> {
    if n in g then g[n] else []
  }

  /** Consecutive nodes of w are joined by edges. */
  ghost predicate IsWalk<N>(g: Graph<N>, w: seq<N>) {
    |w| > 0 && forall i :: 0 <= i < |w| - 1 ==> w[i + 1] in Succ(g, w[i])
  }

  ghost predicate WalkFromTo<N>(g: Graph<N>, w: seq<N>, a: N, b: N) {
    IsWalk(g, w) && w[0] == a && w[|w| - 1] == b
  }

  /** A walk of at least one edge that ends where it starts. */
  ghost predicate ClosedWalk<N>(g: Graph<N>, w: seq<N>) {
    IsWalk(g, w) && |w| >= 2 && w[0] == w[|w| - 1]
  }

  /** b is a or can be reached from a. */
  ghost predicate Reaches<N(!new)>(g: Graph<N>, a: N, b: N) {
    exists w :: WalkFromTo(g, w, a, b)
  }

  /** b can be reached from a by one or more edges. */
  ghost predicate StrictlyReaches<N(!new)>(g: Graph<N>, a: N, b: N) {
    exists m :: m in Succ(g, a) && Reaches(g, m, b)
  }

  /** No node reachable from a lies on a cycle. */
  ghost predicate AcyclicFrom<N(!new)>(g: Graph<N>, a: N) {
    forall n :: Reaches(g, a, n) ==> !StrictlyReaches(g, n, n)
  }

  ghost predicate Acyclic<N(!new)>(g: Graph<N>) {
    forall n :: !StrictlyReaches(g, n, n)
  }

  /** Every edge leaving s ends in s. */
  ghost predicate Closed<N(!new)>(g: Graph<N>, s: set<N>) {
    forall n, m :: n in s && m in Succ(g, n) ==> m in s
  }

  lemma ReachesSelf<N(!new)>(g: Graph<N>, a: N)
    ensures Reaches(g, a, a)
  {
    assert WalkFromTo(g, [a], a, a);
  }

  lemma ReachesTransitive<N(!new)>(g: Graph<N>, a: N, b: N, c: N)
    requires Reaches(g, a, b) && Reaches(g, b, c)
    ensures Reaches(g, a, c)
  {
    var u :| WalkFromTo(g, u, a, b);
    var v :| WalkFromTo(g, v, b, c);
    var w := u + v[1..];
    forall i | 0 <= i < |w| - 1
      ensures w[i + 1] in Succ(g, w[i])
    {
      if i < |u| - 1 {
        assert w[i] == u[i] && w[i + 1] == u[i + 1];
      } else {
        assert w[i] == v[i - |u| + 1] && w[i + 1] == v[i - |u| + 2];
      }
    }
    assert WalkFromTo(g, w, a, c);
  }

  lemma EdgeReaches<N(!new)>(g: Graph<N>, a: N, b: N)
    requires b in Succ(g, a)
    ensures Reaches(g, a, b) && StrictlyReaches(g, a, b)
  {
    assert WalkFromTo(g, [a, b], a, b);
    ReachesSelf(g, b);
  }

  lemma StrictlyReachesReaches<N(!new)>(g: Graph<N>, a: N, b: N)
    requires StrictlyReaches(g, a, b)
    ensures Reaches(g, a, b)
  {
    var m :| m in Succ(g, a) && Reaches(g, m, b);
    EdgeReaches(g, a, m);
    ReachesTransitive(g, a, m, b);
  }

  /** Reaching is either standing still or taking a first edge. */
  lemma ReachesUnfold<N(!new)>(g: Graph<N>, a: N, b: N)
    ensures Reaches(g, a, b) <==> a == b || StrictlyReaches(g, a, b)
  {
    if Reaches(g, a, b) && a != b {
      var w :| WalkFromTo(g, w, a, b);
      assert w[1] in Succ(g, w[0]);
      assert WalkFromTo(g, w[1..], w[1], b);
    }
    if StrictlyReaches(g, a, b) {
      StrictlyReachesReaches(g, a, b);
    }
    ReachesSelf(g, a);
  }

  lemma ReachesThenEdge<N(!new)>(g: Graph<N>, a: N, b: N, c: N)
    requires Reaches(g, a, b) && c in Succ(g, b)
    ensures Reaches(g, a, c) && StrictlyReaches(g, a, c)
  {
    EdgeReaches(g, b, c);
    ReachesTransitive(g, a, b, c);
    ReachesUnfold(g, a, b);
    if a != b {
      var m :| m in Succ(g, a) && Reaches(g, m, b);
      ReachesTransitive(g, m, b, c);
    }
  }

  /** A closed set holds everything its members reach. */
  lemma {:induction false} ClosedHoldsReachable<N(!new)>(g: Graph<N>, s: set<N>, w: seq<N>)
    requires Closed(g, s) && IsWalk(g, w) && w[0] in s
    ensures w[|w| - 1] in s
  {
    if |w| > 1 {
      assert w[1] in Succ(g, w[0]);
      ClosedHoldsReachable(g, s, w[1..]);
    }
  }

  lemma ClosedReaches<N(!new)>(g: Graph<N>, s: set<N>, a: N, b: N)
    requires Closed(g, s) && a in s && Reaches(g, a, b)
    ensures b in s
  {
    var w :| WalkFromTo(g, w, a, b);
    ClosedHoldsReachable(g, s, w);
  }

  /** Two graphs that agree on a closed set have the same reachability from it. */
  lemma {:induction false} AgreeingWalk<N(!new)>(g: Graph<N>, h: Graph<N>, s: set<N>, w: seq<N>)
    requires Closed(g, s) && (forall n :: n in s ==> Succ(g, n) == Succ(h, n))
    requires IsWalk(g, w) && w[0] in s
    ensures IsWalk(h, w)
  {
    if |w| > 1 {
      assert w[1] in Succ(g, w[0]);
      AgreeingWalk(g, h, s, w[1..]);
      forall i | 0 <= i < |w| - 1
        ensures w[i + 1] in Succ(h, w[i])
      {
        if i > 0 {
          assert w[1..][i - 1] == w[i] && w[1..][i] == w[i + 1];
        }
      }
    }
  }

  lemma AgreeingReaches<N(!new)>(g: Graph<N>, h: Graph<N>, s: set<N>, a: N, b: N)
    requires Closed(g, s) && (forall n :: n in s ==> Succ(g, n) == Succ(h, n)) && a in s
    ensures Reaches(g, a, b) <==> Reaches(h, a, b)
  {
    if Reaches(g, a, b) {
      var w :| WalkFromTo(g, w, a, b);
      AgreeingWalk(g, h, s, w);
      assert WalkFromTo(h, w, a, b);
    }
    if Reaches(h, a, b) {
      var w :| WalkFromTo(h, w, a, b);
      AgreeingWalk(h, g, s, w);
      assert WalkFromTo(g, w, a, b);
    }
  }

  /** A closed walk puts its first node on a cycle. */
  lemma ClosedWalkIsCycle<N(!new)>(g: Graph<N>, w: seq<N>)
    requires ClosedWalk(g, w)
    ensures StrictlyReaches(g, w[0], w[0])
  {
    assert w[1] in Succ(g, w[0]);
    assert WalkFromTo(g, w[1..], w[1], w[0]);
  }

  /** The part of a walk from position k on, closed by an edge back to its node k. */
  lemma WalkTailCloses<N(!new)>(g: Graph<N>, w: seq<N>, k: nat)
    requires IsWalk(g, w) && k < |w| && w[k] in Succ(g, w[|w| - 1])
    ensures ClosedWalk(g, w[k..] + [w[k]])
    ensures Reaches(g, w[0], w[k])
  {
    assert WalkFromTo(g, w[..k + 1], w[0], w[k]);
    var c := w[k..] + [w[k]];
    forall i | 0 <= i < |c| - 1
      ensures c[i + 1] in Succ(g, c[i])
    {
      assert c[i] == w[k + i];
      if i < |c| - 2 {
        assert c[i + 1] == w[k + i + 1];
      }
    }
  }

  /** order lists nodes so that every successor of a node comes before it. */
  ghost predicate Topological<N>(g: Graph<N>, order: seq<N>) {
    forall i, m :: 0 <= i < |order| && m in Succ(g, order[i]) ==> m in order[..i]
  }

  /** Nothing listed in a topological order lies on a cycle. */
  lemma {:induction false} TopologicalWalk<N(!new)>(g: Graph<N>, order: seq<N>, w: seq<N>, i: nat)
    requires Topological(g, order) && Distinct(order) && IsWalk(g, w) && i < |order| && w[0] == order[i]
    ensures w[|w| - 1] in order[..i + 1]
    ensures |w| > 1 ==> w[|w| - 1] in order[..i]
    decreases |w|
  {
    if |w| > 1 {
      assert w[1] in Succ(g, w[0]);
      assert w[1] in order[..i];
      var j :| 0 <= j < i && order[j] == w[1];
      TopologicalWalk(g, order, w[1..], j);
      assert w[1..][|w[1..]| - 1] == w[|w| - 1];
      var k :| 0 <= k < j + 1 && order[k] == w[|w| - 1];
      assert order[..i][k] == w[|w| - 1];
    } else {
      assert order[..i + 1][i] == w[0];
    }
  }

  lemma TopologicalAcyclic<N(!new)>(g: Graph<N>, order: seq<N>, n: N)
    requires Topological(g, order) && Distinct(order) && n in order
    ensures !StrictlyReaches(g, n, n)
  {
    if StrictlyReaches(g, n, n) {
      var m :| m in Succ(g, n) && Reaches(g, m, n);
      var w :| WalkFromTo(g, w, m, n);
      var i :| 0 <= i < |order| && order[i] == n;
      TopologicalWalk(g, order, [n] + w, i);
      assert false;
    }
  }

}
