/** Leaf types that refer to other leaves, and the graph of their targets. */
module Leafrefs {
  import opened Common
  import opened Graphs

  type Node = nat

  /** A resolved type.  Every type other than leafref and union is opaque here. */
  datatype Resolved =
    | LeafRef(target: Option<Node>, realtype: Option<Resolved>)
    | Union(members: seq<Resolved>)
    | Other(kind: nat)

  /** The leaves and leaf-lists that have a type. */
  type Types = map<Node, Resolved>

  predicate ContainsLeafref(r: Resolved) {
    match r
    case LeafRef(_, _) => true
    case Union(members) => exists m | m in members :: ContainsLeafref(m)
    case Other(_) => false
  }

  /** The targets of the leafrefs in r, union members in declaration order. */
  function Targets(r: Resolved): (ts: seq<Node>) {
    match r
    case LeafRef(target, _) => if target.Some? then [target.value] else []
    case Union(members) => MemberTargets(members)
    case Other(_) => []
  }

  function MemberTargets(members: seq<Resolved>): (ts: seq<Node>) {
    if members == [] then [] else Targets(members[0]) + MemberTargets(members[1..])
  }

  /** A leafref to t, on its own or inside unions. */
  ghost predicate RefersTo(r: Resolved, t: Node) {
    match r
    case LeafRef(target, _) => target == Some(t)
    case Union(members) => exists m :: m in members && RefersTo(m, t)
    case Other(_) => false
  }

  /** Made of other types only, however unions nest. */
  ghost predicate Plain(r: Resolved) {
    match r
    case LeafRef(_, _) => false
    case Union(members) => forall m :: m in members ==> Plain(m)
    case Other(_) => true
  }

  lemma {:induction false} ContainsExactly(r: Resolved)
    ensures ContainsLeafref(r) <==> !Plain(r)
  {
    if r.Union? {
      forall m | m in r.members
        ensures ContainsLeafref(m) <==> !Plain(m)
      {
        ContainsExactly(m);
      }
    }
  }

  lemma {:induction false} TargetsExactly(r: Resolved, t: Node)
    ensures t in Targets(r) <==> RefersTo(r, t)
    decreases r, 1
  {
    if r.Union? {
      MemberTargetsExactly(r, r.members, t);
    }
  }

  lemma {:induction false} MemberTargetsExactly(r: Resolved, members: seq<Resolved>, t: Node)
    requires forall m :: m in members ==> m < r
    ensures t in MemberTargets(members) <==> exists m :: m in members && RefersTo(m, t)
    decreases r, 0, |members|
  {
    if members != [] {
      assert members == [members[0]] + members[1..] && members[0] in members;
      assert forall m :: m in members[1..] ==> m in members;
      TargetsExactly(members[0], t);
      MemberTargetsExactly(r, members[1..], t);
    }
  }

  predicate IsLeafrefNode(types: Types, n: Node) {
    n in types && ContainsLeafref(types[n])
  }

  /** The targets a chain of leafrefs can continue from. */
  function Followed(types: Types, targets: seq<Node>): (ts: seq<Node>) {
    if targets == [] then []
    else if IsLeafrefNode(types, targets[0]) then [targets[0]] + Followed(types, targets[1..])
    else Followed(types, targets[1..])
  }

  /** Edges lead from a leaf to the targets of its leafrefs whose own type contains a leafref. */
  function TargetGraph(types: Types): Graph<Node> {
    map n | n in types :: Followed(types, Targets(types[n]))
  }

  lemma {:induction false} FollowedHolds(types: Types, targets: seq<Node>, t: Node)
    ensures t in Followed(types, targets) <==> t in targets && IsLeafrefNode(types, t)
  {
    if targets != [] {
      FollowedHolds(types, targets[1..], t);
      assert targets == [targets[0]] + targets[1..];
    }
  }

  lemma TargetGraphEdge(types: Types, n: Node, t: Node)
    ensures t in Succ(TargetGraph(types), n) <==> n in types && t in Targets(types[n]) && IsLeafrefNode(types, t)
  {
    if n in types {
      FollowedHolds(types, Targets(types[n]), t);
    }
  }

  lemma {:induction false} TargetsNeedLeafref(r: Resolved)
    ensures !ContainsLeafref(r) ==> Targets(r) == []
    decreases r
  {
    match r
    case Union(members) =>
      if !ContainsLeafref(r) {
        MembersNeedLeafref(r, members);
      }
    case _ =>
  }

  lemma {:induction false} MembersNeedLeafref(r: Resolved, members: seq<Resolved>)
    requires forall m :: m in members ==> m < r && !ContainsLeafref(m)
    ensures MemberTargets(members) == []
    decreases r, 0, |members|
  {
    if members != [] {
      assert members[0] in members;
      assert forall m :: m in members[1..] ==> m in members;
      TargetsNeedLeafref(members[0]);
      MembersNeedLeafref(r, members[1..]);
    }
  }
}
