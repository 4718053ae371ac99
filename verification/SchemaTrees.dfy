/** Ordered schema trees, path lookup by first match, and insertion of augment children by rank. */
module SchemaTrees {
  import opened Common

  type ModuleId = nat

  datatype QName = QName(mod: ModuleId, name: string)

  /** Only the kinds that matter to augments are told apart.  The world's children are the module roots. */
  datatype Kind = World | ModuleRoot | Choice | Case | OtherKind

  /** A schema node.  rank is 0 for declared children and the augment's rank for the children it adds. */
  datatype Tree = Tree(id: QName, kind: Kind, rank: nat, children: seq<Tree>)

  /** A path step: a name, and the modules its prefix may stand for; None is a step without prefix. */
  datatype Step = Step(name: string, modules: Option<set<ModuleId>>)

  type Path = seq<Step>

  predicate Matches(s: Step, id: QName) {
    id.name == s.name && (s.modules.Some? ==> id.mod in s.modules.value)
  }

  /** The index of the first child matching s, or the number of children. */
  function FirstMatch(children: seq<Tree>, s: Step): (i: nat)
    ensures i <= |children|
    ensures i < |children| ==> Matches(s, children[i].id)
    ensures forall j :: 0 <= j < i ==> !Matches(s, children[j].id)
  {
    if children == [] || Matches(s, children[0].id) then 0 else 1 + FirstMatch(children[1..], s)
  }

  function Find(t: Tree, path: Path): Option<Tree>
    decreases |path|
  {
    if path == [] then Some(t)
    else
      var i := FirstMatch(t.children, path[0]);
      if i == |t.children| then None else Find(t.children[i], path[1..])
  }

  /** Where the children of an augment of this rank go: before the trailing children of higher rank. */
  function PlaceIndex(children: seq<Tree>, rank: nat): (at: nat)
    ensures at <= |children|
    ensures forall i :: at <= i < |children| ==> children[i].rank > rank
    ensures at > 0 ==> children[at - 1].rank <= rank
  {
    if children == [] || children[|children| - 1].rank <= rank then |children|
    else PlaceIndex(children[..|children| - 1], rank)
  }

  function Place(children: seq<Tree>, added: seq<Tree>, rank: nat): seq<Tree> {
    var at := PlaceIndex(children, rank);
    children[..at] + added + children[at..]
  }

  /** The loop that finds the insertion point, and the insertion. */
  method InsertAugmentChildren(children: seq<Tree>, added: seq<Tree>, rank: nat) returns (r: seq<Tree>)
    ensures r == Place(children, added, rank)
  {
    var at := |children|;
    while at > 0 && children[at - 1].rank > rank
      invariant 0 <= at <= |children|
      invariant PlaceIndex(children, rank) == PlaceIndex(children[..at], rank)
    {
      assert children[..at][..at - 1] == children[..at - 1];
      at := at - 1;
    }
    r := children[..at] + added + children[at..];
  }

  /** The nodes an augment adds: content under any node, shorthand cases around it under a choice. */
  function Contribution(content: seq<Tree>, kind: Kind, rank: nat): (r: seq<Tree>)
    ensures |r| == |content|
    ensures forall i :: 0 <= i < |r| ==> r[i].id == content[i].id && r[i].rank == rank
    ensures kind.Choice? ==> forall i :: 0 <= i < |r| ==> r[i].kind.Case?
  {
    if content == [] then []
    else
      var c := content[0];
      var node := if kind.Choice? && !c.kind.Case? then Tree(c.id, Case, rank, [c]) else c.(rank := rank);
      [node] + Contribution(content[1..], kind, rank)
  }

  /** Adds content with the given rank to the node at path. */
  function InsertAt(t: Tree, path: Path, content: seq<Tree>, rank: nat): (r: Tree)
    requires Find(t, path).Some?
    ensures r.id == t.id && r.kind == t.kind && r.rank == t.rank
    decreases |path|
  {
    if path == [] then t.(children := Place(t.children, Contribution(content, t.kind, rank), rank))
    else
      var i := FirstMatch(t.children, path[0]);
      t.(children := t.children[i := InsertAt(t.children[i], path[1..], content, rank)])
  }

  // ---- Unambiguous trees

  ghost predicate AtMostOne(children: seq<Tree>, s: Step) {
    forall i, j :: 0 <= i < j < |children| ==> !(Matches(s, children[i].id) && Matches(s, children[j].id))
  }

  /** No node has two children that one of the steps matches. */
  ghost predicate Unambiguous(t: Tree, steps: set<Step>) {
    && (forall s :: s in steps ==> AtMostOne(t.children, s))
    && (forall c :: c in t.children ==> Unambiguous(c, steps))
  }

  ghost predicate SameHead(a: Tree, b: Tree) { a.id == b.id && a.kind == b.kind && a.rank == b.rank }

  /** The same nodes in the same order, whatever is below them. */
  ghost predicate SameHeads(a: seq<Tree>, b: seq<Tree>) {
    |a| == |b| && forall i :: 0 <= i < |a| ==> SameHead(a[i], b[i])
  }

  lemma {:induction false} FirstMatchSame(a: seq<Tree>, b: seq<Tree>, s: Step)
    requires SameHeads(a, b)
    ensures FirstMatch(a, s) == FirstMatch(b, s)
  {
    if a != [] {
      FirstMatchSame(a[1..], b[1..], s);
    }
  }

  lemma {:induction false} PlaceIndexSame(a: seq<Tree>, b: seq<Tree>, rank: nat)
    requires SameHeads(a, b)
    ensures PlaceIndex(a, rank) == PlaceIndex(b, rank)
  {
    if a != [] {
      PlaceIndexSame(a[..|a| - 1], b[..|b| - 1], rank);
    }
  }

  lemma OnlyMatch(children: seq<Tree>, s: Step, i: nat)
    requires AtMostOne(children, s) && i < |children| && Matches(s, children[i].id)
    ensures FirstMatch(children, s) == i
  {
  }

  /** Where child i stands after children were placed. */
  function Shifted(children: seq<Tree>, added: seq<Tree>, rank: nat, i: nat): nat {
    if i < PlaceIndex(children, rank) then i else i + |added|
  }

  lemma PlacedChild(children: seq<Tree>, added: seq<Tree>, rank: nat, i: nat)
    requires i < |children|
    ensures Shifted(children, added, rank, i) < |Place(children, added, rank)|
    ensures Place(children, added, rank)[Shifted(children, added, rank, i)] == children[i]
  {
  }

  /** A step that found child i before still finds it after an unambiguous placement. */
  lemma FoundAfterPlacing(children: seq<Tree>, added: seq<Tree>, rank: nat, s: Step)
    requires FirstMatch(children, s) < |children| && AtMostOne(Place(children, added, rank), s)
    ensures FirstMatch(Place(children, added, rank), s) == Shifted(children, added, rank, FirstMatch(children, s))
  {
    hide Place, Shifted, AtMostOne;
    var i := FirstMatch(children, s);
    PlacedChild(children, added, rank, i);
    OnlyMatch(Place(children, added, rank), s, Shifted(children, added, rank, i));
  }

  lemma PlacingKeepsUpdates(children: seq<Tree>, added: seq<Tree>, rank: nat, i: nat, c: Tree)
    requires i < |children| && SameHead(c, children[i])
    ensures PlaceIndex(children[i := c], rank) == PlaceIndex(children, rank)
    ensures Shifted(children, added, rank, i) < |Place(children, added, rank)|
    ensures Place(children[i := c], added, rank) == Place(children, added, rank)[Shifted(children, added, rank, i) := c]
  {
    hide PlaceIndex;
    PlaceIndexSame(children, children[i := c], rank);
    UpdateAround(children, PlaceIndex(children, rank), added, i, c);
  }

  lemma UpdateAround<T>(s: seq<T>, at: nat, middle: seq<T>, i: nat, x: T)
    requires at <= |s| && i < |s|
    ensures s[i := x][..at] + middle + s[i := x][at..] ==
            (s[..at] + middle + s[at..])[if i < at then i else i + |middle| := x]
  {
  }

  /** Two augments of one node may be placed in either order. */
  lemma PlacingCommutes(children: seq<Tree>, a: seq<Tree>, ra: nat, b: seq<Tree>, rb: nat)
    requires ra < rb
    requires (forall c :: c in a ==> c.rank == ra) && (forall c :: c in b ==> c.rank == rb)
    ensures Place(Place(children, a, ra), b, rb) == Place(Place(children, b, rb), a, ra)
  {
    hide Place, PlaceIndex, EndsLow, AllAbove;
    var p, q := PlaceIndex(children, ra), PlaceIndex(children, rb);
    assert p <= q;
    SplitByRank(children, ra, p);
    SplitByRank(children, rb, q);
    var x, y, z := children[..p], children[p..q], children[q..];
    MiddleByRank(children, ra, rb, p, q);
    assert EndsLow(a, rb) && AllAbove(b, ra) by {
      SameRanks(a, ra, rb);
      SameRanks(b, rb, ra);
    }
    InEitherOrder(x, y, z, a, ra, b, rb);
  }

  lemma SameRanks(s: seq<Tree>, own: nat, other: nat)
    requires forall c :: c in s ==> c.rank == own
    ensures own <= other ==> EndsLow(s, other)
    ensures own > other ==> AllAbove(s, other)
  {
    assert forall i :: 0 <= i < |s| ==> s[i] in s;
  }

  lemma SplitByRank(children: seq<Tree>, rank: nat, at: nat)
    requires at == PlaceIndex(children, rank)
    ensures EndsLow(children[..at], rank) && AllAbove(children[at..], rank)
  {
    hide PlaceIndex;
  }

  lemma Thirds<T>(s: seq<T>, p: nat, q: nat)
    requires p <= q <= |s|
    ensures s == s[..p] + s[p..q] + s[q..]
  {
  }

  lemma LastOfPrefix(children: seq<Tree>, ra: nat, rb: nat, p: nat)
    requires ra < rb && p == PlaceIndex(children, ra)
    ensures EndsLow(children[..p], rb)
  {
    hide PlaceIndex;
  }

  lemma MiddleByRank(children: seq<Tree>, ra: nat, rb: nat, p: nat, q: nat)
    requires ra < rb && p == PlaceIndex(children, ra) && q == PlaceIndex(children, rb) && p <= q
    ensures children == children[..p] + children[p..q] + children[q..]
    ensures EndsLow(children[..p], rb) && AllAbove(children[p..q], ra) && EndsLow(children[p..q], rb)
            && AllAbove(children[q..], ra)
  {
    hide PlaceIndex, EndsLow, AllAbove;
    Thirds(children, p, q);
    LastOfPrefix(children, ra, rb, p);
    SliceAbove(children, ra, p, q);
    TailAbove(children, ra, rb, q);
    SliceEndsLow(children, rb, p, q);
  }

  lemma TailAbove(children: seq<Tree>, ra: nat, rb: nat, q: nat)
    requires ra < rb && q == PlaceIndex(children, rb)
    ensures AllAbove(children[q..], ra)
  {
    hide PlaceIndex;
  }

  lemma SliceAbove(children: seq<Tree>, rank: nat, p: nat, q: nat)
    requires PlaceIndex(children, rank) <= p <= q <= |children|
    ensures AllAbove(children[p..q], rank)
  {
    hide PlaceIndex;
    var s := children[p..q];
    assert forall i :: 0 <= i < |s| ==> s[i] == children[p + i];
  }

  lemma SliceEndsLow(children: seq<Tree>, rank: nat, p: nat, q: nat)
    requires p <= q == PlaceIndex(children, rank)
    ensures EndsLow(children[p..q], rank)
  {
    hide PlaceIndex;
  }

  ghost predicate EndsLow(s: seq<Tree>, rank: nat) { |s| > 0 ==> s[|s| - 1].rank <= rank }

  ghost predicate AllAbove(s: seq<Tree>, rank: nat) { forall i :: 0 <= i < |s| ==> s[i].rank > rank }

  lemma Concats(a: seq<Tree>, b: seq<Tree>, rank: nat)
    ensures EndsLow(a, rank) && EndsLow(b, rank) ==> EndsLow(a + b, rank)
    ensures AllAbove(a, rank) && AllAbove(b, rank) ==> AllAbove(a + b, rank)
  {
  }

  lemma InEitherOrder(x: seq<Tree>, y: seq<Tree>, z: seq<Tree>, a: seq<Tree>, ra: nat, b: seq<Tree>, rb: nat)
    requires EndsLow(x, ra) && AllAbove(y, ra) && EndsLow(x, rb) && EndsLow(y, rb) && AllAbove(z, ra) && AllAbove(z, rb)
    requires EndsLow(a, rb) && AllAbove(b, ra)
    ensures Place(Place(x + y + z, a, ra), b, rb) == Place(Place(x + y + z, b, rb), a, ra)
  {
    hide Place, EndsLow, AllAbove;
    Concats(x, a, rb);
    Concats(x + a, y, rb);
    Concats(y, z, ra);
    Concats(y, b, ra);
    Concats(y + b, z, ra);
    Concats(x, y, rb);
    assert x + y + z == x + (y + z);
    PlaceBetween(x, y + z, a, ra);
    assert x + a + (y + z) == x + a + y + z;
    PlaceBetween(x + a + y, z, b, rb);
    PlaceBetween(x + y, z, b, rb);
    assert x + y + b + z == x + (y + b + z);
    PlaceBetween(x, y + b + z, a, ra);
    assert x + a + y + b + z == x + a + (y + b + z);
  }

  lemma PlaceBetween(low: seq<Tree>, high: seq<Tree>, added: seq<Tree>, rank: nat)
    requires EndsLow(low, rank) && AllAbove(high, rank)
    ensures Place(low + high, added, rank) == low + added + high
  {
    assert (low + high)[..|low|] == low && (low + high)[|low|..] == high;
    PlaceIndexIs(low + high, rank, |low|);
  }

  lemma {:induction false} PlaceIndexIs(children: seq<Tree>, rank: nat, at: nat)
    requires at <= |children| && (forall i :: at <= i < |children| ==> children[i].rank > rank)
    requires at > 0 ==> children[at - 1].rank <= rank
    ensures PlaceIndex(children, rank) == at
  {
  }
}
