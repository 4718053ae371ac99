/**
 Augments applied until none of the pending ones resolves.  Whatever order the pending
 augments are tried in, the same ones are applied and the same ordered tree results,
 provided no path step is ambiguous in the tree.
 */
module Augments {
  import opened Common
  import opened SchemaTrees

  /**
   A top-level augment of an implemented module.  path starts at a module root; content is
   what its statements build.  A disabled augment, or one that may not add its mandatory
   nodes to another module, is consumed without adding anything.
   */
  datatype Job = Job(path: Path, content: seq<Tree>, rank: nat, disabled: bool, admissible: bool)

  predicate Resolvable(t: Tree, j: Job) { Find(t, j.path).Some? }

  predicate Adds(j: Job) { !j.disabled && j.admissible }

  function Apply(t: Tree, j: Job): (r: Tree)
    requires Resolvable(t, j)
  {
    if Adds(j) then InsertAt(t, j.path, j.content, j.rank) else t
  }

  ghost predicate StepsIn(path: Path, steps: set<Step>) { forall s :: s in path ==> s in steps }

  lemma StepsOfTail(path: Path, steps: set<Step>)
    requires StepsIn(path, steps) && path != []
    ensures path[0] in steps && StepsIn(path[1..], steps)
  {
  }

  // ---- Insertion keeps what was found

  lemma {:induction false} InsertedUnambiguous(t: Tree, path: Path, content: seq<Tree>, rank: nat, steps: set<Step>)
    requires Find(t, path).Some? && Unambiguous(InsertAt(t, path, content, rank), steps)
    ensures Unambiguous(t, steps)
    decreases |path|
  {
    var r := InsertAt(t, path, content, rank);
    if path == [] {
      var added := Contribution(content, t.kind, rank);
      forall i | 0 <= i < |t.children|
        ensures t.children[i] in r.children
      {
        PlacedChild(t.children, added, rank, i);
      }
      forall s | s in steps
        ensures AtMostOne(t.children, s)
      {
        AtMostOneBefore(t.children, added, rank, s);
      }
    } else {
      var i := FirstMatch(t.children, path[0]);
      var c := InsertAt(t.children[i], path[1..], content, rank);
      assert r.children[i] == c;
      assert c in r.children;
      InsertedUnambiguous(t.children[i], path[1..], content, rank, steps);
      forall j | 0 <= j < |t.children|
        ensures Unambiguous(t.children[j], steps)
      {
        if j != i {
          assert r.children[j] in r.children;
        }
      }
      forall s | s in steps
        ensures AtMostOne(t.children, s)
      {
        SameMatches(r.children, t.children, s);
      }
    }
  }

  lemma AtMostOneBefore(children: seq<Tree>, added: seq<Tree>, rank: nat, s: Step)
    requires AtMostOne(Place(children, added, rank), s)
    ensures AtMostOne(children, s)
  {
    hide Place;
    forall i, j | 0 <= i < j < |children|
      ensures !(Matches(s, children[i].id) && Matches(s, children[j].id))
    {
      PlacedChild(children, added, rank, i);
      PlacedChild(children, added, rank, j);
      assert Shifted(children, added, rank, i) < Shifted(children, added, rank, j);
    }
  }

  lemma ChildUnambiguous(t: Tree, steps: set<Step>, i: nat)
    requires Unambiguous(t, steps) && i < |t.children|
    ensures Unambiguous(t.children[i], steps)
  {
  }

  /** A path found before an insertion leads to the same node after it, if the result is unambiguous. */
  lemma {:induction false} FoundAfterInserting(t: Tree, at: Path, content: seq<Tree>, rank: nat, path: Path,
                                               steps: set<Step>)
    requires Find(t, at).Some? && Find(t, path).Some? && StepsIn(path, steps)
    requires Unambiguous(InsertAt(t, at, content, rank), steps)
    ensures Find(InsertAt(t, at, content, rank), path).Some?
    ensures SameHead(Find(InsertAt(t, at, content, rank), path).value, Find(t, path).value)
    decreases |at|
  {
    hide Unambiguous, StepsIn, Place, Contribution;
    if path == [] {
      return;
    }
    StepsOfTail(path, steps);
    var r := InsertAt(t, at, content, rank);
    var i := FirstMatch(t.children, path[0]);
    if at == [] {
      var added := Contribution(content, t.kind, rank);
      StepUnambiguous(r, steps, path[0]);
      FoundAfterPlacing(t.children, added, rank, path[0]);
      PlacedChild(t.children, added, rank, i);
    } else {
      var k := FirstMatch(t.children, at[0]);
      var c := InsertAt(t.children[k], at[1..], content, rank);
      FirstMatchSame(t.children, r.children, path[0]);
      if i == k {
        ChildUnambiguous(r, steps, k);
        FoundAfterInserting(t.children[k], at[1..], content, rank, path[1..], steps);
      }
    }
  }

  lemma StepUnambiguous(t: Tree, steps: set<Step>, s: Step)
    requires Unambiguous(t, steps) && s in steps
    ensures AtMostOne(t.children, s)
  {
  }

  /** Insertions of different rank at found paths commute. */
  lemma {:induction false} InsertionsCommute(t: Tree, p: Path, a: seq<Tree>, ra: nat, q: Path, b: seq<Tree>, rb: nat,
                                             steps: set<Step>)
    requires ra != rb && StepsIn(p, steps) && StepsIn(q, steps)
    requires Find(t, p).Some? && Find(t, q).Some?
    requires Find(InsertAt(t, p, a, ra), q).Some? && Unambiguous(InsertAt(InsertAt(t, p, a, ra), q, b, rb), steps)
    ensures Find(InsertAt(t, q, b, rb), p).Some?
    ensures InsertAt(InsertAt(t, q, b, rb), p, a, ra) == InsertAt(InsertAt(t, p, a, ra), q, b, rb)
    decreases |p|, |q|
  {
    hide Unambiguous, StepsIn, Place, Contribution, FirstMatch;
    var ta, tb := InsertAt(t, p, a, ra), InsertAt(t, q, b, rb);
    if p == [] && q == [] {
      var ca, cb := Contribution(a, t.kind, ra), Contribution(b, t.kind, rb);
      ContributionRank(a, t.kind, ra);
      ContributionRank(b, t.kind, rb);
      if ra < rb {
        PlacingCommutes(t.children, ca, ra, cb, rb);
      } else {
        PlacingCommutes(t.children, cb, rb, ca, ra);
      }
    } else if p == [] {
      StepsOfTail(q, steps);
      PlaceThenDescend(t, a, ra, q, b, rb, steps);
    } else if q == [] {
      StepsOfTail(p, steps);
      DescendThenPlace(t, b, rb, p, a, ra, steps);
    } else {
      StepsOfTail(p, steps);
      StepsOfTail(q, steps);
      BothDescend(t, p, a, ra, q, b, rb, steps);
    }
  }

  lemma ContributionRank(content: seq<Tree>, kind: Kind, rank: nat)
    ensures forall c :: c in Contribution(content, kind, rank) ==> c.rank == rank
  {
    hide Contribution;
  }

  /** Adding children to t and then going down q into an older child, against the other order. */
  lemma PlaceThenDescend(t: Tree, a: seq<Tree>, ra: nat, q: Path, b: seq<Tree>, rb: nat, steps: set<Step>)
    requires q != [] && q[0] in steps && Find(t, q).Some?
    requires Find(InsertAt(t, [], a, ra), q).Some? && Unambiguous(InsertAt(InsertAt(t, [], a, ra), q, b, rb), steps)
    ensures InsertAt(InsertAt(t, q, b, rb), [], a, ra) == InsertAt(InsertAt(t, [], a, ra), q, b, rb)
  {
    hide Unambiguous, Place, Contribution, Shifted;
    var ta := InsertAt(t, [], a, ra);
    var added := Contribution(a, t.kind, ra);
    InsertedUnambiguous(ta, q, b, rb, steps);
    StepUnambiguous(ta, steps, q[0]);
    var i := FirstMatch(t.children, q[0]);
    FoundAfterPlacing(t.children, added, ra, q[0]);
    PlacedChild(t.children, added, ra, i);
    var c := InsertAt(t.children[i], q[1..], b, rb);
    PlacingKeepsUpdates(t.children, added, ra, i, c);
  }

  /** Going down p and then adding children to t, against the other order. */
  lemma {:induction false} DescendThenPlace(t: Tree, b: seq<Tree>, rb: nat, p: Path, a: seq<Tree>, ra: nat,
                                            steps: set<Step>)
    requires p != [] && p[0] in steps && Find(t, p).Some?
    requires Unambiguous(InsertAt(InsertAt(t, p, a, ra), [], b, rb), steps)
    ensures Find(InsertAt(t, [], b, rb), p).Some?
    ensures InsertAt(InsertAt(t, [], b, rb), p, a, ra) == InsertAt(InsertAt(t, p, a, ra), [], b, rb)
  {
    hide Unambiguous, Place, Contribution, Shifted, AtMostOne;
    var tb, r := InsertAt(t, [], b, rb), InsertAt(InsertAt(t, p, a, ra), [], b, rb);
    var added := Contribution(b, t.kind, rb);
    var i := FirstMatch(t.children, p[0]);
    var c := InsertAt(t.children[i], p[1..], a, ra);
    PlacingKeepsUpdates(t.children, added, rb, i, c);
    StepUnambiguous(r, steps, p[0]);
    var k := Shifted(t.children, added, rb, i);
    PlacedChild(t.children, added, rb, i);
    SameMatches(r.children, tb.children, p[0]);
    FoundAfterPlacing(t.children, added, rb, p[0]);
  }

  lemma SameMatches(a: seq<Tree>, b: seq<Tree>, s: Step)
    requires AtMostOne(a, s) && |a| == |b| && forall i :: 0 <= i < |a| ==> a[i].id == b[i].id
    ensures AtMostOne(b, s)
  {
  }

  lemma {:induction false} BothDescend(t: Tree, p: Path, a: seq<Tree>, ra: nat, q: Path, b: seq<Tree>, rb: nat,
                                       steps: set<Step>)
    requires ra != rb && p != [] && q != [] && StepsIn(p[1..], steps) && StepsIn(q[1..], steps)
    requires Find(t, p).Some? && Find(t, q).Some?
    requires Find(InsertAt(t, p, a, ra), q).Some? && Unambiguous(InsertAt(InsertAt(t, p, a, ra), q, b, rb), steps)
    ensures Find(InsertAt(t, q, b, rb), p).Some?
    ensures InsertAt(InsertAt(t, q, b, rb), p, a, ra) == InsertAt(InsertAt(t, p, a, ra), q, b, rb)
    decreases |p|, |q|, 0
  {
    hide Unambiguous, StepsIn, Place, Contribution, FirstMatch;
    var ta, tb := InsertAt(t, p, a, ra), InsertAt(t, q, b, rb);
    var i, k := FirstMatch(t.children, p[0]), FirstMatch(t.children, q[0]);
    FirstMatchSame(t.children, ta.children, q[0]);
    FirstMatchSame(t.children, tb.children, p[0]);
    if i == k {
      ChildUnambiguous(InsertAt(ta, q, b, rb), steps, k);
      InsertionsCommute(t.children[i], p[1..], a, ra, q[1..], b, rb, steps);
    }
  }

  // ---- Runs

  /** Each job's target exists when it is applied. */
  ghost predicate Valid(t: Tree, run: seq<Job>)
    decreases |run|
  {
    run != [] ==> Resolvable(t, run[0]) && Valid(Apply(t, run[0]), run[1..])
  }

  /** The tree after applying the jobs of a run in order. */
  ghost function Run(t: Tree, run: seq<Job>): Tree
    requires Valid(t, run)
    decreases |run|
  {
    if run == [] then t else Run(Apply(t, run[0]), run[1..])
  }

  ghost predicate StepsOf(jobs: set<Job>, steps: set<Step>) {
    forall j :: j in jobs ==> StepsIn(j.path, steps)
  }

  /** Jobs are told apart by rank. */
  ghost predicate Ranked(jobs: set<Job>) {
    forall i, j :: i in jobs && j in jobs && i.rank == j.rank ==> i == j
  }

  lemma AppliedUnambiguous(t: Tree, j: Job, steps: set<Step>)
    requires Resolvable(t, j) && Unambiguous(Apply(t, j), steps)
    ensures Unambiguous(t, steps)
  {
    hide Unambiguous, InsertAt, Find;
    if Adds(j) {
      InsertedUnambiguous(t, j.path, j.content, j.rank, steps);
    }
  }

  /** A target that exists still exists after another augment is applied, and is the same kind of node. */
  lemma StillFound(t: Tree, j: Job, path: Path, steps: set<Step>)
    requires Resolvable(t, j) && Find(t, path).Some? && StepsIn(path, steps) && Unambiguous(Apply(t, j), steps)
    ensures Find(Apply(t, j), path).Some? && SameHead(Find(Apply(t, j), path).value, Find(t, path).value)
  {
    hide Unambiguous, InsertAt, Find, StepsIn;
    if Adds(j) {
      FoundAfterInserting(t, j.path, j.content, j.rank, path, steps);
    }
  }

  lemma {:induction false} RunUnambiguous(t: Tree, run: seq<Job>, steps: set<Step>)
    requires Valid(t, run) && Unambiguous(Run(t, run), steps)
    ensures Unambiguous(t, steps)
    decreases |run|
  {
    hide Unambiguous, Apply, Resolvable;
    if run != [] {
      RunUnambiguous(Apply(t, run[0]), run[1..], steps);
      AppliedUnambiguous(t, run[0], steps);
    }
  }

  lemma {:induction false} StillFoundAfterRun(t: Tree, run: seq<Job>, path: Path, steps: set<Step>)
    requires Valid(t, run) && Find(t, path).Some? && StepsIn(path, steps) && Unambiguous(Run(t, run), steps)
    ensures Find(Run(t, run), path).Some? && SameHead(Find(Run(t, run), path).value, Find(t, path).value)
    decreases |run|
  {
    hide Unambiguous, Apply, Resolvable, Find, StepsIn;
    if run != [] {
      RunUnambiguous(Apply(t, run[0]), run[1..], steps);
      StillFound(t, run[0], path, steps);
      StillFoundAfterRun(Apply(t, run[0]), run[1..], path, steps);
    }
  }

  /** Two augments whose targets both exist can be applied in either order. */
  lemma {:induction false} Diamond(t: Tree, i: Job, j: Job, steps: set<Step>)
    requires i.rank != j.rank && StepsIn(i.path, steps) && StepsIn(j.path, steps)
    requires Resolvable(t, i) && Resolvable(t, j) && Resolvable(Apply(t, i), j)
             && Unambiguous(Apply(Apply(t, i), j), steps)
    ensures Resolvable(Apply(t, j), i) && Apply(Apply(t, j), i) == Apply(Apply(t, i), j)
  {
    hide Unambiguous, InsertAt, Find, StepsIn;
    if Adds(i) && Adds(j) {
      InsertionsCommute(t, i.path, i.content, i.rank, j.path, j.content, j.rank, steps);
    } else if Adds(j) {
      StillFound(t, j, i.path, steps);
    }
  }

  function Without(run: seq<Job>, k: nat): seq<Job>
    requires k < |run|
  {
    run[..k] + run[k + 1..]
  }

  /** A job of a run whose target exists at the start may be moved to the front. */
  lemma {:induction false} MoveToFront(t: Tree, run: seq<Job>, k: nat, jobs: set<Job>, steps: set<Step>)
    requires Valid(t, run) && k < |run| && Resolvable(t, run[k]) && Unambiguous(Run(t, run), steps)
    requires Distinct(run) && (forall j :: j in run ==> j in jobs) && Ranked(jobs) && StepsOf(jobs, steps)
    ensures Valid(t, [run[k]] + Without(run, k)) && Run(t, [run[k]] + Without(run, k)) == Run(t, run)
    decreases k
  {
    hide Unambiguous, Apply, Resolvable, StepsIn, Ranked;
    var a := run[k];
    if k == 0 {
      assert [a] + Without(run, 0) == run;
    } else {
      var x, rest := run[0], run[1..];
      assert a == rest[k - 1] && x != a;
      RunUnambiguous(Apply(t, x), rest, steps);
      ResolvableLater(t, x, a, steps, jobs);
      MoveToFront(Apply(t, x), rest, k - 1, jobs, steps);
      var tail := Without(rest, k - 1);
      assert ([a] + tail)[0] == a && ([a] + tail)[1..] == tail;
      assert Run(t, run) == Run(Apply(Apply(t, x), a), tail);
      RunUnambiguous(Apply(Apply(t, x), a), tail, steps);
      DifferentRanks(x, a, jobs);
      Diamond(t, x, a, steps);
      assert Without(run, k) == [x] + tail;
      FrontOfRun(t, a, [x] + tail);
      FrontOfRun(Apply(t, a), x, tail);
    }
  }

  lemma DifferentRanks(i: Job, j: Job, jobs: set<Job>)
    requires Ranked(jobs) && i in jobs && j in jobs && i != j
    ensures i.rank != j.rank
  {
  }

  lemma ResolvableLater(t: Tree, x: Job, a: Job, steps: set<Step>, jobs: set<Job>)
    requires Resolvable(t, x) && Resolvable(t, a) && a in jobs && StepsOf(jobs, steps)
             && Unambiguous(Apply(t, x), steps)
    ensures Resolvable(Apply(t, x), a)
  {
    hide Unambiguous, Apply, Find;
    StillFound(t, x, a.path, steps);
  }

  lemma FrontOfRun(t: Tree, j: Job, run: seq<Job>)
    requires Resolvable(t, j)
    ensures Valid(t, [j] + run) <==> Valid(Apply(t, j), run)
    ensures Valid(Apply(t, j), run) ==> Run(t, [j] + run) == Run(Apply(t, j), run)
  {
    assert ([j] + run)[1..] == run;
  }

  /** A run of some of the jobs after which no other job's target exists. */
  ghost predicate Maximal(t: Tree, run: seq<Job>, jobs: set<Job>) {
    && Valid(t, run) && Distinct(run) && (forall j :: j in run ==> j in jobs)
    && forall j :: j in jobs && j !in run ==> !Resolvable(Run(t, run), j)
  }

  /**
   Any two maximal runs apply the same jobs and end in the same tree, as soon as one of
   those trees leaves no step of the jobs' paths ambiguous.
   */
  lemma {:induction false} Confluence(t: Tree, a: seq<Job>, b: seq<Job>, jobs: set<Job>, steps: set<Step>)
    requires Maximal(t, a, jobs) && Maximal(t, b, jobs) && Ranked(jobs) && StepsOf(jobs, steps)
    requires Unambiguous(Run(t, a), steps)
    ensures Run(t, b) == Run(t, a)
    ensures forall j :: j in a <==> j in b
    decreases |b|
  {
    hide Unambiguous, Apply, Resolvable, StepsIn, Ranked;
    if b == [] {
      if a != [] {
        assert a[0] in a;
      }
    } else {
      var x := b[0];
      assert x in b;
      if x !in a {
        ResolvableAfterRun(t, a, x, jobs, steps);
      }
      var k :| 0 <= k < |a| && a[k] == x;
      MoveToFront(t, a, k, jobs, steps);
      FrontOfRun(t, x, Without(a, k));
      WithoutHolds(a, k);
      RestMaximal(t, x, Without(a, k), a, jobs);
      assert [x] + b[1..] == b;
      RestMaximal(t, x, b[1..], b, jobs);
      RankedSubset(jobs, x, steps);
      Confluence(Apply(t, x), Without(a, k), b[1..], jobs - {x}, steps);
    }
  }

  lemma ResolvableAfterRun(t: Tree, run: seq<Job>, j: Job, jobs: set<Job>, steps: set<Step>)
    requires Valid(t, run) && Unambiguous(Run(t, run), steps) && Resolvable(t, j) && j in jobs && StepsOf(jobs, steps)
    ensures Resolvable(Run(t, run), j)
  {
    hide Unambiguous, Find;
    StillFoundAfterRun(t, run, j.path, steps);
  }

  lemma WithoutHolds(run: seq<Job>, k: nat)
    requires k < |run| && Distinct(run)
    ensures Distinct(Without(run, k)) && run[k] !in Without(run, k)
    ensures forall j :: j in run <==> j == run[k] || j in Without(run, k)
  {
    assert run == run[..k] + [run[k]] + run[k + 1..];
  }

  lemma RankedSubset(jobs: set<Job>, x: Job, steps: set<Step>)
    requires Ranked(jobs) && StepsOf(jobs, steps)
    ensures Ranked(jobs - {x}) && StepsOf(jobs - {x}, steps)
  {
  }

  /** What follows the first job of a maximal run is maximal for the other jobs. */
  lemma {:induction false} RestMaximal(t: Tree, x: Job, rest: seq<Job>, run: seq<Job>, jobs: set<Job>)
    requires Maximal(t, run, jobs) && Resolvable(t, x) && Valid(t, [x] + rest) && Run(t, [x] + rest) == Run(t, run)
    requires Distinct(rest) && x !in rest && forall j :: j in run <==> j == x || j in rest
    ensures Maximal(Apply(t, x), rest, jobs - {x})
    ensures Run(Apply(t, x), rest) == Run(t, run)
  {
    hide Apply, Resolvable;
    FrontOfRun(t, x, rest);
  }

  // ---- The loop over pending augments

  lemma {:induction false} RunsInTurn(t: Tree, a: seq<Job>, b: seq<Job>)
    requires Valid(t, a) && Valid(Run(t, a), b)
    ensures Valid(t, a + b) && Run(t, a + b) == Run(Run(t, a), b)
    decreases |a|
  {
    hide Apply, Resolvable;
    if a == [] {
      assert a + b == b;
    } else {
      RunsInTurn(Apply(t, a[0]), a[1..], b);
      assert a + b == [a[0]] + (a[1..] + b);
      FrontOfRun(t, a[0], a[1..] + b);
    }
  }

  lemma OneMoreJob(t: Tree, run: seq<Job>, j: Job)
    requires Valid(t, run) && Resolvable(Run(t, run), j)
    ensures Valid(t, run + [j]) && Run(t, run + [j]) == Apply(Run(t, run), j)
  {
    hide Apply, Resolvable;
    FrontOfRun(Run(t, run), j, []);
    assert [j] + [] == [j];
    RunsInTurn(t, run, [j]);
  }

  /** The jobs of all are those of a and those of b, each once. */
  ghost predicate Divides(all: seq<Job>, a: seq<Job>, b: seq<Job>) {
    && Distinct(all) && Distinct(a) && Distinct(b) && |a| + |b| == |all|
    && (forall j :: j in all <==> j in a || j in b)
    && (forall j :: j in a ==> j !in b)
  }

  lemma DivideNext(all: seq<Job>, i: nat, a: seq<Job>, b: seq<Job>)
    requires Distinct(all) && i < |all| && Divides(all[..i], a, b)
    ensures Divides(all[..i + 1], a + [all[i]], b) && Divides(all[..i + 1], a, b + [all[i]])
  {
    var prefix, j := all[..i], all[i];
    assert all[..i + 1] == prefix + [j];
    assert j !in prefix;
  }

  lemma DivideAgain(all: seq<Job>, a: seq<Job>, b: seq<Job>, c: seq<Job>, d: seq<Job>)
    requires Divides(all, a, b) && Divides(b, c, d)
    ensures Divides(all, a + c, d)
  {
    forall i, j | 0 <= i < j < |a + c|
      ensures (a + c)[i] != (a + c)[j]
    {
      if i < |a| <= j {
        assert c[j - |a|] in b;
      }
    }
  }

  /** What a scan or a series of scans leaves: the tree, the jobs applied in order, and the jobs still pending. */
  datatype Scanned = Scanned(tree: Tree, applied: seq<Job>, rest: seq<Job>)

  /** One scan of the pending jobs in the order given. */
  function Scan(t: Tree, pending: seq<Job>): (r: Scanned)
    ensures |r.applied| + |r.rest| == |pending|
    ensures r.applied == [] ==> r.tree == t && r.rest == pending
    decreases pending
  {
    if pending == [] then Scanned(t, [], [])
    else if Resolvable(t, pending[0]) then
      var r := Scan(Apply(t, pending[0]), pending[1..]);
      r.(applied := [pending[0]] + r.applied)
    else
      var r := Scan(t, pending[1..]);
      r.(rest := [pending[0]] + r.rest)
  }

  /** Scans until one applies nothing. */
  function Settle(t: Tree, pending: seq<Job>): (r: Scanned)
    decreases |pending|
  {
    var s := Scan(t, pending);
    if s.applied == [] then Scanned(t, [], pending)
    else
      var r := Settle(s.tree, s.rest);
      r.(applied := s.applied + r.applied)
  }

  /** A scan that has got as far as tree, with these jobs applied and left. */
  ghost predicate Scanning(whole: Scanned, tree: Tree, applied: seq<Job>, rest: seq<Job>, ahead: seq<Job>) {
    var r := Scan(tree, ahead);
    whole == Scanned(r.tree, applied + r.applied, rest + r.rest)
  }

  lemma ScanNext(whole: Scanned, tree: Tree, applied: seq<Job>, rest: seq<Job>, ahead: seq<Job>)
    requires ahead != [] && Scanning(whole, tree, applied, rest, ahead)
    ensures Resolvable(tree, ahead[0]) ==>
            Scanning(whole, Apply(tree, ahead[0]), applied + [ahead[0]], rest, ahead[1..])
    ensures !Resolvable(tree, ahead[0]) ==> Scanning(whole, tree, applied, rest + [ahead[0]], ahead[1..])
  {
    hide Apply, Resolvable;
    var j := ahead[0];
    if Resolvable(tree, j) {
      var r := Scan(Apply(tree, j), ahead[1..]);
      assert applied + ([j] + r.applied) == applied + [j] + r.applied;
    } else {
      var r := Scan(tree, ahead[1..]);
      assert rest + ([j] + r.rest) == rest + [j] + r.rest;
    }
  }

  lemma ScanBegins(tree: Tree, pending: seq<Job>)
    ensures Scanning(Scan(tree, pending), tree, [], [], pending)
  {
    var r := Scan(tree, pending);
    assert [] + r.applied == r.applied && [] + r.rest == r.rest;
  }

  lemma ScanEnds(whole: Scanned, tree: Tree, applied: seq<Job>, rest: seq<Job>)
    requires Scanning(whole, tree, applied, rest, [])
    ensures whole == Scanned(tree, applied, rest)
  {
    assert applied + [] == applied && rest + [] == rest;
  }

  lemma SettleNext(t: Tree, pending: seq<Job>)
    ensures var s := Scan(t, pending);
            Settle(t, pending) == if s.applied == [] then Scanned(t, [], pending)
                                  else Settle(s.tree, s.rest).(applied := s.applied + Settle(s.tree, s.rest).applied)
  {
    hide Scan;
  }

  class Schema {
    var tree: Tree

    constructor (tree: Tree)
      ensures this.tree == tree
    {
      this.tree := tree;
    }

    /** Applies, in the order given, each pending augment whose target resolves; returns the others. */
    method ApplyResolvableAugments(pending: seq<Job>) returns (rest: seq<Job>, progress: bool, ghost applied: seq<Job>)
      requires Distinct(pending)
      modifies this
      ensures Valid(old(tree), applied) && tree == Run(old(tree), applied)
      ensures Divides(pending, applied, rest)
      ensures progress <==> applied != []
      ensures progress ==> |rest| < |pending|
      ensures !progress ==> tree == old(tree) && forall j :: j in rest ==> !Resolvable(tree, j)
      ensures Scan(old(tree), pending) == Scanned(tree, applied, rest)
    {
      hide Apply, Resolvable, Valid, Run, Scan, Scanning;
      progress, rest, applied := false, [], [];
      NothingRun(tree);
      ghost var whole := Scan(tree, pending);
      ScanBegins(tree, pending);
      assert pending[0..] == pending;
      var i := 0;
      while i < |pending|
        invariant 0 <= i <= |pending|
        invariant Valid(old(tree), applied) && tree == Run(old(tree), applied)
        invariant Divides(pending[..i], applied, rest)
        invariant progress <==> applied != []
        invariant !progress ==> tree == old(tree) && forall j :: j in rest ==> !Resolvable(tree, j)
        invariant Scanning(whole, tree, applied, rest, pending[i..])
      {
        var job := pending[i];
        assert pending[i..][0] == job && pending[i..][1..] == pending[i + 1..];
        ScanNext(whole, tree, applied, rest, pending[i..]);
        DivideNext(pending, i, applied, rest);
        if Resolvable(tree, job) {
          progress := true;
          OneMoreJob(old(tree), applied, job);
          applied := applied + [job];
          tree := Apply(tree, job);
        } else {
          rest := rest + [job];
        }
        i := i + 1;
      }
      assert pending[..i] == pending && pending[i..] == [];
      ScanEnds(whole, tree, applied, rest);
    }

    /**
     Retries the pending augments until none resolves.  run is the order in which they
     were applied; pending holds those whose target never existed.
     */
    method ApplyAugments(jobs: seq<Job>) returns (pending: seq<Job>, ghost run: seq<Job>)
      requires Distinct(jobs)
      modifies this
      ensures Divides(jobs, run, pending)
      ensures Maximal(old(tree), run, set j | j in jobs) && tree == Run(old(tree), run)
      ensures Settle(old(tree), jobs) == Scanned(tree, run, pending)
    {
      hide Apply, Resolvable, Valid, Run, Scan, Settle;
      pending, run := jobs, [];
      NothingRun(tree);
      SettleNothing(tree);
      assert [] + Settle(tree, jobs).applied == Settle(tree, jobs).applied;
      while |pending| > 0
        invariant Valid(old(tree), run) && tree == Run(old(tree), run) && Divides(jobs, run, pending)
        invariant Settling(Settle(old(tree), jobs), tree, run, pending)
        decreases |pending|
      {
        ghost var before := run;
        SettleNext(tree, pending);
        var rest, progress, applied := ApplyResolvableAugments(pending);
        RunsInTurn(old(tree), before, applied);
        DivideAgain(jobs, before, pending, applied, rest);
        run := before + applied;
        pending := rest;
        if !progress {
          assert before + [] == before && Settling(Settle(old(tree), jobs), tree, run, pending);
          break;
        }
        assert before + (applied + Settle(tree, rest).applied) == before + applied + Settle(tree, rest).applied;
      }
      assert pending == [] || Scan(tree, pending).applied == [];
      SettleNext(tree, pending);
      assert run + [] == run;
    }
  }

  /** Scans that have got as far as tree, with these jobs applied and these pending. */
  ghost predicate Settling(whole: Scanned, tree: Tree, run: seq<Job>, pending: seq<Job>) {
    var r := Settle(tree, pending);
    whole == r.(applied := run + r.applied)
  }

  lemma SettleNothing(t: Tree)
    ensures Settle(t, []) == Scanned(t, [], [])
  {
  }

  lemma NothingRun(t: Tree)
    ensures Valid(t, []) && Run(t, []) == t
  {
  }

  /**
   The loop gives the same tree and leaves the same augments unresolved whatever order
   the augments are listed in, if the first outcome leaves no path step ambiguous.
   */
  method AugmentsInAnyOrder(t: Tree, jobs: seq<Job>, jobs': seq<Job>, ghost steps: set<Step>)
    returns (t1: Tree, t2: Tree, pending1: seq<Job>, pending2: seq<Job>)
    requires Distinct(jobs) && Distinct(jobs') && (forall j :: j in jobs <==> j in jobs')
    requires Ranked(set j | j in jobs) && StepsOf((set j | j in jobs), steps)
    ensures Unambiguous(t1, steps) ==> t1 == t2 && forall j :: j in pending1 <==> j in pending2
  {
    hide Unambiguous, Apply, Resolvable, Run, Valid, Ranked, StepsIn;
    var s1 := new Schema(t);
    ghost var run1;
    pending1, run1 := s1.ApplyAugments(jobs);
    t1 := s1.tree;
    var s2 := new Schema(t);
    ghost var run2;
    pending2, run2 := s2.ApplyAugments(jobs');
    t2 := s2.tree;
    assert (set j | j in jobs) == (set j | j in jobs');
    if Unambiguous(t1, steps) {
      Confluence(t, run1, run2, (set j | j in jobs), steps);
    }
  }
}
