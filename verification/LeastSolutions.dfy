/**
 Definitions that may refer to one another, in cycles even: what they determine is
 found by applying them in rounds, starting from nothing.
 */
module LeastSolutions {
  import opened Common

  /** b has every value a has. */
  ghost predicate Agrees<K, V>(a: map<K, V>, b: map<K, V>) {
    forall k :: k in a ==> k in b && b[k] == a[k]
  }

  /** Knowing more never changes a value already given. */
  ghost predicate Monotone<K(!new), V(!new)>(define: (K, map<K, V>) -> Option<V>) {
    forall k, a, b :: Agrees(a, b) && define(k, a).Some? ==> define(k, b) == define(k, a)
  }

  /** The values given within n rounds. */
  function Round<K, V>(keys: set<K>, define: (K, map<K, V>) -> Option<V>, n: nat): map<K, V> {
    if n == 0 then map[]
    else
      var before := Round(keys, define, n - 1);
      map k | k in keys && define(k, before).Some? :: define(k, before).value
  }

  /** What the definitions determine. */
  function Solution<K, V>(keys: set<K>, define: (K, map<K, V>) -> Option<V>): map<K, V> {
    Round(keys, define, |keys|)
  }

  lemma {:induction false} RoundsGrow<K(!new), V(!new)>(keys: set<K>, define: (K, map<K, V>) -> Option<V>, n: nat)
    requires Monotone(define)
    ensures Agrees(Round(keys, define, n), Round(keys, define, n + 1))
  {
    if n > 0 {
      RoundsGrow(keys, define, n - 1);
    }
  }

  lemma {:induction false} RoundsGrowFrom<K(!new), V(!new)>(keys: set<K>, define: (K, map<K, V>) -> Option<V>, m: nat,
                                                            n: nat)
    requires Monotone(define) && m <= n
    ensures Agrees(Round(keys, define, m), Round(keys, define, n))
    decreases n - m
  {
    hide Round;
    if m < n {
      RoundsGrow(keys, define, m);
      RoundsGrowFrom(keys, define, m + 1, n);
    }
  }

  lemma RoundInside<K, V>(keys: set<K>, define: (K, map<K, V>) -> Option<V>, n: nat)
    ensures Round(keys, define, n).Keys <= keys
  {
  }

  /** Equal rounds have equal successors. */
  lemma NextRoundSame<K, V>(keys: set<K>, define: (K, map<K, V>) -> Option<V>, n: nat)
    requires n > 0 && Round(keys, define, n - 1) == Round(keys, define, n)
    ensures Round(keys, define, n) == Round(keys, define, n + 1)
  {
  }

  lemma SameKeysSame<K, V>(a: map<K, V>, b: map<K, V>)
    requires Agrees(a, b)
    ensures a.Keys <= b.Keys && (a.Keys == b.Keys ==> a == b)
  {
  }

  lemma SubsetSmaller<T>(a: set<T>, b: set<T>)
    requires a <= b
    ensures |a| <= |b|
    ensures a != b ==> |a| < |b|
  {
    assert b == a + (b - a);
    if a != b {
      assert b - a != {};
    }
  }

  /** After n rounds either at least n keys have a value or the last round added nothing. */
  lemma {:induction false} RoundsFillUp<K(!new), V(!new)>(keys: set<K>, define: (K, map<K, V>) -> Option<V>, n: nat)
    requires Monotone(define)
    ensures |Round(keys, define, n).Keys| >= n || Round(keys, define, n) == Round(keys, define, n + 1)
  {
    hide Round;
    if n > 0 {
      RoundsFillUp(keys, define, n - 1);
      RoundsGrow(keys, define, n - 1);
      var a, b := Round(keys, define, n - 1), Round(keys, define, n);
      if a == b {
        NextRoundSame(keys, define, n);
      } else {
        SameKeysSame(a, b);
        SubsetSmaller(a.Keys, b.Keys);
      }
    }
  }

  lemma SolutionIsStable<K(!new), V(!new)>(keys: set<K>, define: (K, map<K, V>) -> Option<V>)
    requires Monotone(define)
    ensures Round(keys, define, |keys| + 1) == Solution(keys, define)
  {
    hide Round;
    var n := |keys|;
    RoundsFillUp(keys, define, n);
    RoundsFillUp(keys, define, n + 1);
    RoundsGrow(keys, define, n);
    RoundInside(keys, define, n);
    RoundInside(keys, define, n + 1);
    var a, b := Round(keys, define, n), Round(keys, define, n + 1);
    SameKeysSame(a, b);
    SubsetSmaller(a.Keys, b.Keys);
    SubsetSmaller(a.Keys, keys);
    SubsetSmaller(b.Keys, keys);
  }

  /** The solution satisfies the definitions. */
  lemma SolutionSolves<K(!new), V(!new)>(keys: set<K>, define: (K, map<K, V>) -> Option<V>)
    requires Monotone(define)
    ensures Solution(keys, define).Keys <= keys
    ensures forall k :: k in keys ==>
              define(k, Solution(keys, define)) ==
                if k in Solution(keys, define) then Some(Solution(keys, define)[k]) else None
  {
    hide Monotone;
    SolutionIsStable(keys, define);
    RoundInside(keys, define, |keys|);
    var a, b := Round(keys, define, |keys|), Round(keys, define, |keys| + 1);
    forall k | k in keys
      ensures define(k, a) == if k in a then Some(a[k]) else None
    {
      assert k in b <==> define(k, a).Some?;
    }
  }

  /** It is the least solution: every solution has all its values. */
  lemma {:induction false} RoundsAreLeast<K(!new), V(!new)>(keys: set<K>, define: (K, map<K, V>) -> Option<V>, n: nat,
                                                            solution: map<K, V>)
    requires Monotone(define)
    requires forall k :: k in keys ==>
             (define(k, solution).Some? ==> k in solution && Some(solution[k]) == define(k, solution))
    ensures Agrees(Round(keys, define, n), solution)
  {
    if n > 0 {
      RoundsAreLeast(keys, define, n - 1, solution);
    }
  }

  lemma RoundsInSolution<K(!new), V(!new)>(keys: set<K>, define: (K, map<K, V>) -> Option<V>, n: nat)
    requires Monotone(define)
    ensures Agrees(Round(keys, define, n), Solution(keys, define))
  {
    hide Round, Monotone;
    SolutionSolves(keys, define);
    RoundsAreLeast(keys, define, n, Solution(keys, define));
  }

  /** The round in which a key first gets its value. */
  lemma {:induction false} FirstRound<K(!new), V(!new)>(keys: set<K>, define: (K, map<K, V>) -> Option<V>, k: K, n: nat)
    returns (m: nat)
    requires Monotone(define) && k in Round(keys, define, n)
    ensures m < n && k !in Round(keys, define, m) && k in Round(keys, define, m + 1)
    ensures Round(keys, define, m + 1)[k] == Round(keys, define, n)[k]
  {
    if k in Round(keys, define, n - 1) {
      RoundsGrow(keys, define, n - 1);
      m := FirstRound(keys, define, k, n - 1);
    } else {
      m := n - 1;
    }
  }
}
