/** Which modules become implemented by a schema rebuild, and when the rebuild has to be repeated. */
module Rebuilds {
  import opened Common

  type ModuleId = nat

  datatype Keyword = Augment | Deviation

  /**
   A top-level augment or deviation: whether its if-features hold, and the module each prefix in its path resolves
   to.
   */
  datatype Amendment = Amendment(keyword: Keyword, included: bool, steps: seq<Option<ModuleId>>)

  datatype ModuleData = ModuleData(hasSource: bool, amendments: seq<Amendment>)

  datatype RebuildError = ContextClosed | LimitExceeded | SchemaInvalid(reason: nat)

  /**
   What the phases of a rebuild that are not modelled do, as functions of the implemented
   modules they start from: errors before augments are applied and after, modules implemented
   later on (such as those a leafref path names), and running out of the node budget.
   */
  datatype Phases = Phases(
    earlyError: set<ModuleId> -> Option<RebuildError>,
    implementsLater: set<ModuleId> -> set<ModuleId>,
    lateError: set<ModuleId> -> Option<RebuildError>,
    limitExceeded: set<ModuleId> -> bool)

  class Context {
    const modules: map<ModuleId, ModuleData>
    const loadOrder: seq<ModuleId>
    const ignoreDeviations: bool
    const phases: Phases
    var implemented: set<ModuleId>
    var dirty: bool
    var closed: bool
    // The modules that were implemented when augments and deviations were last applied.
    ghost var appliedWith: set<ModuleId>

    constructor (modules: map<ModuleId, ModuleData>, loadOrder: seq<ModuleId>, ignoreDeviations: bool, phases: Phases,
                 implemented: set<ModuleId>)
      requires Distinct(loadOrder) && forall m :: m in loadOrder <==> m in modules
      ensures Valid() && this.implemented == implemented && dirty && !closed
    {
      this.modules, this.loadOrder, this.ignoreDeviations, this.phases := modules, loadOrder, ignoreDeviations, phases;
      this.implemented, dirty, closed, appliedWith := implemented, true, false, {};
    }

    ghost predicate Valid()
      reads this
    {
      Distinct(loadOrder) && forall m :: m in loadOrder <==> m in modules
    }

    /** An amendment that counts. */
    predicate Considered(a: Amendment) { a.included && !(a.keyword.Deviation? && ignoreDeviations) }

    /** Some prefix in an amendment of m stands for n. */
    ghost predicate Names(m: ModuleId, n: ModuleId) {
      && m in modules && modules[m].hasSource
      && exists a, s :: a in modules[m].amendments && Considered(a) && s in a.steps && s == Some(n)
    }

    /** Whatever the amendments of modules in s name is in s. */
    ghost predicate Closed(s: set<ModuleId>) { forall m, n :: m in s && Names(m, n) ==> n in s }

    ghost predicate InEveryClosure(from: set<ModuleId>, s: set<ModuleId>) {
      forall other :: from <= other && Closed(other) ==> s <= other
    }

    ghost predicate LeastClosure(from: set<ModuleId>, s: set<ModuleId>) {
      from <= s && Closed(s) && InEveryClosure(from, s)
    }

    ghost function AllNamed(): set<ModuleId> {
      set m, a, s | m in modules && a in modules[m].amendments && s in a.steps && s.Some? :: s.value
    }

    method MarkImplemented(m: ModuleId)
      modifies this`implemented
      ensures implemented == old(implemented) + {m}
    {
      if m in implemented {
        return;
      }
      implemented := implemented + {m};
    }

    /** Implements what m's amendments name. */
    method ImplementNamedBy(m: ModuleId) returns (changed: bool)
      requires Valid() && m in modules && modules[m].hasSource && m in implemented
      modifies this`implemented
      ensures old(implemented) <= implemented && (changed <==> implemented != old(implemented))
      ensures forall n :: Names(m, n) ==> n in implemented
      ensures forall n :: n in implemented ==> n in old(implemented) || Names(m, n)
    {
      changed := false;
      var amendments := modules[m].amendments;
      var i := 0;
      while i < |amendments|
        invariant 0 <= i <= |amendments|
        invariant old(implemented) <= implemented && (changed <==> implemented != old(implemented))
        invariant forall j, s :: 0 <= j < i && Considered(amendments[j]) && s in amendments[j].steps && s.Some? ==>
                  s.value in implemented
        invariant forall n :: n in implemented ==> n in old(implemented) || Names(m, n)
      {
        var a := amendments[i];
        if Considered(a) {
          var k := 0;
          while k < |a.steps|
            invariant 0 <= k <= |a.steps|
            invariant old(implemented) <= implemented && (changed <==> implemented != old(implemented))
            invariant forall j, s :: 0 <= j < i && Considered(amendments[j]) && s in amendments[j].steps && s.Some? ==>
                      s.value in implemented
            invariant forall j :: 0 <= j < k && a.steps[j].Some? ==> a.steps[j].value in implemented
            invariant forall n :: n in implemented ==> n in old(implemented) || Names(m, n)
          {
            var step := a.steps[k];
            if step.Some? && step.value !in implemented {
              assert a in modules[m].amendments && step in a.steps;
              MarkImplemented(step.value);
              changed := true;
            }
            k := k + 1;
          }
        }
        i := i + 1;
      }
    }

    /** Implements every module that an implemented module's amendments name, and no other. */
    method ImplementAmendmentTargets()
      requires Valid()
      modifies this`implemented
      ensures LeastClosure(old(implemented), implemented)
    {
      hide Names, Closed, AllNamed, InEveryClosure;
      var changed := true;
      InEveryItself(implemented);
      while changed
        invariant old(implemented) <= implemented && InEveryClosure(old(implemented), implemented)
        invariant !changed ==> Closed(implemented)
        decreases |AllNamed() - implemented|, changed
      {
        changed := false;
        ghost var before := implemented;
        var i := 0;
        while i < |loadOrder|
          invariant 0 <= i <= |loadOrder|
          invariant before <= implemented && (changed <==> implemented != before)
          invariant implemented <= before + AllNamed() && InEveryClosure(old(implemented), implemented)
          invariant !changed ==> forall j, n :: 0 <= j < i && loadOrder[j] in implemented && Names(loadOrder[j], n) ==>
                    n in implemented
        {
          var m := loadOrder[i];
          if modules[m].hasSource && m in implemented {
            ghost var previous := implemented;
            var more := ImplementNamedBy(m);
            NamedInEvery(old(implemented), previous, implemented, m);
            changed := changed || more;
          } else if !modules[m].hasSource {
            NoSourceNamesNothing(m);
          }
          i := i + 1;
        }
        if changed {
          MeasureShrinks(AllNamed(), before, implemented);
        } else {
          NothingNamedMissing();
        }
      }
    }

    lemma InEveryItself(s: set<ModuleId>)
      ensures InEveryClosure(s, s)
    {
    }

    lemma NoSourceNamesNothing(m: ModuleId)
      requires m in modules && !modules[m].hasSource
      ensures forall n :: !Names(m, n)
    {
    }

    lemma NamedInEvery(from: set<ModuleId>, s: set<ModuleId>, more: set<ModuleId>, m: ModuleId)
      requires InEveryClosure(from, s) && m in s && forall n :: n in more ==> n in s || Names(m, n)
      ensures InEveryClosure(from, more) && more <= s + AllNamed()
    {
      hide Names, AllNamed;
      forall n | n in more && n !in s
        ensures n in AllNamed()
      {
        NamedIsNamed(m, n);
      }
    }

    lemma NamedIsNamed(m: ModuleId, n: ModuleId)
      requires Names(m, n)
      ensures n in AllNamed()
    {
      var a, s :| a in modules[m].amendments && Considered(a) && s in a.steps && s == Some(n);
      assert m in modules && a in modules[m].amendments && s in a.steps && s.Some?;
    }

    lemma NothingNamedMissing()
      requires Valid()
      requires forall j, n :: 0 <= j < |loadOrder| && loadOrder[j] in implemented && Names(loadOrder[j], n) ==>
               n in implemented
      ensures Closed(implemented)
    {
      forall m, n | m in implemented && Names(m, n)
        ensures n in implemented
      {
        assert m in loadOrder;
        var j :| 0 <= j < |loadOrder| && loadOrder[j] == m;
      }
    }

    /** The modules of s that declare an augment or a deviation. */
    ghost function Amending(s: set<ModuleId>): set<ModuleId> {
      set m | m in modules && m in s && modules[m].amendments != []
    }

    method ImplementedAmendingModules() returns (count: nat)
      requires Valid()
      ensures count == |Amending(implemented)|
    {
      hide Amending;
      count := 0;
      var i := 0;
      ghost var counted: set<ModuleId> := {};
      while i < |loadOrder|
        invariant 0 <= i <= |loadOrder| && count == |counted|
        invariant counted == set m | m in loadOrder[..i] && m in implemented && modules[m].amendments != []
      {
        var m := loadOrder[i];
        CountedNext(i, counted);
        if m in implemented && |modules[m].amendments| > 0 {
          count := count + 1;
          counted := counted + {m};
        }
        i := i + 1;
      }
      assert loadOrder[..i] == loadOrder;
      CountedAll(counted);
    }

    lemma CountedNext(i: nat, counted: set<ModuleId>)
      requires Valid() && i < |loadOrder|
      requires counted == set m | m in loadOrder[..i] && m in implemented && modules[m].amendments != []
      ensures loadOrder[i] !in counted
      ensures (set m | m in loadOrder[..i + 1] && m in implemented && modules[m].amendments != []) ==
                counted +
                if loadOrder[i] in implemented && modules[loadOrder[i]].amendments != [] then {loadOrder[i]} else {}
    {
      assert loadOrder[..i + 1] == loadOrder[..i] + [loadOrder[i]];
    }

    lemma CountedAll(counted: set<ModuleId>)
      requires Valid() && counted == set m | m in loadOrder && m in implemented && modules[m].amendments != []
      ensures counted == Amending(implemented)
    {
    }

    /**
     One rebuild.  amending is the number of implemented modules with augments or deviations when
     those were applied, or -1 if it failed before; running out of budget overrides any other error.
     */
    method Rebuild() returns (amending: int, err: Option<RebuildError>)
      requires Valid() && !closed
      modifies this`implemented, this`dirty, this`appliedWith
      ensures amending == -1 || amending >= 0
      ensures amending == -1 ==> err.Some? && implemented == old(implemented)
      ensures amending >= 0 ==>
                && LeastClosure(old(implemented), appliedWith) && amending == |Amending(appliedWith)|
                && implemented == appliedWith + phases.implementsLater(appliedWith)
                && err == if phases.limitExceeded(appliedWith) then Some(LimitExceeded)
                  else phases.lateError(appliedWith)
      ensures old(dirty) ==> dirty
      ensures err.None? ==> dirty == old(dirty)
    {
      var early := phases.earlyError(implemented);
      if early.Some? {
        err := EndRebuild(phases.limitExceeded(implemented), early);
        return -1, err;
      }
      ImplementAmendmentTargets();
      amending := ImplementedAmendingModules();
      appliedWith := implemented;
      var applied := implemented;
      implemented := implemented + phases.implementsLater(applied);
      err := EndRebuild(phases.limitExceeded(applied), phases.lateError(applied));
    }

    method EndRebuild(limited: bool, err: Option<RebuildError>) returns (r: Option<RebuildError>)
      modifies this`dirty
      ensures r == if limited then Some(LimitExceeded) else err
      ensures dirty == (old(dirty) || limited)
    {
      if limited {
        dirty := true;
        return Some(LimitExceeded);
      }
      r := err;
    }

    lemma AmendingMonotone(a: set<ModuleId>, b: set<ModuleId>)
      requires a <= b
      ensures Amending(a) <= Amending(b) && |Amending(a)| <= |Amending(b)| <= |modules.Keys|
      ensures |Amending(a)| == |Amending(b)| ==> Amending(a) == Amending(b)
    {
      SubsetSize(Amending(a), Amending(b));
      SubsetSize(Amending(b), modules.Keys);
    }

    /** If all amending modules in s were there when s was closed, s is closed. */
    lemma StillClosed(a: set<ModuleId>, s: set<ModuleId>)
      requires a <= s && Closed(a) && Amending(s) == Amending(a)
      ensures Closed(s)
    {
      forall m, n | m in s && Names(m, n)
        ensures n in s
      {
        assert m in Amending(s);
      }
    }

    /**
     Rebuilds until no module with augments or deviations became implemented after they were
     applied.  Without an error all implemented amending modules took part in the last rebuild,
     and all modules their paths name are implemented.
     */
    method RebuildIfDirty() returns (err: Option<RebuildError>)
      requires Valid()
      modifies this`implemented, this`dirty, this`appliedWith
      ensures closed ==> err == Some(ContextClosed) && implemented == old(implemented) && dirty == old(dirty)
      ensures !closed && !old(dirty) ==> err.None? && implemented == old(implemented) && !dirty
      ensures !closed && old(dirty) ==> (dirty <==> err.Some?)
      ensures old(implemented) <= implemented
      ensures !closed && old(dirty) && err.None? ==>
                Amending(implemented) == Amending(appliedWith) && appliedWith <= implemented && Closed(implemented)
    {
      hide Amending, LeastClosure;
      if closed {
        return Some(ContextClosed);
      }
      if !dirty {
        return None;
      }
      while true
        invariant Valid() && old(implemented) <= implemented && dirty
        decreases |modules.Keys| - |Amending(implemented)|
      {
        ghost var before := implemented;
        AmendingMonotone(before, before);
        var amending;
        amending, err := Rebuild();
        if amending >= 0 {
          ClosureGrows(before, appliedWith);
          AmendingMonotone(before, appliedWith);
          AmendingMonotone(appliedWith, implemented);
        }
        var count := ImplementedAmendingModules();
        if amending < 0 || count == amending {
          if err.Some? {
            return;
          }
          StillClosed(appliedWith, implemented);
          break;
        }
      }
      dirty := false;
    }

    lemma ClosureGrows(from: set<ModuleId>, s: set<ModuleId>)
      requires LeastClosure(from, s)
      ensures from <= s && Closed(s)
    {
    }
  }

  lemma SubsetSize<T>(a: set<T>, b: set<T>)
    requires a <= b
    ensures |a| <= |b| && (|a| == |b| ==> a == b)
  {
    assert b == a + (b - a);
    if |a| == |b| {
      assert |b - a| == 0;
    }
  }

  lemma MeasureShrinks(u: set<ModuleId>, before: set<ModuleId>, after: set<ModuleId>)
    requires before <= after && after != before && after <= before + u
    ensures |u - after| < |u - before|
  {
    SubsetSize(u - after, u - before);
    var x :| x in after && x !in before;
    assert x in u - before && x !in u - after;
  }

  /** What an amendment names counts if its if-features hold, and for a deviation unless deviations are ignored. */
  lemma NamedByIncluded(c: Context, m: ModuleId, n: ModuleId)
    ensures c.Names(m, n) <==>
            && m in c.modules && c.modules[m].hasSource
            && exists a, s :: a in c.modules[m].amendments && s in a.steps && a.included
                              && (c.ignoreDeviations ==> a.keyword == Augment) && s == Some(n)
  {
    if m in c.modules {
      forall a | a in c.modules[m].amendments
        ensures c.Considered(a) <==> a.included && (c.ignoreDeviations ==> a.keyword == Augment)
      {
      }
    }
  }
}
