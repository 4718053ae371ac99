/** A whole rebuild of the schema, in terms of the statements of its modules. */
module ExpansionRebuild {
  import opened Common
  import opened Expansion
  import opened ExpansionViews
  import opened ExpansionFaults
  import opened ExpansionCharges
  import opened SchemaBudget

  ghost predicate ModuleFaultless(g: Groupings, sts: seq<Stmt>) {
    forall st :: st in sts && st.included ==> TopFaultless(g, st)
  }

  ghost predicate ModulesFaultless(g: Groupings, modules: seq<seq<Stmt>>) {
    forall i :: 0 <= i < |modules| ==> ModuleFaultless(g, modules[i])
  }

  ghost predicate AugmentsFaultless(g: Groupings, augments: seq<TargetedAugment>) {
    forall i :: 0 <= i < |augments| ==> Faultless(g, augments[i].body, augments[i].target, {})
  }

  /** The grouping's own body is not at fault and passes the other checks. */
  ghost predicate GroupingFaultless(g: Groupings, body: seq<Stmt>, bodyValid: seq<Node> -> bool) {
    Faultless(g, body, Container, {}) && bodyValid(BuildChildren(g, body, Container, {}).nodes)
  }

  ghost function ModulesCharge(g: Groupings, modules: seq<seq<Stmt>>): nat {
    if modules == [] then 0 else TopCharge(g, modules[0]) + ModulesCharge(g, modules[1..])
  }

  ghost function AugmentsChargeEach(g: Groupings, augments: seq<TargetedAugment>): nat {
    if augments == [] then 0
    else AugmentCharge(g, augments[0].body, augments[0].target, {}) + AugmentsChargeEach(g, augments[1..])
  }

  /** Grouping bodies are built up to the first one at fault. */
  ghost function GroupingsCharge(g: Groupings, order: seq<seq<Stmt>>, bodyValid: seq<Node> -> bool): nat {
    if order == [] then 0
    else
      Charge(g, order[0], Container, {})
      + if GroupingFaultless(g, order[0], bodyValid) then GroupingsCharge(g, order[1..], bodyValid) else 0
  }

  lemma {:induction false} ModulesChargeLast(g: Groupings, modules: seq<seq<Stmt>>)
    requires modules != []
    ensures var n := |modules| - 1;
            ModulesCharge(g, modules) == ModulesCharge(g, modules[..n]) + TopCharge(g, modules[n])
  {
    hide TopCharge;
    if |modules| > 1 {
      ModulesChargeLast(g, modules[1..]);
      assert modules[1..][..|modules| - 2] == modules[..|modules| - 1][1..];
    }
  }

  lemma {:induction false} ModulesAdd(g: Groupings, modules: seq<seq<Stmt>>)
    ensures ModulesTally(g, modules) == Tally(ModulesCharge(g, modules), ModulesFaultless(g, modules))
  {
    hide BuildTop, TopCharge, TopFaultless, ModuleFaultless;
    if modules != [] {
      var n := |modules| - 1;
      ModulesAdd(g, modules[..n]);
      ModulesChargeLast(g, modules);
      ModuleCharge(g, modules[n]);
      ModuleIsOk(g, modules[n]);
    }
  }

  lemma ModuleIsOk(g: Groupings, sts: seq<Stmt>)
    ensures BuildTop(g, sts).ok <==> ModuleFaultless(g, sts)
  {
    ModuleOk(g, sts);
  }

  lemma {:induction false} AugmentsChargeLast(g: Groupings, augments: seq<TargetedAugment>)
    requires augments != []
    ensures var n := |augments| - 1;
            AugmentsChargeEach(g, augments) ==
            AugmentsChargeEach(g, augments[..n]) + AugmentCharge(g, augments[n].body, augments[n].target, {})
  {
    hide AugmentCharge;
    if |augments| > 1 {
      AugmentsChargeLast(g, augments[1..]);
      assert augments[1..][..|augments| - 2] == augments[..|augments| - 1][1..];
    }
  }

  lemma {:induction false} AugmentsAdd(g: Groupings, augments: seq<TargetedAugment>)
    ensures AugmentsTally(g, augments) == Tally(AugmentsChargeEach(g, augments), AugmentsFaultless(g, augments))
  {
    hide BuildAugmentChildren, AugmentCharge, Faultless;
    if augments != [] {
      var n := |augments| - 1;
      AugmentsAdd(g, augments[..n]);
      AugmentsChargeLast(g, augments);
      ChargeOfAugment(g, augments[n].body, augments[n].target, {});
      AugmentIsOk(g, augments[n]);
    }
  }

  lemma AugmentIsOk(g: Groupings, a: TargetedAugment)
    ensures BuildAugmentChildren(g, a.body, a.target, {}).ok <==> Faultless(g, a.body, a.target, {})
  {
    hide BuildChildren, Faultless;
    OkIsFaultless(g, a.body, a.target, {});
  }

  lemma {:induction false} GroupingsAdd(g: Groupings, order: seq<seq<Stmt>>, bodyValid: seq<Node> -> bool)
    ensures GroupingsTally(g, order, bodyValid) ==
            Tally(GroupingsCharge(g, order, bodyValid),
                  forall i :: 0 <= i < |order| ==> GroupingFaultless(g, order[i], bodyValid))
  {
    hide BuildChildren, Charge, Faultless;
    if order != [] {
      ChildrenCharge(g, order[0], Container, {});
      OkIsFaultless(g, order[0], Container, {});
      GroupingsAdd(g, order[1..], bodyValid);
      if GroupingFaultless(g, order[0], bodyValid) {
        assert (forall i :: 0 <= i < |order| ==> GroupingFaultless(g, order[i], bodyValid)) <==>
               forall i :: 0 <= i < |order[1..]| ==> GroupingFaultless(g, order[1..][i], bodyValid) by {
          assert forall i :: 0 < i < |order| ==> order[i] == order[1..][i - 1];
        }
      }
    }
  }

  /** What a rebuild charges: a step is reached when the ones before are not at fault. */
  ghost function RebuildCharge(g: Groupings, modules: seq<seq<Stmt>>, augments: seq<TargetedAugment>, checksPass: bool,
                               order: seq<seq<Stmt>>, bodyValid: seq<Node> -> bool): nat
  {
    ModulesCharge(g, modules) +
    if !ModulesFaultless(g, modules) then 0
    else
      AugmentsChargeEach(g, augments) +
      if AugmentsFaultless(g, augments) && checksPass then GroupingsCharge(g, order, bodyValid) else 0
  }

  /**
   A rebuild exceeds its limit exactly when its statements charge more; otherwise it fails
   exactly when one of them is at fault or a check fails, and every path of names shows in
   the built modules and augments what the statements say.
   */
  method RebuildShows(state: BuildState, modules: seq<seq<Stmt>>, augments: seq<TargetedAugment>, checksPass: bool,
                      order: seq<seq<Stmt>>, bodyValid: seq<Node> -> bool)
    returns (roots: seq<seq<Node>>, added: seq<seq<Node>>)
    modifies state
    ensures var g := state.groupings;
            && (state.limitErr <==> RebuildCharge(g, modules, augments, checksPass, order, bodyValid) > state.Limit())
            && (!state.limitErr ==>
                  (state.failed <==>
                   !(ModulesFaultless(g, modules) && AugmentsFaultless(g, augments) && checksPass
                     && forall i :: 0 <= i < |order| ==> GroupingFaultless(g, order[i], bodyValid))))
    ensures !state.limitErr ==>
              && |roots| == |modules|
              && forall i :: 0 <= i < |modules| ==> Shows(roots[i], TopView(state.groupings, modules[i]))
    ensures !state.limitErr && ModulesFaultless(state.groupings, modules) ==>
              && |added| == |augments|
              && forall i :: 0 <= i < |augments| ==>
                   Shows(added[i], AugmentBodyView(state.groupings, augments[i].body, augments[i].target, {}))
  {
    hide BuildTop, BuildAugmentChildren, Shows, TopView, AugmentBodyView, ModulesFaultless, AugmentsFaultless,
         GroupingFaultless, ModulesTally, AugmentsTally, GroupingsTally;
    roots, added := state.Rebuild(modules, augments, checksPass, order, bodyValid);
    var g := state.groupings;
    ModulesAdd(g, modules);
    AugmentsAdd(g, augments);
    GroupingsAdd(g, order, bodyValid);
    if !state.limitErr {
      forall i | 0 <= i < |modules|
        ensures Shows(roots[i], TopView(g, modules[i]))
      {
        ModuleShown(g, modules[i]);
      }
      if ModulesFaultless(g, modules) {
        forall i | 0 <= i < |augments|
          ensures Shows(added[i], AugmentBodyView(g, augments[i].body, augments[i].target, {}))
        {
          AugmentBodyShown(g, augments[i].body, augments[i].target, {});
        }
      }
    }
  }
}
