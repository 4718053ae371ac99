/** When an expansion records an error. */
module ExpansionFaults {
  import opened Common
  import opened Expansion
  import opened ExpansionViews

  // ---- Errors

  /**
   Nothing included is at fault: every uses stands where uses may, names a grouping that is
   not being expanded and is not at fault itself, and every augment in it finds its target.
   */
  ghost predicate Faultless(g: Groupings, sts: seq<Stmt>, parent: Kind, stack: set<GroupId>)
    decreases g.Keys - stack, SizeAll(sts), 1
  {
    forall st :: st in sts && st.included ==> StatementFaultless(g, sts, st, parent, stack)
  }

  ghost predicate StatementFaultless(g: Groupings, sts: seq<Stmt>, st: Stmt, parent: Kind, stack: set<GroupId>)
    requires st in sts
    decreases g.Keys - stack, SizeAll(sts), 0
  {
    SizeOfMember(sts, st);
    match st
    case NodeStmt(kind, _, _, body) => kind !in {Rpc, ModuleRoot} && Faultless(g, body, kind, stack)
    case UsesStmt(group, _, augments) => !TakesNoUses(parent) && UsesFaultless(g, group, augments, parent, stack)
  }

  ghost predicate UsesFaultless(g: Groupings, group: Option<GroupId>, augments: seq<UsesAugment>, parent: Kind,
                                stack: set<GroupId>)
    decreases g.Keys - stack, SizeAugments(augments), 2
  {
    && group.Some? && group.value in g && group.value !in stack
    && (assert group.value in g.Keys - stack; Faultless(g, g[group.value], parent, stack + {group.value}))
    && AugmentsFaultless(g, augments, ChildrenView(g, g[group.value], parent, stack + {group.value}),
                         stack + {group.value})
  }

  ghost predicate AugmentsFaultless(g: Groupings, augments: seq<UsesAugment>, v: View, stack: set<GroupId>)
    decreases g.Keys - stack, SizeAugments(augments), 0
  {
    augments != [] ==>
      && (augments[0].included ==>
            && TargetKind(v, augments[0].path).Some?
            && Faultless(g, augments[0].body, TargetKind(v, augments[0].path).value, stack))
      && AugmentsFaultless(g, augments[1..], AugmentView(g, augments[0], v, stack), stack)
  }

  lemma {:induction false} SizeOfMember(sts: seq<Stmt>, st: Stmt)
    requires st in sts
    ensures Size(st) <= SizeAll(sts)
    ensures match st
            case NodeStmt(_, _, _, body) => SizeAll(body) < SizeAll(sts)
            case UsesStmt(_, _, augments) => SizeAugments(augments) < SizeAll(sts)
  {
    if st != sts[0] {
      SizeOfMember(sts[1..], st);
    }
  }

  lemma FaultlessFirst(g: Groupings, sts: seq<Stmt>, parent: Kind, stack: set<GroupId>)
    requires sts != []
    ensures Faultless(g, sts, parent, stack) <==>
            (sts[0].included ==> OneFaultless(g, sts[0], parent, stack)) && Faultless(g, sts[1..], parent, stack)
  {
    assert forall st :: st in sts <==> st == sts[0] || st in sts[1..];
  }

  ghost predicate OneFaultless(g: Groupings, st: Stmt, parent: Kind, stack: set<GroupId>) {
    match st
    case NodeStmt(kind, _, _, body) => kind !in {Rpc, ModuleRoot} && Faultless(g, body, kind, stack)
    case UsesStmt(group, _, augments) => !TakesNoUses(parent) && UsesFaultless(g, group, augments, parent, stack)
  }

  /** An expansion records no error exactly when its statements are not at fault. */
  lemma {:induction false} OkIsFaultless(g: Groupings, sts: seq<Stmt>, parent: Kind, stack: set<GroupId>)
    ensures BuildChildren(g, sts, parent, stack).ok <==> Faultless(g, sts, parent, stack)
    decreases g.Keys - stack, SizeAll(sts), 1
  {
    hide Faultless, BuildChild, OneFaultless;
    if sts == [] {
      NothingAtFault(g, parent, stack);
    } else {
      FaultlessFirst(g, sts, parent, stack);
      ChildOk(g, sts[0], parent, stack);
      OkIsFaultless(g, sts[1..], parent, stack);
    }
  }

  lemma NothingAtFault(g: Groupings, parent: Kind, stack: set<GroupId>)
    ensures Faultless(g, [], parent, stack)
  {
  }

  lemma {:induction false} ChildOk(g: Groupings, st: Stmt, parent: Kind, stack: set<GroupId>)
    ensures BuildChild(g, st, parent, stack).ok <==> (st.included ==> OneFaultless(g, st, parent, stack))
    decreases g.Keys - stack, Size(st), 0
  {
    hide Faultless, UsesFaultless, BuildChildren, ApplyUsesAugments, BuildCases, BuildNode, ExpandUses;
    if st.included {
      NodeOk(g, st, stack);
      match st
      case NodeStmt(kind, _, _, body) =>
        OkIsFaultless(g, body, kind, stack);
        if kind.Choice? && BuildChildren(g, body, kind, stack).ok {
          CasesOk(g, body, stack);
        }
      case UsesStmt(_, _, _) =>
        if AllowsUses(parent) {
          UsesOk(g, st, parent, stack);
        }
    }
  }

  /** What is not at fault below a choice is not at fault in the cases built from it either. */
  lemma {:induction false} CasesOk(g: Groupings, sts: seq<Stmt>, stack: set<GroupId>)
    requires BuildChildren(g, sts, Choice, stack).ok
    ensures BuildCases(g, sts, stack).ok
    decreases |sts|
  {
    hide BuildNode, WithOperationIO;
    if sts != [] {
      NodeOk(g, sts[0], stack);
      CasesOk(g, sts[1..], stack);
    }
  }

  lemma NodeOk(g: Groupings, st: Stmt, stack: set<GroupId>)
    ensures st.NodeStmt? ==> (BuildNode(g, st, stack).ok <==> BuildChildren(g, st.body, st.kind, stack).ok)
    ensures st.NodeStmt? && st.kind.Choice? && BuildChoice(g, st, stack).ok ==> BuildNode(g, st, stack).ok
  {
  }

  lemma {:induction false} UsesOk(g: Groupings, st: Stmt, parent: Kind, stack: set<GroupId>)
    requires st.UsesStmt?
    ensures ExpandUses(g, st, parent, stack).ok <==> UsesFaultless(g, st.group, st.augments, parent, stack)
    decreases g.Keys - stack, SizeAugments(st.augments), 2
  {
    hide Faultless, AugmentsFaultless, BuildChildren, ApplyUsesAugments, ChildrenView;
    if st.group.Some? && st.group.value in g && st.group.value !in stack {
      var group := st.group.value;
      assert group in g.Keys - stack;
      OkIsFaultless(g, g[group], parent, stack + {group});
      ChildrenShown(g, g[group], parent, stack + {group});
      AugmentsOk(g, st.augments, BuildChildren(g, g[group], parent, stack + {group}),
                 ChildrenView(g, g[group], parent, stack + {group}), stack + {group});
    }
  }

  lemma {:induction false} AugmentsOk(g: Groupings, augments: seq<UsesAugment>, before: Built, v: View,
                                      stack: set<GroupId>)
    requires Shows(before.nodes, v)
    ensures ApplyUsesAugments(g, augments, before, stack).ok <==> before.ok && AugmentsFaultless(g, augments, v, stack)
    decreases g.Keys - stack, SizeAugments(augments), 0
  {
    hide Faultless, Shows, TargetKind, BuildChildren, AugmentView, FindRelative, AppendAt;
    if augments != [] {
      var aug := augments[0];
      TargetShown(before.nodes, v, aug.path);
      AugmentShown(g, aug, before, v, stack);
      if TargetKind(v, aug.path).Some? {
        OkIsFaultless(g, aug.body, TargetKind(v, aug.path).value, stack);
      }
      AugmentsOk(g, augments[1..], ApplyUsesAugment(g, aug, before, stack), AugmentView(g, aug, v, stack), stack);
    }
  }

  // ---- Cycles of groupings

  /** An included uses of the grouping stands somewhere below the included statements. */
  ghost predicate Mentions(sts: seq<Stmt>, group: GroupId)
    decreases sts
  {
    exists st ::
      st in sts && st.included && if st.NodeStmt? then Mentions(st.body, group) else st.group == Some(group)
  }

  lemma {:induction false} MentionedFaultless(g: Groupings, sts: seq<Stmt>, parent: Kind, stack: set<GroupId>,
                                              group: GroupId)
    returns (kind: Kind)
    requires Faultless(g, sts, parent, stack) && Mentions(sts, group)
    ensures group in g && group !in stack && Faultless(g, g[group], kind, stack + {group})
    decreases sts
  {
    hide AugmentsFaultless;
    var st :| st in sts && st.included && if st.NodeStmt? then Mentions(st.body, group) else st.group == Some(group);
    assert StatementFaultless(g, sts, st, parent, stack);
    if st.NodeStmt? {
      kind := MentionedFaultless(g, st.body, st.kind, stack, group);
    } else {
      kind := parent;
      assert UsesFaultless(g, st.group, st.augments, parent, stack);
    }
  }

  /** Each grouping of the path is used by the one before, and the first by the statements. */
  ghost predicate UsesAlong(g: Groupings, sts: seq<Stmt>, path: seq<GroupId>)
    decreases |path|
  {
    path != [] ==> Mentions(sts, path[0]) && (path[0] in g ==> UsesAlong(g, g[path[0]], path[1..]))
  }

  /** A grouping that comes up again below itself, or does not exist, is an error wherever the expansion starts. */
  lemma {:induction false} CyclesRefused(g: Groupings, sts: seq<Stmt>, parent: Kind, stack: set<GroupId>,
                                         path: seq<GroupId>)
    requires UsesAlong(g, sts, path)
    requires exists j :: 0 <= j < |path| && (path[j] in stack || path[j] in path[..j] || path[j] !in g)
    ensures !BuildChildren(g, sts, parent, stack).ok
    decreases |path|
  {
    hide Faultless, BuildChildren, Mentions;
    OkIsFaultless(g, sts, parent, stack);
    if Faultless(g, sts, parent, stack) {
      var kind := MentionedFaultless(g, sts, parent, stack, path[0]);
      var j :| 0 <= j < |path| && (path[j] in stack || path[j] in path[..j] || path[j] !in g);
      assert j > 0;
      assert path[1..][j - 1] == path[j];
      if path[j] in path[..j] {
        var i :| 0 <= i < j && path[i] == path[j];
        if i > 0 {
          assert path[1..][..j - 1][i - 1] == path[j];
        }
      }
      CyclesRefused(g, g[path[0]], kind, stack + {path[0]}, path[1..]);
      OkIsFaultless(g, g[path[0]], kind, stack + {path[0]});
    }
  }

  // ---- Modules

  /** A module's own statements at fault or not; an operation may stand here, and other statements do not matter. */
  ghost predicate TopFaultless(g: Groupings, st: Stmt) {
    match st
    case NodeStmt(kind, _, _, body) => kind.Rpc? || !NoChildHere(kind) ==> Faultless(g, body, kind, {})
    case UsesStmt(group, _, augments) => UsesFaultless(g, group, augments, ModuleRoot, {})
  }

  lemma {:induction false} ModuleOk(g: Groupings, sts: seq<Stmt>)
    ensures BuildTop(g, sts).ok <==> forall st :: st in sts && st.included ==> TopFaultless(g, st)
  {
    hide BuildTopStatement, TopFaultless;
    if sts != [] {
      assert forall s :: s in sts <==> s == sts[0] || s in sts[1..];
      TopOk(g, sts[0]);
      ModuleOk(g, sts[1..]);
    }
  }

  lemma TopOk(g: Groupings, st: Stmt)
    ensures BuildTopStatement(g, st).ok <==> (st.included ==> TopFaultless(g, st))
  {
    hide Faultless, UsesFaultless, BuildNode, ExpandUses, BuildChildren;
    if st.NodeStmt? {
      NodeOk(g, st, {});
      OkIsFaultless(g, st.body, st.kind, {});
    } else {
      UsesOk(g, st, ModuleRoot, {});
    }
  }
}
