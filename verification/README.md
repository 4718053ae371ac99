# Cambium schema compiler: a verified model

Cambium loads YANG modules and compiles them into an ordered schema tree. This project models
the algorithms inside that compiler that work on graphs, fixpoints and memos, and its number
ranges, and proves what they promise. Statements are taken as given trees and names as already
resolved; files, lexing and diagnostics are not modelled.

Where the Go code changes state step by step, so does the model: classes with the same fields
(`resolving`, `seen`, `pos`, `stack`, `used`, the memos, the node counter) and methods with loops,
each proved against a specification whose own properties are proved as lemmas.

| area | files | main results |
|---|---|---|
| Augments | `SchemaTrees`, `Augments`, `AugmentOrder`, `AugmentDeclarations`, `AugmentContents` | applied augments and the final tree do not depend on the order in which pending augments are tried; declaring them in another order changes only the order of sibling groups; children end in rank order, and every node is accounted for by one augment's content |
| Rebuild | `Rebuilds` | least closure of amendment targets; the retry loop ends, and on success no amending module was missed |
| Identities | `Graphs`, `Identities` | derived lists are exactly the transitive closure, each entry once |
| Leafrefs | `Leafrefs`, `LeafrefCycles`, `Realtypes`, `LeafrefLookup` | the cycle check is exact; realtype snapshots are full unfoldings wherever no cycle is reachable, and the edges without one break every cycle; a lookup after a passed check ends at its target's final type |
| If-features | `IfFeatureTokens`, `IfFeatureSpelling`, `IfFeatureGrammar`, `IfFeaturePrinting` | the tokenizer accepts exactly the texts that spell tokens; the parser accepts exactly the grammar of section 7.20.2 of RFC 7950; printing and evaluating gives the Boolean meaning |
| Features | `LeastSolutions`, `Features`, `FeatureResolution`, `FeatureTheorems`, `FeatureConverse`, `FeatureMeaning` | every answer is the truth under any consistent choice of features; the memo never changes an answer, on cyclic graphs too; validated expressions are always defined, and exactly when the converse holds |
| Expansion | `Expansion`, `ExpansionViews`, `ExpansionFaults`, `ExpansionCharges`, `ExpansionRebuild`, `ChoiceCases`, `SchemaBudget` | along every path of names the built schema shows what the statements say, with errors and charges counted on the statements; bounded expansion refines the unbounded one over a whole rebuild; retained nodes never exceed the charges; exactly which modules end with choices of cases only |
| Numbers | `DecimalText`, `Numbers`, `NumberTexts`, `YangRanges` | exactly which texts are numbers; text round trips; coalescing is a canonical form; inclusion is exact |
| Restrictions | `RangeBounds`, `Typedefs`, `TypedefChains`, `TypedefValues` | a restricted type has exactly the values its segments hold; subset checks are exact for integers; memoised typedef resolution equals the plain recursion; chains only narrow |
| Projections | `IrTrees`, `IrTable`, `IrCounts`, `IrViews`, `Projections`, `ProjectionOrder`, `SchemaPathProjection`, `ProjectionPermutations`, `ProjectionContents` | a projection holds exactly what its selections ask for, in exactly their roles; the node table unfolds to the nested form; counts saturate exactly; exactly when path projections ignore selection order |
| Code generation | `Names` | families of allocated identifiers are disjoint and stable |

Run `dafny verify dfyconfig.toml` to check everything.

## Where the code differs from what one may expect

- Validation of if-features accepts less than evaluation, for two reasons. Below the top level it reads a
  YANG 1.0 argument as an expression, so a feature named `not`, `and` or `or` cannot be depended on
  (`FeatureConverse.DefinedButRejected`); and it looks at every statement of a feature where evaluation stops
  at the first that fails (`FeatureConverse.StopsEarlyButRejected`). Against evaluation that stops nowhere
  the first is the only one: `FeatureConverse.ConverseExactly`.
- A choice at the top level of a module, or written directly in another choice, is built without shorthand
  cases (`ChoiceCases.BareChoices`; `ChoiceCases.ModuleHoldsCases` gives the exact condition).
- Unprefixed augment steps match the first child of that name, so the claim that declaration order does not
  decide whether a target resolves (schema_augment.go:165-170) needs prefixed steps: of three augments the
  last resolves or not depending on which of the other two is declared first
  (`AugmentDeclarations.UnprefixedStepsDependOnOrder`).
- Selected paths that part between nodes the schema view does not list, as two leaves of an operation's input
  with choices flattened, are projected in input order (`ProjectionPermutations.OperationInputsKeepInputOrder`),
  although the comment at schema_projection.go:168-170 says that the schema decides; no other selections are
  (`ProjectionPermutations.OrderDecided`).
- `coalesceRanges` leaves no true gap after a range that ends at 2^64 - 1 when a later one starts above zero,
  because the successor wraps (`YangRanges.CoalesceRanges` gives the exact condition).
- In length and decimal64 restrictions the keywords `min` and `max` are compared as text with literals, so
  `18446744073709551615 | max` is accepted and a subset of `min` written as `0` is refused
  (`RangeBounds.KeywordOverlapAccepted`, `RangeBounds.KeywordRefusesItsNumber`; the exact conditions are
  in `RangeBounds.AcceptedIsInOrder` and `RangeBounds.EachWithinExactly`).
- `SchemaIRWithLimit` refuses a projection of exactly 2^64 - 1 records even if the limit is 2^64 - 1.
- `ParseInt` reads a leading zero as octal (`Numbers.LeadingZeroIsOctal`; `Numbers.DigitsReadAsDecimal` says
  exactly which digits are read as the decimal number they write).
- `ParseDecimal` takes the dot out before it reads the rest, so `.` is zero and `.-5` is -0.05
  (`NumberTexts.DotQuirks`; `NumberTexts.DecimalExactly` says exactly what is accepted).

## Model

| member | source | states |
|---|---|---|
| SchemaTrees.InsertAugmentChildren | go/cambium/schema_augment.go:314-323 | The loop that skips trailing children of higher rank inserts exactly where the rank order demands. |
| SchemaTrees.PlacingCommutes | go/cambium/schema_augment.go:314-323 | Two augments of one node may be placed in either order with the same result. |
| Augments.FoundAfterInserting | go/cambium/schema.go:3936-4007 | Once a target path resolves it resolves to the same node after any further insertion that leaves siblings unambiguous. |
| Augments.InsertionsCommute | go/cambium/schema_augment.go:222-258 | Two augments that both resolve give the same tree in either order, even when one target lies below the other. |
| Augments.Diamond | go/cambium/schema_augment.go:222-258 | If j can still be applied after i, then i can be applied after j, and both orders meet in one tree. |
| Augments.MoveToFront | go/cambium/schema_augment.go:171-216 | In a run of augments any augment that resolves at the start can be moved to the front without changing the final tree. |
| Augments.Confluence | go/cambium/schema_augment.go:171-216 | Any two runs that go on until nothing resolves apply the same augments and end in the same tree. |
| Augments.Schema.ApplyResolvableAugments | go/cambium/schema_augment.go:222-258 | One pass applies a valid run of pending augments, keeps exactly the others, shrinks the list if it made progress, and otherwise nothing pending resolves. |
| Augments.Schema.ApplyAugments | go/cambium/schema_augment.go:171-216 | Passes repeat until no pending augment resolves; the applied ones form a maximal run and the rest are returned. |
| Augments.AugmentsInAnyOrder | go/cambium/schema_augment.go:171-258 | The scan may take the same ranked augments in any order: the tree and the unresolved ones are the same. |
| AugmentOrder.PinnedUnambiguous | go/cambium/schema.go:2787-2830 | Unique (module, name) siblings make every step with a prefix unambiguous. |
| AugmentOrder.PrefixedConfluence | go/cambium/schema_augment.go:165-216 | With prefixed target paths and unique siblings, order of application does not matter. |
| AugmentOrder.FinalOrdered | go/cambium/schema_augment.go:309-323 | After any run every node's children are in ascending rank, declared children first. |
| AugmentOrder.FinalCases | go/cambium/schema_augment.go:34-69 | If choices hold only cases before, they do after any run. |
| AugmentOrder.GroupKept | go/cambium/schema_augment.go:314-323 | The children a node has from one rank are untouched by augments of other ranks. |
| AugmentOrder.AddedGroup | go/cambium/schema_augment.go:222-258 | The children of an applied augment's rank at its target bear the names of that augment's nodes, in their order; what is below them is in AugmentContents. |
| AugmentDeclarations.ReorderedUnambiguous | go/cambium/schema.go:3936-4007 | Trees that differ in the order of sibling groups are unambiguous for the same steps. |
| AugmentDeclarations.FindsPartner | go/cambium/schema.go:3936-4007 | In such trees an unambiguous path finds corresponding nodes. |
| AugmentDeclarations.InsertedPartner | go/cambium/schema_augment.go:222-323 | Applying one augment under two declaration positions keeps the trees equal but for the order of groups. |
| AugmentDeclarations.RunReordered | go/cambium/schema_augment.go:171-216 | So does a whole run of augments under its new positions. |
| AugmentDeclarations.RenamedMaximal | go/cambium/schema_augment.go:165-216 | A run that goes on until nothing resolves is still one after the augments are declared in another order. |
| AugmentDeclarations.DeclarationOrderDoesNotMatter | go/cambium/schema_augment.go:165-216 | With prefixed steps and unique siblings, declaring augments in another order changes neither which of them resolve nor the tree, but for the order of groups of siblings, which is that of the declarations. |
| AugmentDeclarations.UnprefixedStepsDependOnOrder | go/cambium/schema.go:3936-4007 | Without prefixes, swapping two of three declared augments decides whether the third ever resolves. |
| AugmentContents.InsertedExplained | go/cambium/schema_augment.go:260-323 | One more augment keeps the tree accounted for: declared children as they were, and every other group the whole content of one augment. |
| AugmentContents.FinalExplained | go/cambium/schema_augment.go:171-258 | After any run every node is a node of the initial tree, or belongs to the whole content of the one applied augment of its rank, or is the case around such a node below a choice; declared children keep their order at every node. |
| AugmentContents.ContentArrives | go/cambium/schema_augment.go:34-69 | The content of an applied augment stands below its target, all of it and in order, below a choice each node that is no case inside one named like it. |
| AugmentContents.DeclaredStillFound | go/cambium/schema.go:3936-4007 | What a content node or the initial tree declares is still found along the same steps, with the same kinds and all it declares. |
| AugmentContents.FoundByNames | go/cambium/schema.go:3936-4007 | A target path finds the node to which first children of the named names and modules lead, and nothing otherwise. |
| AugmentContents.NothingAdded | go/cambium/schema_augment.go:241-300 | A disabled augment, or one refused for its mandatory nodes, is consumed and changes nothing. |
| AugmentContents.NodesConserved | go/cambium/schema_augment.go:171-258 | The final tree has as many nodes as the initial one, the contents of the applied augments and the cases around them. |
| AugmentContents.EverythingArrives | go/cambium/schema_augment.go:171-216 | Applying all declared augments gives a tree so accounted for, with every applied content whole below its target and every pending target missing. |
| Rebuilds.Context.ImplementNamedBy | go/cambium/schema_augment.go:122-139 | Implements what the considered amendments of one module name, nothing else, and reports whether that changed anything. |
| Rebuilds.NamedByIncluded | go/cambium/schema_augment.go:122-139 | An amendment names modules if its if-features hold, a deviation only where deviations are not ignored. |
| Rebuilds.Context.ImplementAmendmentTargets | go/cambium/schema_augment.go:115-141 | The implemented modules become the least superset closed under naming a module in an augment or deviation path. |
| Rebuilds.Context.ImplementedAmendingModules | go/cambium/schema_augment.go:145-159 | Counts the implemented modules that declare augments or deviations. |
| Rebuilds.Context.Rebuild | go/cambium/cambium.go:2055-2164 | Returns the number of amending modules when amendments were applied, or -1 with an error before; later phases may implement more; an exhausted budget overrides any error. |
| Rebuilds.Context.EndRebuild | go/cambium/schema_budget.go:83-93 | An exhausted budget becomes the error and keeps the context dirty. |
| Rebuilds.Context.RebuildIfDirty | go/cambium/cambium.go:2026-2050 | Terminates; without an error every implemented amending module was implemented when amendments were last applied, and the implemented modules are closed under naming; the context is clean exactly then. |
| Rebuilds.Context.StillClosed | go/cambium/cambium.go:2036-2046 | If no amending module joined after the amendments were applied, everything named by amendments is still implemented. |
| Identities.IdentityResolver.AppendDerivedToAncestors | go/cambium/schema.go:3663-3687 | One walk appends the new identity once to each ancestor it had not visited, the last entry of a list serving as the visited mark, and covers all bases of what it visits. |
| Identities.IdentityResolver.AppendToAncestorsOf | go/cambium/schema.go:3683-3686 | The walk goes on through all bases of a base, in order. |
| Identities.NotVisited | go/cambium/schema.go:3670-3681 | The visited marks, last list entry or set, are exactly the lists that already hold the identity. |
| Identities.WalkCovers | go/cambium/schema.go:3669-3687 | What a walk marks is exactly what the identity reaches once the base is recorded. |
| Identities.WalkRecords | go/cambium/schema_types.go:317-318 | After each recorded base all lists again hold exactly the identities that strictly reach their owner, each once. |
| Identities.IdentityResolver.RecordBase | go/cambium/schema_types.go:317-318 | Appends one base and the derived entries, keeping the resolver consistent. |
| Identities.IdentityResolver.ResolveBase | go/cambium/schema_types.go:295-319 | Resolves one base statement: an unknown base is an error, otherwise the base is resolved first and recorded. |
| Identities.IdentityResolver.ResolveBases | go/cambium/schema_types.go:288-323 | Resolves all base statements in order and rejects several bases before YANG 1.1. |
| Identities.IdentityResolver.ResolveIdentity | go/cambium/schema_types.go:272-325 | Resolves an identity after its bases; meeting one under way is a real cycle. |
| Identities.IdentityResolver.ResolveIdentities | go/cambium/schema_types.go:266-270 | No error exactly when the bases are all known, acyclic and allowed; then each derived list holds exactly the identities reaching it by one or more base edges, each once. |
| Identities.StrictlyDerivedFromAny | go/cambium/schema.go:6188-6218 | The search with a visited set: what it leaves unexplored can still be decided, what it finds is a derivation. |
| Identities.DerivedFromAny | go/cambium/schema.go:6162-6172 | The answer is yes exactly when the identity reaches a wanted one by at least one base edge, cycles or not. |
| Leafrefs.TargetGraphEdge | go/cambium/schema_leafref_cycles.go:85-97 | The targets followed are exactly the resolved targets in the type, union members included, that hold leafrefs themselves. |
| Leafrefs.TargetsExactly | go/cambium/schema_leafref_cycles.go:85-97 | The targets of a type are those of the leafrefs in it, unions nested to any depth. |
| Leafrefs.ContainsExactly | go/cambium/schema_leafref_cycles.go:99-115 | A type contains a leafref exactly when it is not made of other types only, however unions nest. |
| Leafrefs.TargetsNeedLeafref | go/cambium/schema_leafref_cycles.go:85-115 | A type without a leafref has no targets, so testing it first loses none. |
| LeafrefCycles.StackCloses | go/cambium/schema_leafref_cycles.go:41-47 | Meeting a node on the stack closes a real cycle of target edges reachable from an implemented module. |
| LeafrefCycles.AllFinished | go/cambium/schema_leafref_cycles.go:54-68 | If all leafref nodes of implemented modules are finished in topological order there is no reachable cycle. |
| LeafrefCycles.CycleCheck.Visit | go/cambium/schema_leafref_cycles.go:33-57 | Depth-first visit: the stack and the positions stay in step, and without a cycle the node ends finished after its targets. |
| LeafrefCycles.CycleCheck.VisitTarget | go/cambium/schema_leafref_cycles.go:36-53 | One edge: a node on the stack is reported as a cycle, a finished one skipped, a new one visited. |
| LeafrefCycles.CycleCheck.WalkSchemaNodes | go/cambium/schema_leafref_cycles.go:74-81 | The walk visits every leafref node below a root unless a cycle stopped it. |
| LeafrefCycles.CycleCheck.ValidateLeafrefCycles | go/cambium/schema_leafref_cycles.go:21-70 | In strict mode it succeeds exactly when no cycle is reachable from implemented modules; in vendor mode it warns exactly then; every reported list is a real closed walk. |
| LeafrefCycles.RealCycleFound | go/cambium/schema_leafref_cycles.go:41-47 | A reported list is proof of a reachable cycle. |
| LeafrefCycles.TraceCycles | go/cambium/resolution.go:96-110 | A chain that returns to a node of its trace passed a cycle of target edges. |
| LeafrefCycles.ResolveLeafrefChain | go/cambium/resolution.go:89-125 | Returns the trace of distinct leafrefs to a target that is none, with the last realtype; or the unresolved leafref; or a node on a real cycle. |
| LeafrefCycles.PassedCheckMeansNoCycle | go/cambium/resolution.go:96-110 | After a passed check no chain from a reachable node meets a cycle. |
| Realtypes.RealtypePass.Visit | go/cambium/schema_leafref_realtypes.go:35-49 | Visiting a leafref node in dependency order keeps every snapshot justified and refuses only nodes under way. |
| Realtypes.RealtypePass.ResolveType | go/cambium/schema_leafref_realtypes.go:18-34 | Rebuilds a type with its targets' current types copied in, members included. |
| Realtypes.CopyJustified | go/cambium/schema_leafref_realtypes.go:20-44 | A leafref target's copy is left out exactly when the target is unresolved, untyped or still under way, and one under way leads back to the node. |
| Realtypes.CutsCloseCycles | go/cambium/schema_leafref_realtypes.go:38-44 | Every edge whose target was not finished before its source closes a cycle. |
| Realtypes.UncutAcyclic | go/cambium/schema_leafref_realtypes.go:38-44 | Without those edges the target graph of the finished nodes has no cycle. |
| Realtypes.SnappedLater | go/cambium/schema_leafref_realtypes.go:18-49 | Snapshots taken stay right while the pass goes on. |
| Realtypes.NodeUnfolds | go/cambium/schema_leafref_realtypes.go:10-59 | By induction over the remaining nodes, a finished type is the unfolding of its original. |
| Realtypes.SnapshotIsUnfolding | go/cambium/schema_leafref_realtypes.go:10-59 | A finished node that reaches no cycle has the full recursive unfolding of its type, whatever the visit order. |
| Realtypes.RealtypePass.ResolveLeafrefRealtypes | go/cambium/schema_leafref_realtypes.go:10-59 | The pass terminates on any graph, visits every leafref node below the modules, leaves out copies only at edges that close cycles and break all of them, and ends with full unfoldings wherever no cycle is reachable. |
| LeafrefLookup.PassKeepsTargets | go/cambium/schema_leafref_realtypes.go:10-59 | The pass rewrites copies only: the target graph, the direct leafrefs and their targets stay what they were. |
| LeafrefLookup.LastIsFinal | go/cambium/resolution.go:89-125 | The realtype found at the end of a chain that meets no cycle is the final type of the chain's end. |
| LeafrefLookup.CheckThenLookup | go/cambium/cambium.go:2145-2148 | Check, pass and lookup in turn: a load is refused exactly when a chain cycles; afterwards no chain reachable from an implemented module is reported as a cycle, and one ending at a typed node yields its final type. |
| IfFeatureTokens.TokenizeIfFeatureExpr | go/cambium/schema_iffeature.go:135-177 | The index loop computes the tokens of the recursive lexer. |
| IfFeatureTokens.TokenizeRender | go/cambium/schema_iffeature.go:135-177 | Writing tokens with single spaces and tokenizing gives them back. |
| IfFeatureTokens.SingleRefIsOneToken | go/cambium/schema_iffeature.go:179-185 | A single reference argument is one token: an identifier, or one of the three operator words. |
| IfFeatureSpelling.TokenizesExactly | go/cambium/schema_iffeature.go:135-177 | The tokenizer finds tokens exactly in texts that spell them with any blanks, tabs and line ends between, necessarily between two words. |
| IfFeatureSpelling.WordExactly | go/cambium/schema_iffeature.go:135-177 | A word that is no operator is one or two parts of letters, digits, underscores, dashes and dots, with a colon between two. |
| IfFeatureSpelling.SingleRefExactly | go/cambium/schema_iffeature.go:179-185 | A YANG 1.0 argument is one name exactly when it is an identifier, maybe after a prefix and a colon, with blanks around. |
| IfFeatureGrammar.ExprParses | go/cambium/schema.go:7201-7265 | Tokens derived from an expression are consumed completely and evaluate to its value. |
| IfFeatureGrammar.OrDerivation | go/cambium/schema.go:7201-7265 | Whatever the parser consumes is derived by the grammar. |
| IfFeatureGrammar.EvaluateIsGrammar | go/cambium/schema.go:7201-7265 | A token list is accepted with a value exactly when the grammar of section 7.20.2 of RFC 7950 derives it with that value. |
| IfFeatureGrammar.DerivationEvaluates | go/cambium/schema_iffeature.go:99-113 | Evaluating a derived token list gives the value of its derivation. |
| IfFeaturePrinting.PrintedValue | go/cambium/schema.go:7201-7240 | Parentheses by precedence keep the Boolean meaning: not over and over or. |
| IfFeaturePrinting.PrintThenEvaluate | go/cambium/schema_iffeature.go:99-113 | Printing any and/or/not expression, tokenizing and evaluating gives its Boolean value. |
| FeatureResolution.IfFeatureParser.ParseOr | go/cambium/schema.go:7201-7215 | The recursive descent over a resolving set agrees with the grammar between what is surely and what is at most known. |
| FeatureResolution.IfFeatureParser.ParseAnd | go/cambium/schema.go:7217-7231 | Likewise for conjunctions. |
| FeatureResolution.IfFeatureParser.ParseNot | go/cambium/schema.go:7233-7240 | Likewise for negations. |
| FeatureResolution.IfFeatureParser.ParsePrimary | go/cambium/schema.go:7242-7265 | Likewise for references and parentheses. |
| FeatureResolution.FeatureResolver.ResolveFeature | go/cambium/schema.go:7271-7366 | Resolving from inside a resolution returns only determined values, and all that can be told without the features under way; the memo stays sound. |
| FeatureResolution.FeatureResolver.ResolveStatements | go/cambium/schema.go:7353-7365 | The if-feature statements of one feature, stopping early only in evaluation. |
| FeatureResolution.FeatureResolver.ResolveStatement | go/cambium/schema_iffeature.go:99-113 | One statement, with YANG 1.0 single references in evaluation. |
| FeatureResolution.FeatureResolver.EvalIfFeature | go/cambium/schema_iffeature.go:91-113 | A statement evaluated at the top level has exactly its determined value, memo or not. |
| FeatureResolution.FeatureResolver.FeatureEnabled | go/cambium/schema.go:7318-7366 | A top-level question is answered with exactly the determined (enabled, known) pair. |
| FeatureResolution.FeatureResolver.ValidateIfFeature | go/cambium/schema_iffeature.go:115-127 | Validation accepts exactly the statements whose references and dependencies are well-founded and well-formed. |
| Features.DeterminedIsSolution | go/cambium/schema.go:7318-7366 | The determined values satisfy the features' defining equations. |
| Features.FeatureMonotone | go/cambium/schema.go:7318-7366 | Knowing more features never changes a value already found. |
| FeatureTheorems.SeenFromTopLevel | go/cambium/schema.go:7318-7366 | The recursion without memo finds exactly the determined values from the top level, on cyclic graphs too. |
| FeatureTheorems.MemoMakesNoDifference | go/cambium/schema_budget.go:32-47 | With the memo the answer is that of the recursion without memo. |
| FeatureTheorems.VisitedEarlier | go/cambium/schema.go:7318-7366 | A feature with a value asks only for features that got theirs earlier. |
| FeatureTheorems.MemoHitAgrees | go/cambium/schema_budget.go:32-47 | A memo hit inside a genuine stack of resolutions is what resolving again from there would find. |
| FeatureTheorems.ValidationImpliesDefined | go/cambium/schema.go:7271-7311 | A statement that validation accepts has a value for every enabled set. |
| FeatureConverse.FullyDeterminedSolves | go/cambium/schema.go:7353-7365 | The features that can be evaluated are exactly those all of whose statements have values given the others. |
| FeatureConverse.ConverseExactly | go/cambium/schema_iffeature.go:115-127 | Acceptance is the same as everything needed having a value, for all statements, exactly when no feature that can be evaluated refers to an operator word as a YANG 1.0 name. |
| FeatureConverse.AcceptedIsFullyDefined | go/cambium/schema.go:7271-7311 | The if half for one statement, with any number of statements per feature. |
| FeatureConverse.OperatorWordNeverValid | go/cambium/schema_iffeature.go:179-185 | A feature with such a statement is never valid, whatever else it says. |
| FeatureConverse.SingleStatementsConverse | go/cambium/schema.go:7353-7365 | With at most one statement per feature and no operator words, accepted means having a value for every enabled set, and the set of all features decides. |
| FeatureConverse.StopsEarlyButRejected | go/cambium/schema.go:7353-7365 | A feature whose evaluation always stops before a reference to nothing is defined for every enabled set but rejected. |
| FeatureConverse.DefinedButRejected | go/cambium/schema_iffeature.go:115-127 | So is a feature that depends on a YANG 1.0 feature named not. |
| FeatureMeaning.ReadingGivesValue | go/cambium/schema_iffeature.go:99-113 | A statement has the value of whatever expression it reads as: in YANG 1.0 its one name, otherwise any derivation of its tokens. |
| FeatureMeaning.DeterminedIsTrue | go/cambium/schema.go:7318-7366 | For every choice of features in which exactly the enabled ones with only true statements are on, each value found is the truth. |
| FeatureMeaning.TrueFeaturesAreStable | go/cambium/schema.go:7318-7366 | If every feature has a value, the true ones are such a choice, and the only one. |
| FeatureMeaning.RankedHaveValues | go/cambium/schema.go:7318-7366 | Well-formed features that depend on one another without cycles all have values. |
| FeatureMeaning.DisabledIsOff | go/cambium/schema.go:7334-7340 | A feature that is not enabled is known to be off, whatever its statements say. |
| FeatureMeaning.FirstFalseDecides | go/cambium/schema.go:7353-7365 | The first statement that does not hold turns the feature off, whatever comes after it. |
| FeatureMeaning.ReferenceInEitherVersion | go/cambium/schema_iffeature.go:99-113 | A YANG 1.0 reference that is no operator word has, whatever is known, the value its argument has in YANG 1.1. |
| FeatureMeaning.EvaluateReference | go/cambium/schema_iffeature.go:99-101 | Evaluating a YANG 1.0 reference gives the same as asking whether that feature is enabled. |
| FeatureMeaning.AnswersAreTrue | go/cambium/schema_iffeature.go:91-113 | Top-level answers about statements and features are the truth under every such choice. |
| FeatureMeaning.RankedAnswer | go/cambium/schema.go:7318-7366 | Without cycles every question about a visible feature is answered, with the truth. |
| Expansion.RetainedWithinCharges | go/cambium/schema_budget.go:60-65 | The nodes a build retains are at most those it charges, although choice shorthands add uncharged cases. |
| Expansion.ShorthandsPaid | go/cambium/schema.go:2405-2441 | The charges of a choice's children pay for their shorthand cases. |
| Expansion.ChildrenRetained | go/cambium/schema.go:2380-2403 | Likewise for the children of any statement. |
| Expansion.NodeRetained | go/cambium/schema.go:2265-2374 | Likewise for a single node. |
| Expansion.ChoiceRetained | go/cambium/schema.go:2405-2441 | Likewise for a choice with shorthand cases. |
| ExpansionViews.ModuleShown | go/cambium/schema.go:2226-2259 | Along every path of names, first siblings first, the nodes built for a module are those its statements say. |
| ExpansionViews.ChildrenShown | go/cambium/schema.go:2380-2403 | Likewise for the statements below a node, one after another in statement order. |
| ExpansionViews.CasesShown | go/cambium/schema.go:2408-2437 | Likewise for the statements of a choice, each shorthand node inside a case of its name. |
| ExpansionViews.UsesShown | go/cambium/schema.go:2508-2572 | Likewise for a uses: the nodes of its grouping, then its augments. |
| ExpansionViews.ChildrenNamed | go/cambium/schema.go:2380-2403 | The children built are, in statement order, the nodes named by the included statements, a uses standing for the nodes of its grouping. |
| ExpansionViews.AppendedAt | go/cambium/schema_augment.go:21-32 | After an augment inside a uses its target has its former children first and then the augment's; every other path leads where it led, or into the added nodes. |
| ExpansionViews.AugmentBodyShown | go/cambium/schema_augment.go:34-69 | An augment brings its nodes in statement order, below a choice each in a case. |
| ExpansionFaults.OkIsFaultless | go/cambium/schema.go:2380-2572 | An expansion records an error exactly when an included uses stands where none may, names a missing grouping or one being expanded, or has an augment without target, or an operation or module stands below a node. |
| ExpansionFaults.ModuleOk | go/cambium/schema.go:2226-2259 | Likewise for a module's own statements. |
| ExpansionFaults.CyclesRefused | go/cambium/schema.go:2508-2572 | A grouping that comes up again below itself is an error wherever the expansion starts. |
| ExpansionCharges.ChildrenCharge | go/cambium/schema_budget.go:95-123 | The charges are a count on the statements: each node once, the body of a choice twice, missing input and output nodes, and cases around augmented nodes. |
| ExpansionCharges.ModuleCharge | go/cambium/schema.go:2226-2259 | Likewise for a module. |
| ExpansionCharges.ModuleCharged | go/cambium/schema_budget.go:60-65 | Without choices a module is charged exactly the nodes it retains. |
| ExpansionRebuild.RebuildShows | go/cambium/cambium.go:2055-2164 | A rebuild exceeds its limit exactly when its statements count more, fails exactly when they are at fault or a check fails, and otherwise shows in every module and augment what the statements say. |
| ChoiceCases.ModuleHoldsCases | go/cambium/schema.go:2226-2259 | Every choice built for a module holds only cases exactly when no choice built as a plain node, at top level or directly in a choice, through groupings and augments, has an included shorthand child. |
| ChoiceCases.NodeExact | go/cambium/schema.go:2265-2374 | Exactly when one statement built as a plain node leaves no choice with a bare child. |
| ChoiceCases.ChildrenExact | go/cambium/schema.go:2380-2403 | Likewise for the statements below a node. |
| ChoiceCases.CasesExact | go/cambium/schema.go:2408-2437 | Likewise for the statements of a choice that gets shorthand cases. |
| ChoiceCases.UsesExact | go/cambium/schema.go:2508-2572 | Likewise for what a uses expands to. |
| ChoiceCases.AugmentsExact | go/cambium/schema_augment.go:21-69 | Likewise for augments inside a uses, appended to what was built before. |
| ChoiceCases.ChoiceHoldsCases | go/cambium/schema.go:2405-2441 | A choice statement below a node that is not a choice gives one node, and it holds cases only. |
| ChoiceCases.BareChoices | go/cambium/schema.go:2405-2441 | A choice with a shorthand leaf keeps it bare at the top level and directly in another choice, and wraps it in a container. |
| SchemaBudget.BuildState.AdmitSchemaNode | go/cambium/schema_budget.go:98-123 | Charges one node, or refuses for good once the limit is reached. |
| SchemaBudget.BuildState.BuildNodeSeen | go/cambium/schema.go:2265-2374 | Builds what the unlimited expansion builds, or stops with the counter at the limit. |
| SchemaBudget.BuildState.BuildChildrenSeen | go/cambium/schema.go:2380-2403 | Likewise for the children of a statement. |
| SchemaBudget.BuildState.BuildChildSeen | go/cambium/schema.go:2385-2401 | Likewise for one substatement, uses and choices included. |
| SchemaBudget.BuildState.BuildChoiceSeen | go/cambium/schema.go:2405-2441 | Likewise for a choice. |
| SchemaBudget.BuildState.BuildCasesSeen | go/cambium/schema.go:2408-2437 | Likewise for the cases of a choice, each shorthand case around one charged node. |
| SchemaBudget.BuildState.BuildCaseSeen | go/cambium/schema.go:2408-2437 | Likewise for one statement of a choice. |
| SchemaBudget.BuildState.ExpandUsesSeen | go/cambium/schema.go:2508-2572 | Likewise for a uses: a grouping already being expanded is an error, and the expansion terminates on (groupings not on the stack, statement size). |
| SchemaBudget.BuildState.ApplyUsesAugmentSeen | go/cambium/schema_augment.go:21-32 | Likewise for an augment inside a uses. |
| SchemaBudget.BuildState.BuildAugmentChildrenSeen | go/cambium/schema_augment.go:34-69 | Likewise for the children of an augment; shorthand cases under a choice are charged. |
| SchemaBudget.BuildState.WrapShorthands | go/cambium/schema_augment.go:42-67 | Each node that is not a case gets a charged case around it. |
| SchemaBudget.BuildState.AddImplicitOperationIO | go/cambium/schema_operation.go:11-41 | Missing input and output nodes are added to an operation, each charged. |
| SchemaBudget.BuildState.BuildIR | go/cambium/schema.go:2226-2259 | One module on whatever budget is left: the limit error appears exactly when the unlimited build charges more than that; otherwise the nodes are the same. |
| SchemaBudget.BuildState.BeginRebuild | go/cambium/schema_budget.go:70-77 | The budget starts over once per rebuild. |
| SchemaBudget.BuildState.BuildModules | go/cambium/cambium.go:2055-2164 | All modules draw on one budget, in order. |
| SchemaBudget.BuildState.BuildAugments | go/cambium/schema_augment.go:222-258 | So do the children of the applied top-level augments. |
| SchemaBudget.BuildState.CheckGroupings | go/cambium/schema.go:3013-3044 | So does the check of each grouping body on its own, which stops at the first fault. |
| SchemaBudget.BuildState.Rebuild | go/cambium/schema_budget.go:70-123 | Over a whole rebuild the limit is exceeded exactly when the unlimited one charges more; otherwise every module and augment has its unlimited nodes, and all together retain no more than was charged. |
| DecimalText.NumeralValue | go/cambium/number.go:65-67 | Reading a decimal numeral gives the number it was printed from. |
| Numbers.DecimalReadBack | go/cambium/number.go:313-358 | The text of a number read back with enough fraction digits gives its value scaled to them, if it fits; minus zero becomes zero. |
| Numbers.DecimalRoundTrip | go/cambium/number.go:65-79 | ParseDecimal returns the very number exactly when it has those 1 to 18 fraction digits, fits int64 and is not minus zero. |
| Numbers.IntegerRoundTrip | go/cambium/number.go:288-310 | ParseInt returns the very number for every integer. |
| Numbers.DigitsParsed | go/cambium/number.go:288-310 | Text of digits is read as decimal, or as octal after a leading zero, if it fits uint64. |
| Numbers.DigitsReadAsDecimal | go/cambium/number.go:288-310 | It is read as the decimal number it writes exactly when that fits and no zero comes before a number of eight or more. |
| Numbers.LeadingZeroIsOctal | go/cambium/number.go:288-310 | So 010 is eight to ParseInt, and ten to ParseDecimal. |
| NumberTexts.ValueIsPositional | go/cambium/number.go:288-310 | The value of digits is the sum of each times the power of the base at its place. |
| NumberTexts.UnsignedExactly | go/cambium/number.go:288-310 | An unsigned number is a prefix 0b, 0o, 0x or 0, or none, and digits of its base that fit uint64. |
| NumberTexts.IntegerExactly | go/cambium/number.go:288-310 | ParseInt reads exactly a sign, if any, and such a number, with white space around. |
| NumberTexts.DecimalExactly | go/cambium/number.go:313-358 | ParseDecimal reads exactly what is a sign, if any, and digits once the first dot is taken out, no more than the required digits after the dot, with a value that fits int64. |
| NumberTexts.DotQuirks | go/cambium/number.go:331-347 | So a lone dot is zero, and a dot may come before the sign. |
| YangRanges.QuantumIsOneMore | go/cambium/number.go:105-117 | One quantum more is one unit more, except at 2^64 - 1, where it wraps to zero. |
| YangRanges.CoalesceRanges | go/cambium/number.go:429-445 | The values denoted stay the same; true gaps are left exactly when no range ending at 2^64 - 1 comes before one that starts above zero. |
| YangRanges.CanonicalUnique | go/cambium/number.go:239-249 | Two coalesced lists are Equal exactly when they denote the same values. |
| YangRanges.IntervalInOneRange | go/cambium/number.go:219-236 | An interval covered by a coalesced list lies in one of its ranges. |
| YangRanges.Contains | go/cambium/number.go:219-236 | On nonempty lists, the left one coalesced, the single pass decides inclusion of values; an empty list stands for no restriction. |
| RangeBounds.CompareIsByValue | go/cambium/schema.go:6610-6642 | The comparison is by value, except between a keyword and the literal for the same limit. |
| RangeBounds.KeywordsAreEnds | go/cambium/schema.go:6534-6545 | min and max read as the least and the greatest value of the restriction being narrowed, or as the limits of the type. |
| RangeBounds.AcceptedIsInOrder | go/cambium/schema.go:6473-6529 | An accepted list is in order exactly when no limit is repeated in two spellings, and one in order is accepted unless a segment misspells a limit; for integers both always. |
| RangeBounds.ParseRanges | go/cambium/schema.go:6473-6529 | Accepts exactly the readable lists whose segments are in order but for two spellings of a limit, and returns their bounds. |
| RangeBounds.ReadIsProper | go/cambium/schema.go:6473-6529 | What is read lies within the type; integer restrictions come out in strictly increasing order. |
| RangeBounds.KeywordOverlapAccepted | go/cambium/schema.go:6610-6620 | A length or decimal64 restriction may list its greatest value twice, once by keyword. |
| RangeBounds.QuantumNeverOverflows | go/cambium/schema.go:6333-6348 | The quantum step is guarded by the comparison before it, so it never wraps around. |
| RangeBounds.CoalesceAdjacentBounds | go/cambium/schema.go:6333-6348 | The loop joins exactly the adjacent bounds, keeping the lexical bounds at both ends. |
| RangeBounds.CoalescedMeans | go/cambium/schema.go:6333-6348 | Joining keeps the admitted values and leaves gaps of at least one value. |
| RangeBounds.EachWithinExactly | go/cambium/schema.go:6311-6328 | The check on segments is inclusion of values, but for limits spelt in two ways. |
| RangeBounds.RangesWithin | go/cambium/schema.go:6311-6328 | A yes is always right; on increasing lists yes means included and no limit misspelt, for integers exactly included. |
| RangeBounds.KeywordRefusesItsNumber | go/cambium/schema.go:6311-6328 | A length restricted to min refuses the same value written as a number. |
| RangeBounds.NarrowedNarrows | go/cambium/schema_types.go:950-963 | A restriction leaves only values that were there before, and integer restrictions stay in increasing order. |
| RangeBounds.IntegerRestrictionExact | go/cambium/schema.go:6295-6309 | An integer restriction goes through exactly when it is readable, in order, and admits only values of the type below. |
| RangeBounds.Restrict | go/cambium/schema_types.go:950-963 | Computes the narrowed restriction, with the subset error exactly when a readable list admits too much. |
| Typedefs.DeterminedIsSolution | go/cambium/schema_types.go:363-398 | What typedefs stand for satisfies their defining equations. |
| Typedefs.TypeMonotone | go/cambium/schema_types.go:363-542 | Knowing more typedefs never changes a type already resolved. |
| Typedefs.TypeResolver.ResolveTypedefType | go/cambium/schema_types.go:347-361 | A memo hit, or resolution stored on success only, gives no more than the determined type. |
| Typedefs.TypeResolver.ParseTypeSeen | go/cambium/schema_types.go:363-542 | Inside a resolution it returns only determined types, and all that need no typedef under way. |
| Typedefs.TypeResolver.ParseMembers | go/cambium/schema_types.go:521-537 | Union members are resolved in order; one failure fails the union. |
| Typedefs.TypeResolver.ParseNamed | go/cambium/schema_types.go:365-398 | A reference fails on a typedef under way, otherwise its restrictions are applied to what the typedef stands for. |
| Typedefs.TypeResolver.ParseType | go/cambium/schema_types.go:338-340 | At the top level the result is exactly the determined type and that of the recursion without memo, on any typedef graph. |
| Typedefs.UnmemoizedFromTopLevel | go/cambium/schema_types.go:347-361 | The recursion without memo finds exactly the determined types. |
| TypedefChains.CyclesNeverResolve | go/cambium/schema_types.go:341-346 | Nothing from which a typedef cycle can be reached ever resolves, wherever resolution starts. |
| TypedefChains.ChainNarrows | go/cambium/schema_types.go:386-398 | A type's values are values of every typedef on its chain, each with the base and the rest of the chain it should have. |
| TypedefChains.KeywordsOfTypedef | go/cambium/schema.go:6534-6545 | Where an integer typedef is used, min and max read as the least and the greatest of its values. |
| TypedefValues.ReadStandsFor | go/cambium/schema.go:6534-6545 | A bound read is the number written, or for min and max the least or the greatest value of the type below, lexical keywords included. |
| TypedefValues.NarrowedValues | go/cambium/schema_types.go:950-963 | A restriction that goes through leaves exactly the values some written segment holds, for lengths and decimals too. |
| TypedefValues.NarrowedExactly | go/cambium/schema_types.go:950-963 | For integers, and wherever no bound is spelt as a keyword, it goes through exactly when its segments go up and hold only values of the type below. |
| TypedefValues.ParseBuiltin | go/cambium/schema_types.go:399-520 | ParseType on a built-in type: bare all its values, restricted exactly those its segments hold. |
| TypedefValues.ParseReference | go/cambium/schema_types.go:365-398 | ParseType on a reference: bare what the typedef's own statement gives; restricted exactly the values some written segment holds, min and max being the ends of the typedef. |
| TypedefValues.ParseUnion | go/cambium/schema_types.go:521-537 | ParseType on a union: the members' types in order, refused when there is none or one is refused. |
| IrTrees.PreorderBlock | go/cambium/schema_ir_table.go:152-163 | In a pre-order listing each node is followed by exactly what lies below it. |
| IrViews.FlattenedExactly | go/cambium/schema.go:4713-4735 | The flattened view shows exactly the nodes below with only choices and cases in between, no operations or notifications. |
| IrViews.FlattenedInOrder | go/cambium/schema.go:4713-4735 | It lists them as pre-order does, none twice. |
| IrViews.PlainViewExactly | go/cambium/schema.go:4713-4735 | Without flattening the view is the children that are no operations, in order. |
| IrTable.SchemaIRTableBuilder.Add | go/cambium/schema_ir_table.go:152-163 | Appends rows for a new node and all below it in pre-order, each numbered by its index and linked to its children and parent; a known node gets its row. |
| IrTable.SchemaIRTableBuilder.LookupOrAdd | go/cambium/schema_ir_table.go:165-176 | Returns the row of a known node and otherwise adds it. |
| IrTable.SchemaIRTableBuilder.Record | go/cambium/schema_ir_table.go:178-205 | Appends one row numbered by its index. |
| IrTable.SchemaIRTableBuilder.AddModule | go/cambium/schema_ir_table.go:123-125 | Adds the top-level nodes of a module and returns their rows. |
| IrTable.SchemaIRTableBuilder.AddViews | go/cambium/schema_ir_table.go:131-142 | Every row gets references to the rows of its data children and list keys, adding no row. |
| IrTable.RowBelow | go/cambium/schema_ir_table.go:128-142 | Whatever lies below a row's node has its own row further down. |
| IrTable.SchemaIRTable | go/cambium/schema_ir_table.go:96-144 | Lists every node of the forest once in pre-order, each row's id its index, parents before children, all three views naming later rows. |
| IrTable.UnfoldIsNested | go/cambium/schema_ir.go:142-154 | Unfolding a row through its three views gives the nested projection of its node. |
| IrTable.TableUnfolds | go/cambium/schema_ir.go:113-154 | All modules' nested projections can be read off the table. |
| IrCounts.SaturatingSum | go/cambium/schema_ir_table.go:273-278 | Saturating addition of saturated counts is the saturated sum. |
| IrViews.CountIsRecords | go/cambium/schema_ir_table.go:255-271 | The count is the number of records written out: a node and those of its three views. |
| IrCounts.V1Counter.V1Records | go/cambium/schema_ir_table.go:255-271 | With its memo it computes min(2^64 - 1, number of nested records). |
| IrCounts.V1RecordsOf | go/cambium/schema_ir_table.go:241-249 | Summed over all modules it is min(2^64 - 1, exact count). |
| IrCounts.SchemaIRNode | go/cambium/schema_ir.go:142-154 | The recursive copy ends, since every view lies below its node, and gives the nested form that the node table unfolds to. |
| IrCounts.SchemaIRWithLimit | go/cambium/schema_ir_table.go:284-295 | Returns the nested projection exactly when its record count is within the limit and below 2^64 - 1; otherwise nothing is built. |
| Projections.ProjectionBuilder.Ensure | go/cambium/schema_projection.go:256-311 | The build node exists and has the given roles added, all others unchanged. |
| Projections.ProjectionBuilder.AddListKeys | go/cambium/schema_projection.go:353-360 | Adds exactly the list keys with the key role, if asked for. |
| Projections.ProjectionBuilder.IncludeDescendants | go/cambium/schema_projection.go:362-376 | What it adds below a node, and in which order, depends on the node and the filters only, not on earlier selections. |
| Projections.ProjectionBuilder.AddSelection | go/cambium/schema_projection.go:229-254 | What a selection adds, and in which order, depends on its target and filters only. |
| Projections.SummaryNext | go/cambium/schema_projection.go:256-311 | Adding roles to a build node is a union, so order and repetition leave no trace in the roles. |
| ProjectionOrder.OrderIrrelevant | go/cambium/schema_projection.go:323-351 | Below covered nodes the creation order of build nodes never shows. |
| ProjectionOrder.RootsIgnoreOrder | go/cambium/schema_projection.go:267-321 | If the schema views cover all build nodes, the whole projection is independent of creation order. |
| ProjectionOrder.KeysThenData | go/cambium/schema_projection.go:323-351 | Children come as list keys first if asked for, then the other data children, both in schema order. |
| IrViews.TopInOrder | go/cambium/schema_projection.go:267-275 | The roots taken from the module's top-level nodes keep their order. |
| IrViews.FreshInOrder | go/cambium/schema_projection.go:323-351 | So do the children taken from the keys and from the view of a node. |
| SchemaPathProjection.BuildPathCovered | go/cambium/schema_projection.go:140-156 | Below a top-level data node and no operation, each data ancestor is a data child of the one before. |
| SchemaPathProjection.PlainIsCovered | go/cambium/schema_projection.go:229-376 | All build nodes of such selections are covered by the schema views. |
| SchemaPathProjection.ProjectSchemaPaths | go/cambium/schema_projection.go:171-194 | Fails with the first refused selection; otherwise the roles are those of the set of selections, and the build nodes come in the order of their first use, which does not show when no target lies below an operation, a notification or a top-level choice. |
| SchemaPathProjection.SelectionBelow | go/cambium/schema_projection.go:229-254 | All build nodes of a selection lie on the path to its target, or below a node of it through visible children. |
| ProjectionPermutations.HiddenOnBuildPath | go/cambium/schema_projection.go:229-283 | A build node that the schema view does not list below its parent lies on the path to the target of the selection that made it. |
| ProjectionPermutations.OrderFreeSuffices | go/cambium/schema_projection.go:267-351 | Where no two selected paths part between nodes the view does not list, any order and repetition gives the same projection. |
| ProjectionPermutations.PartingShows | go/cambium/schema_projection.go:276-283 | Where two do, selecting one or the other first gives different projections. |
| ProjectionPermutations.OrderDecided | go/cambium/schema_projection.go:168-170 | Every listing of the same selections gives the same projection if and only if no two of them part so. |
| ProjectionPermutations.PlainIsOrderFree | go/cambium/schema_projection.go:168-170 | Targets below top-level data nodes and below no operation or notification never part so. |
| ProjectionPermutations.SelectionOrderDoesNotMatter | go/cambium/schema_projection.go:171-194 | Two calls with the same selections in any order, none parting so, give the same result. |
| ProjectionPermutations.OperationInputsKeepInputOrder | go/cambium/schema_projection.go:171-194 | Two calls on two leaves of one operation's input, choices flattened, give different projections. |
| ProjectionContents.SearchIsChain | go/cambium/schema_projection.go:405-418 | The search below a node finds something exactly when a chain of visible nodes that are not left out leads to one wanted on its own account. |
| ProjectionContents.StepsLeadOn | go/cambium/schema_projection.go:362-403 | A node below a target is included exactly when it is wanted or leads to a wanted node so. |
| ProjectionContents.InputExactly | go/cambium/schema_projection.go:229-254 | What a selection adds: the nodes above its target as ancestors, the target as selected, included nodes below, and the list keys of all these, each in exactly these roles, mandatory and default where the options ask for them. |
| ProjectionContents.RootsOccur | go/cambium/schema_projection.go:267-351 | The projection shows exactly the build nodes, each with its roles. |
| ProjectionContents.ProjectedContents | go/cambium/schema_projection.go:171-194 | ProjectSchemaPaths holds exactly the nodes some selection says something about, in exactly the roles they say; otherwise the first path that does not lead to a data node with resolvable filters is the error. |
| ProjectionContents.PrunedOnTheWayOnly | go/cambium/schema_projection.go:378-387 | With ignore paths that prune all below and no mandatory protection, an ignored node, or state data left out, occurs only as a target, above one, or as a list key. |
| ProjectionContents.LetThroughOccurs | go/cambium/schema_projection.go:389-393 | With descendants asked for, a node below a target that is allowed, not ignored and reached by nodes not left out occurs as a descendant. |
| Names.FixedFamiliesInjective | go/codegen/names.go:97-115 | Every identifier of these families determines the name it was derived from. |
| Names.VariantsFamilyInjective | go/codegen/names.go:117-136 | Likewise for enumerations and identityrefs, whatever their variants. |
| Names.UnionFamilyInjective | go/codegen/names.go:138-185 | Likewise for unions, however deeply they nest. |
| Names.NewObstacle | go/codegen/names.go:76-93 | Each candidate that is not free meets a taken identifier in a family position that stopped no earlier one, so the search ends. |
| Names.IdentAllocator.Allocate | go/codegen/names.go:71-95 | A known key keeps its name; a new one gets the first candidate whose whole family is free, and the family is reserved. |
| Names.StepSafe | go/codegen/names.go:71-95 | A call keeps all families disjoint from each other and from the reserved identifiers, and all earlier names and families. |
| Names.RunAllocates | go/codegen/names.go:43-58 | Over any sequence of calls equal keys get equal names and different keys get disjoint families, none of them reserved. |

## Left out

- Vendor-compatible fallbacks for augments: they resolve by local name and relax the rules, so confluence does not cover them; a failed mandatory-node check is a flag of the job.
- Schema trees of augments, expansion and projection are values, not linked nodes: sharing and in-place update of children are not captured.
- The pointer tree of projection build nodes is a map from build paths to roles plus the creation order; the path of a node takes the place of its address.
- refine, deviations, `when`, `if-feature` metadata and `config` inheritance (`applyConfigProperty`, `refreshConfigFromParent`) on built nodes.
- The other phases of a rebuild (index building, validation of lists, defaults, types) are functions of the implemented modules; `registerNameDefault` and `preferModuleDefault` are not modelled.
- Module lookup, submodule visibility and prefixes are folded into given scopes and targets.
- Splitting range expressions and paths at `|`, `..` and `/` is taken as done; `parseChildRanges`, `YangRange.Validate` and `Sort` are not modelled.
- Digit separators (`_`) in `ParseInt`, Unicode white space in trimming, `FromFloat` and `Frac`.
- Enumeration, bits, identityref and leafref restrictions in typedefs; patterns; which restriction keyword belongs to which base.
- Error texts, locations and which of several errors is reported, except where a contract names the error.
- Slices shared between union members that were copied as realtypes.
- `safeVariantIdent`: the variants of a family are given, already made distinct.
- `SchemaIRStats` counts other than V1Records, and the path strings in table rows.
- Lexing, parsing, pattern compilation, module search, diagnostics, lint and the emitted JSON parsers.
- SchemaPathProjection.ProjectSchemaPaths: allow and ignore paths are given as the sets of nodes they let through and prune for each target.
- Rebuilds.Context.Rebuild: the phases before and after the amendment step are parameters, so only their effect on errors and implemented modules is captured.
- SchemaBudget.BuildState.Rebuild: the checks between and after the builds are parameters, and the memos that a rebuild resets along with the budget are left to the modules about them.
- Numbers.IntegerRoundTrip: digit separators, which the printed text never contains, are not modelled in ParseInt.
