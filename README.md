# SimiSharp metric and review core, modelled in Dafny

This project models four pieces of the SimiSharp code-metric and code-review engine, using abstract inputs in place of Roslyn and reflection:

- **Cyclomatic complexity counter** (`complexity.dfy`, module `CyclomaticComplexity`).
  - A syntax walker keeps one mutable counter. The counter starts at 1.
  - It adds 1 for every node of a contributor kind: case label, `??`, `?:`, `&&`, `||` and `!`.
  - It adds 1 for every while, for, foreach, if, catch, continue, goto and `default(T)` node.
  - It walks the body of a lambda passed directly as a call argument twice.
  - The walker is the class `InnerComplexityAnalyzer`. Each of its methods is proved to raise the counter by a specification function of the node.
  - Lemmas relate that function to a plain count of decision points, plus the extra count of the argument lambdas.
- **Symbol reference resolver** (`references.dfy`, module `SymbolReferences`).
  - Every strict descendant of a root node is resolved to a symbol. Unresolved nodes are dropped.
  - Each resolved node yields one reference entry, or two for a generic specialisation.
  - The entries are grouped by symbol, in order of first appearance.
  - The semantic model is a datatype of total functions from node identity to optional symbol, symbol kind, `ConstructedFrom` and declared type.
  - A node travels with its whole ancestor chain, so the parent relation is structural.
- **Rule registry** (`rules.dfy`, module `RuleRegistry`).
  - The assembly's type catalog is a list of type descriptors.
  - Syntax rules are the concrete syntax-evaluation types built with no arguments, followed by those built with the spell checker, stably sorted by rule ID.
  - Symbol rules are the concrete symbol-evaluation types built with no arguments, in catalog order.
- **Namespace metric record** (`namespace_metric.dfy`, module `NamespaceMetrics`).
  - The constructor stores its inputs as given.
  - Abstractness is the share of abstract types. It is undefined (NaN in the source) when there are no types.
  - Class coupling is the number of dependencies, duplicates included.

`wrappers.dfy` holds the `Option` datatype shared by the modules, and `seqs.dfy` (module `Sequences`) two facts about sequences used by several of them.

The model follows the code in these places, where other behaviour might be expected:

- Class coupling counts duplicate dependencies.
- A type with both constructor shapes yields two syntax rules.
- A rule type with neither constructor shape is dropped without any report.
- Symbol rules are not sorted.
- For a specialised generic method, the second reference entry is keyed by the method itself, not by its generic definition. That node therefore contributes two identical entries to the method's group.

## Model

| member | source | states |
|---|---|---|
| CyclomaticComplexity.Calculate | src/SimiSharp.Metrics/Metrics/CyclomaticComplexityCounter.cs:22-28 | the result is 1 plus the increments of the walk of the node, 1 for an absent node, and never below 1 |
| CyclomaticComplexity.InnerComplexityAnalyzer.constructor | src/SimiSharp.Metrics/Metrics/CyclomaticComplexityCounter.cs:46-51 | a fresh analyzer's counter is 1 |
| CyclomaticComplexity.InnerComplexityAnalyzer.Calculate | src/SimiSharp.Metrics/Metrics/CyclomaticComplexityCounter.cs:53-61 | an absent node leaves the counter alone, a present one raises it by the increments of its walk; the counter is returned |
| CyclomaticComplexity.InnerComplexityAnalyzer.Visit | src/SimiSharp.Metrics/Metrics/CyclomaticComplexityCounter.cs:32-70 | visiting a node raises the counter by exactly the increments of its kind-specific visit, then 1 more for a case label, `??`, `?:`, `&&`, `||` or `!` node |
| CyclomaticComplexity.InnerComplexityAnalyzer.Accept | src/SimiSharp.Metrics/Metrics/CyclomaticComplexityCounter.cs:63-65 | the dispatch to the override of the node's kind raises the counter by exactly what that override does |
| CyclomaticComplexity.InnerComplexityAnalyzer.VisitBranch | src/SimiSharp.Metrics/Metrics/CyclomaticComplexityCounter.cs:72-162 | a while, for, foreach, default, continue, goto, if or catch node raises the counter by its children's increments plus 1 |
| CyclomaticComplexity.InnerComplexityAnalyzer.VisitArgument | src/SimiSharp.Metrics/Metrics/CyclomaticComplexityCounter.cs:111-132 | an argument whose expression is a lambda adds the lambda body's increments once more before the ordinary descent |
| CyclomaticComplexity.InnerComplexityAnalyzer.DefaultVisit | src/SimiSharp.Metrics/Metrics/CyclomaticComplexityCounter.cs:65 | the default descent raises the counter by the sum of the children's increments |
| CyclomaticComplexity.InnerComplexityAnalyzer.VisitEach | src/SimiSharp.Metrics/Metrics/CyclomaticComplexityCounter.cs:65 | walking children in order raises the counter by the sum of their increments; the counter never decreases |
| CyclomaticComplexity.VisitsDecompose | src/SimiSharp.Metrics/Metrics/CyclomaticComplexityCounter.cs:44-162 | a walk's increments are the decision points of the tree (contributors and branch kinds, each nested decision point counted on its own) plus the bodies of lambdas passed directly as arguments |
| CyclomaticComplexity.VisitsDecomposeEach | src/SimiSharp.Metrics/Metrics/CyclomaticComplexityCounter.cs:44-162 | the same decomposition for a sequence of sibling nodes |
| CyclomaticComplexity.NeutralTreeScoresOne | src/SimiSharp.Metrics/Metrics/CyclomaticComplexityCounter.cs:44-162 | a tree with no counted kind anywhere adds nothing and scores 1 |
| CyclomaticComplexity.NeutralEachScoresNothing | src/SimiSharp.Metrics/Metrics/CyclomaticComplexityCounter.cs:44-162 | siblings with no counted kind add nothing |
| CyclomaticComplexity.DecisionPointAddsOne | src/SimiSharp.Metrics/Metrics/CyclomaticComplexityCounter.cs:32-40 | a contributor or branch node adds exactly 1 on top of its children |
| CyclomaticComplexity.InlineLambdaBodyCountedTwice | src/SimiSharp.Metrics/Metrics/CyclomaticComplexityCounter.cs:111-132 | an argument holding a lambda counts the lambda body twice, its name colon and parameters once |
| CyclomaticComplexity.OtherArgumentWalkedOnce | src/SimiSharp.Metrics/Metrics/CyclomaticComplexityCounter.cs:111-132 | an argument whose expression is not a lambda counts its name colon and expression exactly once |
| CyclomaticComplexity.VisitsMultiplied | src/SimiSharp.Metrics/Metrics/CyclomaticComplexityCounter.cs:44-162 | a walk's increments (times m) equal every decision point weighted by 2 to the power of the number of inline-lambda bodies enclosing it, so nested inline lambdas compound |
| CyclomaticComplexity.VisitsMultipliedEach | src/SimiSharp.Metrics/Metrics/CyclomaticComplexityCounter.cs:44-162 | the same closed form for a sequence of sibling nodes |
| CyclomaticComplexity.ArgumentMultiplied | src/SimiSharp.Metrics/Metrics/CyclomaticComplexityCounter.cs:111-132 | the closed form for an argument: a lambda body is weighted twice as much as the argument itself, any other expression the same |
| CyclomaticComplexity.ElseIfScoresThree | src/SimiSharp.Metrics/Metrics/CyclomaticComplexityCounter.cs:152-156 | `if (a) {} else if (b) {}` scores 3: the nested if in the else clause is walked too |
| CyclomaticComplexity.WhileIfContinueScoresFour | src/SimiSharp.Metrics/Metrics/CyclomaticComplexityCounter.cs:72-76 | a while loop holding an if with a continue scores 4 |
| CyclomaticComplexity.InlineLambdaIfScoresThree | src/SimiSharp.Metrics/Metrics/CyclomaticComplexityCounter.cs:111-132 | a call whose lambda argument's body is a single if scores 3, not 2 |
| CyclomaticComplexity.InlineCallDoubles | src/SimiSharp.Metrics/Metrics/CyclomaticComplexityCounter.cs:111-132 | a call whose only argument is a simple lambda counts twice the lambda body |
| CyclomaticComplexity.NestedInlineLambdaIfScoresFive | src/SimiSharp.Metrics/Metrics/CyclomaticComplexityCounter.cs:111-132 | `f(x => f(y => { if (c) {} }))` scores 5: the if inside two inline lambdas counts four times |
| CyclomaticComplexity.NestDoubles | src/SimiSharp.Metrics/Metrics/CyclomaticComplexityCounter.cs:111-132 | a body nested d inline-lambda calls deep is walked 2 to the power d times |
| CyclomaticComplexity.NestedIfPassesInt32Max | src/SimiSharp.Metrics/Metrics/CyclomaticComplexityCounter.cs:44-162 | one if statement inside d nested inline lambdas, d at least 31, scores 2 to the power d plus 1, more than the largest 32-bit signed integer |
| SymbolReferences.Parent | src/SimiSharp.Metrics/ReferenceResolvers/SymbolReferenceResolver.cs:68 | a node has a parent exactly when its ancestor chain is non-empty; the parent is the last ancestor and keeps the rest of the chain |
| SymbolReferences.Descendants | src/SimiSharp.Metrics/ReferenceResolvers/SymbolReferenceResolver.cs:27 | every node returned lies strictly below the root (its ancestor chain is the root's chain, then the root, then more), and every child of the root is returned |
| SymbolReferences.DescendantsOfEach | src/SimiSharp.Metrics/ReferenceResolvers/SymbolReferenceResolver.cs:27 | every node returned extends the siblings' common ancestor chain, and every sibling and every node below a sibling is returned |
| SymbolReferences.OnlySubtreesOfEach | src/SimiSharp.Metrics/ReferenceResolvers/SymbolReferenceResolver.cs:27 | nothing else is returned: each node returned for a list of siblings is one of them or lies below one of them |
| SymbolReferences.DescendantsExactly | src/SimiSharp.Metrics/ReferenceResolvers/SymbolReferenceResolver.cs:27 | the nodes examined are exactly the root's children and the nodes below them, both directions |
| SymbolReferences.DescendantsCount | src/SimiSharp.Metrics/ReferenceResolvers/SymbolReferenceResolver.cs:27 | the nodes examined number exactly the nodes of the tree besides the root, so none is examined twice |
| SymbolReferences.DescendantsOfEachCount | src/SimiSharp.Metrics/ReferenceResolvers/SymbolReferenceResolver.cs:27 | the subtrees of siblings hold exactly as many nodes as the siblings' trees together |
| SymbolReferences.DescendantsOfEachConcat | src/SimiSharp.Metrics/ReferenceResolvers/SymbolReferenceResolver.cs:27 | subtrees are examined in sibling order: those of a split sibling list are the first part's followed by the second's |
| SymbolReferences.RootNotExamined | src/SimiSharp.Metrics/ReferenceResolvers/SymbolReferenceResolver.cs:27 | the root itself is never among the examined nodes |
| SymbolReferences.ResolveContainingType | src/SimiSharp.Metrics/ReferenceResolvers/SymbolReferenceResolver.cs:61-76 | none for an absent node or when no strict ancestor is a type declaration; otherwise the declared type of the nearest type-declaration ancestor |
| SymbolReferences.ContainingTypeIgnoresNode | src/SimiSharp.Metrics/ReferenceResolvers/SymbolReferenceResolver.cs:68-69 | the node itself is never tested: two nodes with the same ancestors get the same containing type |
| SymbolReferences.GetSymbolDetails | src/SimiSharp.Metrics/ReferenceResolvers/SymbolReferenceResolver.cs:43-59 | one or two entries; the first is keyed by the symbol with the node's location and containing type; a second exactly for a specialisation, keyed by the generic definition for a named type and a copy of the first for a method |
| SymbolReferences.ResolvedNodes | src/SimiSharp.Metrics/ReferenceResolvers/SymbolReferenceResolver.cs:27-34 | a (symbol, node) pair is kept exactly when the node was examined and resolves to that symbol, and as often as the node occurs among the examined nodes; unresolved nodes are dropped |
| SymbolReferences.ResolvedNodesConcat | src/SimiSharp.Metrics/ReferenceResolvers/SymbolReferenceResolver.cs:27-34 | resolving keeps the order of the examined nodes: the pairs of a split list are the first part's followed by the second's |
| SymbolReferences.SelectDetails | src/SimiSharp.Metrics/ReferenceResolvers/SymbolReferenceResolver.cs:35 | the flattened entries contain every entry of every resolved node with at least its own multiplicity and nothing else, and number between one and two per resolved node in total |
| SymbolReferences.SelectDetailsOfOne | src/SimiSharp.Metrics/ReferenceResolvers/SymbolReferenceResolver.cs:35 | a single resolved node is flattened to exactly its own entries |
| SymbolReferences.SelectDetailsConcat | src/SimiSharp.Metrics/ReferenceResolvers/SymbolReferenceResolver.cs:35 | flattening keeps node order: the entries of a split list are the first part's followed by the second's, so with SelectDetailsOfOne each node contributes exactly its own entries, in place |
| SymbolReferences.Keys | src/SimiSharp.Metrics/ReferenceResolvers/SymbolReferenceResolver.cs:36 | group keys are distinct and are exactly the symbols of the entries |
| SymbolReferences.ElementsOf | src/SimiSharp.Metrics/ReferenceResolvers/SymbolReferenceResolver.cs:36 | a key's group holds each location as often as an entry with that key and location occurs |
| SymbolReferences.GroupKeysDistinct | src/SimiSharp.Metrics/ReferenceResolvers/SymbolReferenceResolver.cs:36 | no two groups share a key |
| SymbolReferences.GroupKeysAreEntrySymbols | src/SimiSharp.Metrics/ReferenceResolvers/SymbolReferenceResolver.cs:36 | every group's key is the symbol of some entry (with EntryInOwnGroup: the group keys are exactly the entry symbols) |
| SymbolReferences.GroupsNonEmpty | src/SimiSharp.Metrics/ReferenceResolvers/SymbolReferenceResolver.cs:36 | every group holds at least one location |
| SymbolReferences.EntryInOwnGroup | src/SimiSharp.Metrics/ReferenceResolvers/SymbolReferenceResolver.cs:36 | every entry's location lies in the group of its own symbol |
| SymbolReferences.GroupSizesSum | src/SimiSharp.Metrics/ReferenceResolvers/SymbolReferenceResolver.cs:36 | the group sizes sum to the number of entries |
| SymbolReferences.Resolve | src/SimiSharp.Metrics/ReferenceResolvers/SymbolReferenceResolver.cs:23-41 | the index of a subtree has pairwise distinct keys and non-empty groups, and its groups hold exactly as many locations as there are entries |
| SymbolReferences.GroupMultiplicity | src/SimiSharp.Metrics/ReferenceResolvers/SymbolReferenceResolver.cs:36 | a group holds a location exactly as many times as entries with its key and that location occur |
| SymbolReferences.KeysCoverEntries | src/SimiSharp.Metrics/ReferenceResolvers/SymbolReferenceResolver.cs:36 | the entries under all the keys add up to all the entries |
| SymbolReferences.TotalSizeOfGroups | src/SimiSharp.Metrics/ReferenceResolvers/SymbolReferenceResolver.cs:36 | the groups' total size is the number of entries under their keys |
| SymbolReferences.EntryCountBounds | src/SimiSharp.Metrics/ReferenceResolvers/SymbolReferenceResolver.cs:23-41 | the number of entries lies between the number of resolved descendants and twice that number |
| SymbolReferences.EntryFromResolvedNode | src/SimiSharp.Metrics/ReferenceResolvers/SymbolReferenceResolver.cs:31-35 | every entry comes from an examined node that resolves to a symbol, so an unresolved node contributes nothing |
| SymbolReferences.ResolvedNodeEntries | src/SimiSharp.Metrics/ReferenceResolvers/SymbolReferenceResolver.cs:35 | every entry of every resolved descendant reaches the index with its multiplicity |
| SymbolReferences.ReferenceIndexedUnderSymbol | src/SimiSharp.Metrics/ReferenceResolvers/SymbolReferenceResolver.cs:45-46 | every resolved descendant's location and containing type appear in the group of its own symbol |
| SymbolReferences.TypeSpecialisationIndexedUnderDefinition | src/SimiSharp.Metrics/ReferenceResolvers/SymbolReferenceResolver.cs:48-52 | a specialised named type's reference also appears, with the same location and containing type, in the group of its generic definition |
| SymbolReferences.MethodSpecialisationIndexedTwice | src/SimiSharp.Metrics/ReferenceResolvers/SymbolReferenceResolver.cs:54-58 | a specialised method's node yields two identical entries keyed by the method itself, and that group holds the location at least twice |
| SymbolReferences.SizeUnderStep | src/SimiSharp.Metrics/ReferenceResolvers/SymbolReferenceResolver.cs:36 | appending an entry adds it once under each listing of its key |
| SymbolReferences.DistinctOccursOnce | src/SimiSharp.Metrics/ReferenceResolvers/SymbolReferenceResolver.cs:36 | in a list of distinct keys each key occurs at most once |
| RuleRegistry.Candidates | src/SimiSharp.CodeReview.Rules/AllRules.cs:25-28 | keeps exactly the non-interface, non-abstract types implementing the evaluation interface, each as often as in the catalog |
| RuleRegistry.Parameterless | src/SimiSharp.CodeReview.Rules/AllRules.cs:29-32 | one no-argument instance per type with a parameterless constructor, and no other instance |
| RuleRegistry.SpellChecking | src/SimiSharp.CodeReview.Rules/AllRules.cs:33-40 | one spell-checker instance per type with a constructor taking just a spell checker, and no other instance (order: SpellCheckingConcat) |
| RuleRegistry.InsertPermutes | src/SimiSharp.CodeReview.Rules/AllRules.cs:42 | inserting into the sorted prefix adds exactly the inserted element |
| RuleRegistry.InsertKeepsSorted | src/SimiSharp.CodeReview.Rules/AllRules.cs:42 | inserting into a sequence sorted by ID keeps it sorted |
| RuleRegistry.InsertWithKey | src/SimiSharp.CodeReview.Rules/AllRules.cs:42 | inserting places the element before all elements with its ID, and leaves the order among equal IDs otherwise unchanged |
| RuleRegistry.OrderBy | src/SimiSharp.CodeReview.Rules/AllRules.cs:42 | the result is sorted by ID and a permutation of the input |
| RuleRegistry.OrderBySortsStably | src/SimiSharp.CodeReview.Rules/AllRules.cs:42 | the ordering is sorted by ID, a permutation, and stable: the elements with one ID keep their relative order |
| RuleRegistry.WithKeyConcat | src/SimiSharp.CodeReview.Rules/AllRules.cs:42 | the elements with one ID of a concatenation are those of the first part followed by those of the second |
| RuleRegistry.GetSyntaxRules | src/SimiSharp.CodeReview.Rules/AllRules.cs:23-43 | the syntax rules are sorted by ID and a permutation of the no-argument instances together with the spell-checker instances of the syntax-rule candidates |
| RuleRegistry.SyntaxRulesOrdered | src/SimiSharp.CodeReview.Rules/AllRules.cs:23-43 | the syntax rules are sorted by ID, a permutation of the parameterless instances followed by the spell-checker instances with the length of both lists together, and among equal IDs list the parameterless ones first, each in catalog order |
| RuleRegistry.SyntaxRuleMultiplicity | src/SimiSharp.CodeReview.Rules/AllRules.cs:25-40 | a type yields one no-argument rule per catalog entry exactly when it is a concrete syntax rule with a parameterless constructor, one spell-checker rule exactly when it has a spell-checker constructor, and no rule is built any other way |
| RuleRegistry.SyntaxRuleShapes | src/SimiSharp.CodeReview.Rules/AllRules.cs:29-42 | no deduplication: a type with both constructor shapes yields two rules; one with neither yields none |
| RuleRegistry.GetSymbolRules | src/SimiSharp.CodeReview.Rules/AllRules.cs:45-58 | symbol rules are exactly one no-argument instance per catalog entry of a concrete symbol-rule type with a parameterless constructor, and no instance built another way |
| RuleRegistry.SymbolRulesFollowCatalog | src/SimiSharp.CodeReview.Rules/AllRules.cs:45-58 | symbol rules keep catalog order: the rules of a split catalog are the first part's followed by the second's |
| RuleRegistry.CandidatesConcat | src/SimiSharp.CodeReview.Rules/AllRules.cs:47-50 | the candidate filter keeps catalog order across a split catalog |
| RuleRegistry.ParameterlessConcat | src/SimiSharp.CodeReview.Rules/AllRules.cs:52-55 | the no-argument instances keep type order across a split type list |
| RuleRegistry.SpellCheckingConcat | src/SimiSharp.CodeReview.Rules/AllRules.cs:33-40 | the spell-checker instances keep type order across a split type list |
| NamespaceMetrics.NewNamespaceMetric | src/SimiSharp.Metrics/Metrics/NamespaceMetric.cs:22-41 | every stored property reads back its constructor argument, the dependencies and type metrics in input order; abstractness is the share of abstract types given by `Abstractness`, undefined exactly when there are no types |
| NamespaceMetrics.AbstractCount | src/SimiSharp.Metrics/Metrics/NamespaceMetric.cs:40 | the abstract count is at most the number of types, 0 exactly when no type is abstract and the total exactly when all are |
| NamespaceMetrics.Abstractness | src/SimiSharp.Metrics/Metrics/NamespaceMetric.cs:40 | undefined exactly when there are no types; otherwise a value in [0, 1] that times the number of types gives the abstract count |
| NamespaceMetrics.AbstractnessExtremes | src/SimiSharp.Metrics/Metrics/NamespaceMetric.cs:40 | with at least one type, abstractness is 0 when no type is abstract and 1 when all are |
| NamespaceMetrics.NamespaceMetric.ClassCoupling | src/SimiSharp.Metrics/Metrics/NamespaceMetric.cs:61 | class coupling is at least the number of distinct dependencies, and equal to it exactly when no dependency repeats |
| NamespaceMetrics.DistinctElementsBound | src/SimiSharp.Metrics/Metrics/NamespaceMetric.cs:61 | a list has at most as many distinct elements as entries, with equality exactly when nothing repeats |

## Left out

- Roslyn is not modelled: parsing, the syntax walker's dispatch machinery, `GetSymbolInfo`, `GetDeclaredSymbol` and `GetSemanticModel`.
  - Syntax trees are the `Node` and `SyntaxNode` datatypes.
  - The semantic model is a datatype of total functions over node and symbol identities.
  - `GetLocation` is stood for by the node's identity.
- `ReferenceLocation` is modelled as just a (location, referencing type) pair. Its copy of the semantic model is dropped.
- Cyclomatic complexity: the walker's stored semantic model is never read, and the commented-out task-complexity code is not modelled.
- CyclomaticComplexity.Calculate: does not model 32-bit wrap-around of the counter, which is an unbounded integer here. Because inline lambdas compound (NestDoubles), one decision point inside 31 nested inline lambdas already takes the score past the largest 32-bit value (NestedIfPassesInt32Max); there the source's unchecked counter wraps to a negative score, so `result >= 1` holds for the source only below that.
- CyclomaticComplexity.InnerComplexityAnalyzer.VisitBranch: the three goto forms (goto, goto case, goto default) share one kind, since they share one syntax class and one override.
- Reflection is not modelled: `Assembly.GetTypes`, `GetConstructors` and `Activator.CreateInstance`.
  - The catalog is a list of type descriptors.
  - Constructor exceptions, ambiguous constructors and non-public constructors are out of scope.
- RuleRegistry.SyntaxRulesOrdered: the culture-sensitive comparison of rule IDs is an arbitrary rank function on IDs. Equal ranks count as ties.
- Rule IDs are a field of each type's descriptor. The model assumes every instance of a type reports the same ID.
- Floating point is not modelled.
  - Abstractness is an exact real with an explicit undefined case in place of NaN.
  - The maintainability index is a stored real that is never computed on.
- The namespace metric reads only `IsAbstract` of a type metric and no field of a coupling. The name of a type metric and the type, namespace and assembly names of a coupling are stand-ins this model chose. The "distinct dependencies" in the contract of `NamespaceMetric.ClassCoupling` are distinct under equality of those three names, not under the coupling interface's own equality.
- The command-line program (`src/SimiSharp.Core/Program.cs`) and the type-documentation interface (`src/SimiSharp.Metrics/Common/Metrics/ITypeDocumentation.cs`) are not part of this model. The first is argument parsing and console output; the second declares no behaviour.
