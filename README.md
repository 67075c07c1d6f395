# Study-design core in Dafny

This project models the shared study-design package. A study design declares:

- variables and instruments (instruments have named items), each with a data type and a marginal distribution;
- directed correlation effects `source -> target` between their names.

The package has three parts, and the model has a module for each, plus one for graphs:

- **Entity model** (`StudyModel`, `study_model.dfy`). The node, distribution, effect and design records. The schema constraints appear as predicates:
  - the variable-name rule (`^[^0-9\s]\S*$`, at most 70 UTF-16 units);
  - the positive-number and coefficient ranges;
  - category lists of at least two;
  - the distributions each data type allows, and the default distribution of each type;
  - the three study types.
- **Directed graphs** (`Digraph`, `digraph.dfy`):
  - graphs as sets of name pairs;
  - walks, reachability by zero or more edges, and acyclicity;
  - the adjacency maps both graph routines build, and the edges a map describes.
- **Graph utilities** (`GraphUtils`, `graph_utils.dfy`). These are the editor's helpers that offer the legal sources for a chosen target, or the legal targets for a chosen source.
  - `BuildAdjacency` is the adjacency loop.
  - `PathExists` is the breadth-first search, with its queue and visited set. It is proved to answer exactly "is `end` reachable from `start`", and to terminate because each node is expanded at most once.
  - `GetAvailableSources` / `GetAvailableTargets` are proved equal to a filter specification.
  - Lemmas about that specification prove:
    - membership;
    - that adding an offered edge to an acyclic graph keeps it acyclic;
    - that every withheld source, and every withheld target, would close a cycle;
    - the source/target duality;
    - the cases of the repository's own tests.
- **Validator** (`Validator`, `validator.dfy`, with the properties in `ValidatorProperties`, `validator_properties.dfy`).
  - `ValidateStudyDesign` follows the source step by step:
    - the schema check;
    - the duplicate-name loop over variables and instrument items, with names kept in an insertion-ordered list standing in for the script's `Set`;
    - the effect loop, which checks for a missing source, a missing target and a self-reference, and adds resolved effects to the graph;
    - the depth-first cycle search, a class `CycleSearch` holding `visited` and `recursionStack`;
    - the outer loop over names, which stops at the first cycle.
  - Its result is proved equal to the specification function `Validation`. The lemmas then state what that result contains:
    - the error at each path;
    - the order of the errors;
    - exactly when a design is accepted;
    - that a design stays accepted when an offered edge is added.

The schema library's check works on arbitrary values. Here it is the hand-written predicate `StudyDesignSchema` over loosely typed records: tags are strings, optional keys are `Option`s, and undeclared keys are ignored, as the library does. The library's failure summary is a parameter of `ValidateStudyDesign`.

Error paths are modelled as the datatype `ErrorPath`, and `PathText` renders it as the source's template strings (`variables[3]`, `variables[0].items[2]`, `effects[1]`, `effects`, `schema`). `PathTextInjective` proves that distinct paths render to distinct strings.

## Behaviour worth knowing

- Only variable names are checked against the name pattern (`packages/shared/mod.ts:61`). Instrument names and item names are any strings, the empty string included (`packages/shared/mod.ts:80`, `:102`). Name uniqueness is reported by the validator, not enforced by the schema.
- The graph helpers return the names of `allNodeNames` that pass the filter, keeping that list's order and any repeats (`packages/shared/graph_utils.ts:57-68`, `:121-132`).
- The breadth-first search has no visit bound. It stops because `visited` only grows and a node is expanded only once (`packages/shared/graph_utils.ts:39-52`).
- `CategoryList` requires at least two strings. It does not require them to be distinct (`packages/shared/mod.ts:14`).
- A uniform distribution's `min` and `max` are not compared with each other (`packages/shared/mod.ts:32-36`). The categorical `{type: 'uniform'}` carries no parameters and ignores any extra ones (`packages/shared/mod.ts:38-40`).
- An effect may target an ordinal or nominal node. Neither the schema nor the validator rejects it (`packages/shared/mod.ts:127-133`, `packages/shared/validator.ts:58-78`).
- An empty target or source name means "nothing chosen yet", and then every name is offered (`packages/shared/graph_utils.ts:18`, `:86`). The cycle-safety lemmas therefore hold for non-empty names. "## Findings" shows what happens for a node actually named `""`.

## Model

| member | source | states |
|---|---|---|
| StudyModel.Utf16Length | packages/shared/mod.ts:11 | the length a name has in UTF-16 units lies between its character count and twice that |
| StudyModel.NonSpaceTailMeansNoSpace | packages/shared/mod.ts:11 | the tail `\S*$` matches from position i exactly when no character from i on is white space |
| StudyModel.VariableNameCharacterization | packages/shared/mod.ts:10-11 | a name is valid iff it is non-empty, its first character is neither a digit nor white space, it contains no white space, and it has at most 70 UTF-16 units; a valid name has at most 70 characters |
| StudyModel.ParseVariableType | packages/shared/mod.ts:48 | a string parses to a data type exactly when it is that type's name |
| StudyModel.DefaultDistribution | packages/shared/mod.ts:42-57 | the default distribution of every data type is one that type allows |
| StudyModel.AcceptedNodeFacts | packages/shared/mod.ts:26-121 | an accepted node is a variable or an instrument; a variable has a valid name; instruments are never continuous and have items; ordinal and nominal nodes have at least two categories; the distribution is one the type allows; a normal distribution has 0 < stdDev <= 1e9; nominal nodes are uniform; continuous nodes are normal or uniform with bounds |
| StudyModel.InstrumentNamesUnconstrained | packages/shared/mod.ts:100-116 | an accepted instrument stays accepted with any name and any item names |
| StudyModel.AcceptedDesignFacts | packages/shared/mod.ts:127-141 | an accepted design has one of the three study types, and every effect is a correlation with coefficient in [-1, 1] |
| StudyModel.BareDesignAccepted | packages/shared/mod.ts:137-141 | `variables` and `effects` are optional: without them, or with them empty, a design is accepted iff its study type is one of the three |
| StudyModel.IsPositiveNumber | packages/shared/mod.ts:6 | definition: greater than 0 and at most 1e9 |
| StudyModel.IsCoefficient | packages/shared/mod.ts:132 | definition: between -1 and 1, both included |
| StudyModel.IsWhitespace | packages/shared/mod.ts:11 | definition: the characters the pattern class `\s` matches |
| StudyModel.MatchesNamePattern | packages/shared/mod.ts:11 | definition: the pattern `^[^0-9\s]\S*$` |
| StudyModel.IsVariableName | packages/shared/mod.ts:11 | definition: the name pattern and at most 70 UTF-16 units |
| StudyModel.CategoryList | packages/shared/mod.ts:14 | definition: a list of at least two strings is present |
| StudyModel.TypeName | packages/shared/mod.ts:17-19 | definition: the names of the three data types |
| StudyModel.ValidDistributions | packages/shared/mod.ts:42-46 | definition: normal or uniform for continuous and ordinal data, uniform only for nominal data |
| StudyModel.NormalDistribution | packages/shared/mod.ts:26-30 | definition: tag `normal`, a mean, and a positive number as stdDev |
| StudyModel.UniformDistribution | packages/shared/mod.ts:32-36 | definition: tag `uniform` with both bounds present |
| StudyModel.CategoricalUniform | packages/shared/mod.ts:38-40 | definition: tag `uniform`, other keys ignored |
| StudyModel.ContinuousDistribution | packages/shared/mod.ts:63 | definition: normal or uniform with bounds |
| StudyModel.OrdinalDistribution | packages/shared/mod.ts:69 | definition: normal or categorical uniform |
| StudyModel.VariableSchema | packages/shared/mod.ts:59-76 | definition: the continuous, ordinal and nominal alternatives of a variable |
| StudyModel.InstrumentSchema | packages/shared/mod.ts:100-116 | definition: the ordinal and nominal alternatives of an instrument, with items present |
| StudyModel.StudyNodeSchema | packages/shared/mod.ts:121 | definition: a variable or an instrument |
| StudyModel.EffectSchema | packages/shared/mod.ts:127-133 | definition: a correlation with a coefficient in range |
| StudyModel.IsStudyType | packages/shared/mod.ts:138 | definition: one of `cross-sectional`, `cohort` and `case-control` |
| StudyModel.StudyDesignSchema | packages/shared/mod.ts:137-141 | definition: a study type, and optional lists of accepted nodes and accepted effects |
| Digraph.AdjEdgesAppend | packages/shared/graph_utils.ts:27-30 | appending v to u's neighbour list adds exactly the edge u -> v |
| Digraph.AddEdgeKeepsAcyclic | packages/shared/graph_utils.ts:21-23 | adding c -> t to an acyclic graph keeps it acyclic when c is not reachable from t |
| Digraph.PathThenEdgeIsCycle | packages/shared/graph_utils.ts:21-23 | if c is reachable from t, adding c -> t closes a cycle |
| Digraph.WalkBackEdgeIsCycle | packages/shared/validator.ts:93-94 | an edge from the end of a walk back to a node on it makes the graph cyclic |
| Digraph.RankedGraphIsAcyclic | packages/shared/validator.ts:81-100 | a graph whose edges all lower a natural-number rank has no cycle |
| Digraph.EmptyGraphReachable | packages/shared/graph_utils.ts:34 | with no edges a node reaches exactly itself |
| Digraph.Reachable | packages/shared/graph_utils.ts:32-54 | definition: some walk of zero or more edges leads from the first name to the second |
| Digraph.Acyclic | packages/shared/validator.ts:80-114 | definition: no edge can be followed back to its source |
| Digraph.Neighbors | packages/shared/graph_utils.ts:45 | definition: `adj.get(u) \|\| []` |
| Digraph.AdjEdges | packages/shared/graph_utils.ts:25-30 | definition: the edges an adjacency map describes |
| GraphUtils.EffectGraphAppend | packages/shared/graph_utils.ts:27-30 | helper: one more effect adds exactly its edge to the effect graph |
| GraphUtils.BuildAdjacency | packages/shared/graph_utils.ts:25-30 | every node's neighbour list is the targets of its effects in effect order, and the map's edges are exactly the effect graph |
| GraphUtils.PathExists | packages/shared/graph_utils.ts:33-54 | the search answers true iff `end` is reachable from `start` by zero or more edges |
| GraphUtils.GetAvailableSources | packages/shared/graph_utils.ts:12-69 | an empty target returns all names unchanged; otherwise the result is the specification `AvailableSources` |
| GraphUtils.GetAvailableTargets | packages/shared/graph_utils.ts:80-133 | an empty source returns all names unchanged; otherwise the result is the specification `AvailableTargets` |
| GraphUtils.SourcesForMembers | packages/shared/graph_utils.ts:57-68 | c is kept as a source iff it is a listed name, differs from the target, and the target does not reach it |
| GraphUtils.TargetsForMembers | packages/shared/graph_utils.ts:121-132 | c is kept as a target iff it is a listed name, differs from the source, and it does not reach the source |
| GraphUtils.AvailableSourcesMembers | packages/shared/graph_utils.ts:57-68 | for a non-empty target, c is offered as a source iff c is listed, c differs from the target, and no path leads from the target to c over the effects |
| GraphUtils.AvailableTargetsMembers | packages/shared/graph_utils.ts:121-132 | for a non-empty source, c is offered as a target iff c is listed, c differs from the source, and no path leads from c to the source |
| GraphUtils.AvailableSourceKeepsAcyclic | packages/shared/graph_utils.ts:57-68 | for a non-empty target, adding an effect from an offered source to the target keeps an acyclic effect graph acyclic |
| GraphUtils.AvailableTargetKeepsAcyclic | packages/shared/graph_utils.ts:121-132 | for a non-empty source, adding an effect from the source to an offered target keeps an acyclic effect graph acyclic |
| GraphUtils.WithheldSourceClosesCycle | packages/shared/graph_utils.ts:62-65 | for a non-empty target, a listed name other than the target that is not offered as a source would close a cycle |
| GraphUtils.WithheldTargetClosesCycle | packages/shared/graph_utils.ts:124-129 | for a non-empty source, a listed name other than the source that is not offered as a target would close a cycle |
| GraphUtils.SourcesTargetsDuality | packages/shared/graph_utils.ts:60-65 | for non-empty listed names s and t, t is an offered target of s iff s is an offered source of t |
| GraphUtils.Link | packages/shared/graph_utils.test.ts:5-11 | definition: the tests' effect builder, with id `eff_<source>_<target>`, a correlation and coefficient 0.5 |
| GraphUtils.NoEffectsOffersAllOthers | packages/shared/graph_utils.test.ts:13-20 | with no effects, the offered sources and targets of x are the names other than x, in order |
| GraphUtils.TwoChainsReachability | packages/shared/graph_utils.test.ts:55-72 | in A -> B, C -> D, C reaches D but neither A nor B |
| GraphUtils.TwoChainsSourcesForC | packages/shared/graph_utils.test.ts:55-72 | with A -> B and C -> D, the sources offered for C are exactly [A, B] |
| GraphUtils.EdgeOffersNoSourceForHead | packages/shared/graph_utils.test.ts:22-34 | with A -> B, no source is offered for A |
| GraphUtils.EdgeOffersNoTargetForTail | packages/shared/graph_utils.test.ts:84-95 | with A -> B, no target is offered for B |
| GraphUtils.ChainOffersNoSourceForHead | packages/shared/graph_utils.test.ts:36-53 | with A -> B -> C, no source is offered for A |
| GraphUtils.ChainOffersNoTargetForTail | packages/shared/graph_utils.test.ts:97-112 | with A -> B -> C, no target is offered for C |
| GraphUtils.EffectGraph | packages/shared/graph_utils.ts:27-30 | definition: one edge per effect, dangling ones included |
| GraphUtils.TargetsOf | packages/shared/graph_utils.ts:27-30 | definition: the targets of a source's effects, in effect order |
| GraphUtils.CanBeSource | packages/shared/graph_utils.ts:60-65 | definition: not the target, and not reachable from it |
| GraphUtils.CanBeTarget | packages/shared/graph_utils.ts:124-129 | definition: not the source, and not reaching it |
| GraphUtils.SourcesFor | packages/shared/graph_utils.ts:57-68 | definition: the names that may be sources, in list order |
| GraphUtils.TargetsFor | packages/shared/graph_utils.ts:121-132 | definition: the names that may be targets, in list order |
| GraphUtils.AvailableSources | packages/shared/graph_utils.ts:12-69 | definition: every name for an empty target, else the filter |
| GraphUtils.AvailableTargets | packages/shared/graph_utils.ts:80-133 | definition: every name for an empty source, else the filter |
| GraphUtils.EmptyNameGraphs | packages/shared/graph_utils.ts:18 | helper: the edge `"" -> a` alone, and `a -> ""` alone, are acyclic; together they form a cycle |
| GraphUtils.EmptyTargetOfferCloseCycle | packages/shared/graph_utils.ts:18 | as written: for a node named `""`, `a` is offered as a source, and the offered edge closes a cycle in an acyclic graph |
| GraphUtils.EmptySourceOfferCloseCycle | packages/shared/graph_utils.ts:86 | as written: for a node named `""`, `a` is offered as a target, and the offered edge closes a cycle in an acyclic graph |
| GraphUtils.SelectedSources | packages/shared/graph_utils.ts:18 | definition: the corrected query, with "nothing chosen" as `None`, apart from every name |
| GraphUtils.SelectedTargets | packages/shared/graph_utils.ts:86 | definition: the corrected query, with "nothing chosen" as `None`, apart from every name |
| GraphUtils.SelectedAgreesWhenNonEmpty | packages/shared/graph_utils.ts:18 | for every non-empty name, the corrected queries give what the code gives |
| GraphUtils.SelectedSourceKeepsAcyclic | packages/shared/graph_utils.ts:57-68 | corrected: for every chosen target, the empty name included, adding an offered source keeps an acyclic effect graph acyclic |
| GraphUtils.SelectedTargetKeepsAcyclic | packages/shared/graph_utils.ts:121-132 | corrected: for every chosen source, the empty name included, adding an offered target keeps an acyclic effect graph acyclic |
| Validator.NatToString | packages/shared/validator.ts:35 | an index renders as a non-empty string of decimal digits |
| Validator.NatToStringRoundTrip | packages/shared/validator.ts:35 | reading the rendered digits back gives the index |
| Validator.NumeralInjective | packages/shared/validator.ts:35 | distinct indices render differently |
| Validator.VariablePathsInjective | packages/shared/validator.ts:35 | `variables[i]` paths of distinct indices differ |
| Validator.VariableIsNotItem | packages/shared/validator.ts:35-44 | no `variables[i]` path equals a `variables[k].items[l]` path |
| Validator.ItemPathsInjective | packages/shared/validator.ts:44 | `variables[i].items[j]` determines both i and j |
| Validator.EffectPathsInjective | packages/shared/validator.ts:61 | `effects[i]` paths of distinct indices differ |
| Validator.PathTextStart | packages/shared/validator.ts:22-113 | helper: the first letter of every path says which check wrote it; effect paths are at least 10 long and `effects` is 7 long |
| Validator.PathTextInjective | packages/shared/validator.ts:22-113 | distinct error paths render to distinct strings |
| Validator.DuplicateErrorsAppend | packages/shared/validator.ts:34-37 | helper: one more name adds a duplicate error exactly when the name was seen before |
| Validator.ResolvedGraphAppend | packages/shared/validator.ts:73-77 | helper: one more effect adds its edge to the cycle graph exactly when both endpoints are known names |
| Validator.ResolvedGraphEndpoints | packages/shared/validator.ts:73-77 | every edge of the cycle graph joins two known names |
| Validator.RecordEntry | packages/shared/validator.ts:34-37 | checking and adding one name keeps the name list equal, as a set, to all names seen, without repeats, and adds the duplicate error iff the name was seen |
| Validator.NameEntriesStep | packages/shared/validator.ts:32-50 | helper: the names visited after variable i are those before it, then its own name, then its items' names |
| Validator.ItemEntriesStep | packages/shared/validator.ts:42-48 | helper: the item names visited grow by one item at a time, in item order |
| Validator.CollectItemNames | packages/shared/validator.ts:41-49 | the item loop appends the duplicate errors of the items to those so far and keeps the name list equal to the names seen, without repeats |
| Validator.CollectNames | packages/shared/validator.ts:31-51 | the name loop yields exactly the duplicate errors of the traversal, and a repeat-free list of exactly the names seen |
| Validator.CheckEffects | packages/shared/validator.ts:54-78 | the effect loop yields exactly the effect errors in effect order, and an adjacency map whose edges are the effects between known names |
| Validator.PushKeepsSearchState | packages/shared/validator.ts:86-87 | entering a fresh node keeps the search invariant: the recursion stack is a walk, and finished nodes have ranks that drop along their edges |
| Validator.PopKeepsSearchState | packages/shared/validator.ts:98 | leaving a node whose successors are all finished keeps the search invariant and ranks the node above them |
| Validator.CycleSearch.constructor | packages/shared/validator.ts:81-82 | the search starts with nothing visited and an empty recursion stack |
| Validator.CycleSearch.HasCycle | packages/shared/validator.ts:85-100 | visits the node; true only if the graph has a cycle; when false, the node is finished, earlier finishing ranks are unchanged, and the recursion stack is as before |
| Validator.DetectCycle | packages/shared/validator.ts:102-110 | the loop over names finds a cycle iff the graph of resolved effects is cyclic |
| Validator.ValidateStudyDesign | packages/shared/validator.ts:14-121 | the result is the specification `Validation`, and `valid` holds iff the error list is empty |
| Validator.PathText | packages/shared/validator.ts:22-113 | definition: renders each error path as the source's template string |
| Validator.SchemaError | packages/shared/validator.ts:22 | definition: the single error at `schema` carrying the schema summary |
| Validator.ItemEntries | packages/shared/validator.ts:42-48 | definition: an instrument's item names with their `variables[i].items[j]` paths |
| Validator.NodeEntries | packages/shared/validator.ts:34-48 | definition: a node's own name, then its items' names if it is an instrument with items |
| Validator.NameEntries | packages/shared/validator.ts:32-50 | definition: all names in traversal order |
| Validator.DuplicateError | packages/shared/validator.ts:35-44 | definition: the duplicate message for a variable or an item, at its path |
| Validator.DuplicateErrors | packages/shared/validator.ts:33-48 | definition: one error for each name already met earlier in the traversal |
| Validator.DesignNames | packages/shared/validator.ts:27-49 | definition: every variable, instrument and item name |
| Validator.EffectCheck | packages/shared/validator.ts:60-70 | definition: the missing-source, missing-target and self-reference errors of one effect, in that order |
| Validator.EffectErrors | packages/shared/validator.ts:58-78 | definition: the checks of every effect, in effect order |
| Validator.ResolvedGraph | packages/shared/validator.ts:73-77 | definition: the edges of effects whose source and target are both known names |
| Validator.CycleErrors | packages/shared/validator.ts:112-114 | definition: the cycle error if the design has effects and the resolved graph is cyclic |
| Validator.Validation | packages/shared/validator.ts:14-121 | definition: the schema error alone, or the duplicate errors, the effect errors and the cycle error, with valid iff there are none |
| ValidatorProperties.ItemEntriesShape | packages/shared/validator.ts:42-44 | an instrument contributes one entry per item, at `variables[i].items[j]`, in item order |
| ValidatorProperties.NameEntriesPaths | packages/shared/validator.ts:32-49 | every visited name has a variable or item path below the variable count, and no two share a path |
| ValidatorProperties.DuplicateErrorsAtOther | packages/shared/validator.ts:33-48 | no duplicate error sits at a path that no visited name has |
| ValidatorProperties.DuplicateErrorsAt | packages/shared/validator.ts:33-48 | at the path of the k-th visited name there is one duplicate error if that name was seen earlier, and none otherwise |
| ValidatorProperties.EffectCheckAt | packages/shared/validator.ts:60-70 | the errors of effect j all sit at `effects[j]` |
| ValidatorProperties.EffectErrorsAt | packages/shared/validator.ts:58-78 | the effect errors at a path are exactly those of the effect the path points at |
| ValidatorProperties.CycleErrorAt | packages/shared/validator.ts:112-114 | the cycle error sits only at `effects` |
| ValidatorProperties.ValidationErrorsAt | packages/shared/validator.ts:14-121 | for an accepted schema, the errors at a path are its duplicate errors, then its effect errors, then the cycle error |
| ValidatorProperties.SchemaRejectionIsSingleError | packages/shared/validator.ts:18-24 | a schema failure gives `valid` false and exactly the one error at `schema` carrying the summary |
| ValidatorProperties.DuplicateReportedAtItsPath | packages/shared/validator.ts:33-48 | at each variable or item path there is exactly one duplicate error if its name was seen earlier in traversal order, and none otherwise, so a first occurrence is never flagged |
| ValidatorProperties.EffectCheckContents | packages/shared/validator.ts:60-70 | one effect reports a missing source, a missing target and a self-reference each exactly when it is the case, and at most three errors |
| ValidatorProperties.EffectReportedAtItsPath | packages/shared/validator.ts:58-70 | at `effects[i]` the result holds exactly effect i's checks, in check order |
| ValidatorProperties.CycleReportedAtEffects | packages/shared/validator.ts:81-114 | at `effects` the result holds the cycle error once if the design has effects and the resolved effects form a cycle, and nothing otherwise |
| ValidatorProperties.SelfLoopReportedTwice | packages/shared/validator.ts:68-94 | an effect from a known name to itself yields both its self-reference error and the cycle error |
| ValidatorProperties.DuplicateErrorsAreNodeErrors | packages/shared/validator.ts:34-45 | every duplicate error has a `variables` path |
| ValidatorProperties.EffectErrorsAreNotNodeErrors | packages/shared/validator.ts:58-78 | no effect error has a `variables` path |
| ValidatorProperties.EffectErrorIndex | packages/shared/validator.ts:58-78 | every effect error points at one of the effects |
| ValidatorProperties.EffectErrorsInIndexOrder | packages/shared/validator.ts:58-78 | effect errors come in effect-index order |
| ValidatorProperties.SegmentIndexOrder | packages/shared/validator.ts:31-114 | helper: effect errors placed after variable errors and before the `effects` error keep effect-index order |
| ValidatorProperties.ValidationEffectErrorsInIndexOrder | packages/shared/validator.ts:31-114 | in the whole result, errors about effects come in effect-index order |
| ValidatorProperties.ErrorsInCheckOrder | packages/shared/validator.ts:31-114 | every variable or item error precedes every other error, and the cycle error, when present, is last |
| ValidatorProperties.NoDuplicateErrorsIffDistinct | packages/shared/validator.ts:33-48 | there are no duplicate errors iff the visited names are pairwise distinct |
| ValidatorProperties.NoEffectErrorsIffResolved | packages/shared/validator.ts:60-70 | there are no effect errors iff every effect joins two distinct known names |
| ValidatorProperties.ResolvedGraphIsEffectGraph | packages/shared/validator.ts:73-77 | when every effect is resolved, the cycle graph is the whole effect graph |
| ValidatorProperties.ValidationCharacterization | packages/shared/validator.ts:117-120 | a design is valid iff it passes the schema, its names are distinct, every effect joins two distinct known names, and its effect graph is acyclic |
| ValidatorProperties.WithEffectFacts | packages/shared/validator.ts:54-78 | helper: adding an effect leaves the names alone, appends to the effects, and keeps the schema iff the effect is well formed |
| ValidatorProperties.AddingOfferedSourceKeepsDesignValid | packages/shared/graph_utils.ts:57-68 | for a non-empty known target, a valid design stays valid after adding a well-formed effect from an offered source to it |
| ValidatorProperties.AddingOfferedTargetKeepsDesignValid | packages/shared/graph_utils.ts:121-132 | for a non-empty known source, a valid design stays valid after adding a well-formed effect from it to an offered target |
| ValidatorProperties.WithheldSourceInvalidatesDesign | packages/shared/graph_utils.ts:62-65 | for a non-empty target, adding an effect from a listed, non-offered source other than the target makes the design invalid |
| ValidatorProperties.WithheldTargetInvalidatesDesign | packages/shared/graph_utils.ts:124-129 | for a non-empty source, adding an effect to a listed, non-offered target other than the source makes the design invalid |
| ValidatorProperties.EffectsResolved | packages/shared/validator.ts:60-70 | definition: every effect joins two different known names |
| ValidatorProperties.EmptyItemDesignFacts | packages/shared/mod.ts:100-116 | helper: the example design with an item named `""` passes the schema and has the distinct names `a` and `""` |
| ValidatorProperties.EmptyItemNameBreaksOfferedSafety | packages/shared/graph_utils.ts:18 | as written: a valid design with an item named `""` becomes invalid after adding an effect the graph code offers for that item |
| ValidatorProperties.AddingSelectedSourceKeepsDesignValid | packages/shared/graph_utils.ts:57-68 | corrected: for every known chosen target, the empty name included, a valid design stays valid after adding a well-formed effect from an offered source |
| ValidatorProperties.AddingSelectedTargetKeepsDesignValid | packages/shared/graph_utils.ts:121-132 | corrected: for every known chosen source, the empty name included, a valid design stays valid after adding a well-formed effect to an offered target |

## Findings

| source | as written | input that shows it | evidently intended | confidence | as-written member | corrected member |
|---|---|---|---|---|---|---|
| packages/shared/graph_utils.ts:18 | the empty string stands both for "no target chosen" and for a node the schema allows to be named `""` (an instrument or item name), so for that node every name is offered as a source | effects `["" -> a]`, names `["a"]`: `a` is offered as a source of `""`, and adding `a -> ""` closes a cycle; in a design, an item named `""` with effect `"" -> a` is valid and becomes invalid after the offered edge | "nothing chosen" kept apart from every name, so that offers for a node named `""` are filtered like any other | not executed; medium: the editor may never let a name be empty | GraphUtils.EmptyTargetOfferCloseCycle, ValidatorProperties.EmptyItemNameBreaksOfferedSafety | GraphUtils.SelectedSourceKeepsAcyclic, ValidatorProperties.AddingSelectedSourceKeepsDesignValid |
| packages/shared/graph_utils.ts:86 | the same for `getAvailableTargets`: for a source named `""` every name is offered as a target | effects `["a" -> ""]`, names `["a"]`: `a` is offered as a target of `""`, and adding `"" -> a` closes a cycle | the same | not executed; medium: the editor may never let a name be empty | GraphUtils.EmptySourceOfferCloseCycle | GraphUtils.SelectedTargetKeepsAcyclic, ValidatorProperties.AddingSelectedTargetKeepsDesignValid |

The graph code written as it is, `GraphUtils.GetAvailableSources` and `GraphUtils.GetAvailableTargets`, stays the model of the source. Its cycle-safety lemmas hold for every non-empty name. `GraphUtils.SelectedAgreesWhenNonEmpty` shows that the corrected queries agree with the code for those names.

## Left out

- The effect-resolution engine and the script generator (`r_generator.ts`, re-exported at `packages/shared/mod.ts:147`) are not part of this model. Their source is absent, and they work on floating-point square roots and decimal formatting. The conflicting-sign-paths query is not in the graph utilities file either.
- The schema library's runtime is not modelled. Its check is the hand-written predicate `StudyDesignSchema`, and its failure summary text is a parameter. Values the records cannot hold are outside the model: a number where a string is expected, NaN, infinities, a non-array.
- `SafeNumber` and `CategoryCount` (`packages/shared/mod.ts:4`, `:8`) are declared but used by no schema, so they are left out.
- Numbers are `real`. Double-precision rounding of the comparisons in the ranges is not modelled.
- `nameToKind` (`packages/shared/validator.ts:28`, `:38`, `:47`) is written but never read, so it is left out.
- `CollectItemNames` is the inner `items.forEach` loop as a method of its own. It updates the same error list and name list the outer loop owns, passed in and returned. This is a modelling choice for the proof, not a change of behaviour.
- `Validator.CycleSearch`: the script's closure shares `visited`, `recursionStack` and `adj` between its recursive calls. The model shares them as fields of one object. Aliasing with the caller's `adj` is not modelled, because nothing else mutates it.
- The names list stands in for the script's insertion-ordered `Set`. The adjacency lists are `seq` values in a `map`, not mutable arrays shared through the map.
- `GraphUtils.GetAvailableSources` / `GetAvailableTargets` rebuild the adjacency map and run one search per candidate, like the source. The repeated work is not modelled as a cost.
- `Validator.CycleSearch.HasCycle`: the script's `hasCycle` recurses once per node along a path (`packages/shared/validator.ts:85-100`). A schema-accepted design with a long enough chain of resolved effects therefore overflows the script engine's call stack, and `validateStudyDesign` throws instead of returning a result. The model has no stack bound, so `HasCycle`, `DetectCycle` and `ValidateStudyDesign` always return.
- `GraphUtils.GetAvailableSources` / `GetAvailableTargets`: with no target or source chosen, the script returns the caller's own `allNodeNames` array (`packages/shared/graph_utils.ts:18`, `:86`), while the filter branch returns a fresh array. A caller that sorts or changes the result in place then changes its own list. The model returns sequence values, so this aliasing is not captured.
- The HTTP layer, authentication, rate limiting, the subprocess that runs the generated script, configuration, the web frontend, the deployment scripts and the browser automation are not part of this model. They are I/O and plumbing around the core.
