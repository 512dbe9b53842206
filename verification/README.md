# wasm-mergers, modelled in Dafny

wasm-mergers merges several WebAssembly modules into one. Its core works in three stages.

1. The modules are **considered**: every import, local definition and export of each kind is
   turned into a node of a per-kind dependency graph. The four kinds are functions, tables,
   memories and globals.
2. The graphs are **resolved**. Imports are linked to the exports that satisfy them, and name
   clashes and type mismatches are signalled or tolerated as the merge options say. Then the
   dependencies are **reduced**: every node is mapped to the import or local definition that
   finally provides it.
3. The modules are **merged**. Surviving imports and locals become items of the merged module.
   A mapping records where each old `(module, id)` pair now lives, and every node is redirected
   to the new home of its reduction source. Surviving exports are re-emitted, renamed when
   required. Function bodies are copied with every reference translated through the mapping.
   The start functions are chained and the module names are joined.

Beside the graph-based pipeline, the crate keeps a function-only resolution schema. It matches
imports with exports by name, classifies each export, groups unresolved exports by name to
find clashes, and assigns every surviving function its position in the merged module.

The Dafny modules follow the crate's files:

| Dafny module | crate file |
|---|---|
| `Wrappers` | `Result`, `Option`, and the panics (`unwrap`, `assert!`, `todo!`) as failures |
| `Collections` | sorting, filtering and draining helpers used by the schema |
| `Kinds` | `src/kinds.rs` |
| `MergeOptions` | `src/merge_options.rs` |
| `ProvenanceIdentifier` | `src/merger/provenance_identifier.rs` |
| `ResolutionSchema` | `src/resolver/resolution_schema/mod.rs` |
| `IdentifiedResolutionSchema` | `src/resolver/identified_resolution_schema/mod.rs` |
| `ResolverNodes` | the node types of the resolver: import, local, export |
| `DependencyReduction` | `src/resolver/dependency_reduction.rs` |
| `DependencyReductionScenarios` | the unit tests of `src/resolver/dependency_reduction.rs`, as lemmas |
| `Errors` | the crate's `Error` type |
| `MergeBuilder` | `src/merge_builder.rs` |
| `WalrusCopy` | `src/merger/walrus_copy/mod.rs` |
| `Merger` | `src/merger/mod.rs` |

Several inputs are iteration orders: those of hash sets and hash maps (`HashSet`, `HashMap`),
and the walrus arenas. The code's behaviour depends on these orders but never chooses them.
They are therefore parameters, given as duplicate-free sequences that enumerate the set
(`Collections.IsEnumeration`). One order is not a parameter: the set of imports attached to
an export is iterated in the relative order of the imports (see "Left out"). A panic (`unwrap` on a missing key, a failed `assert!`, a
`todo!`) is a `Failure` carrying a `Wrappers.Panic`. It is never excluded by a precondition.

## Model

| member | source | states |
|---|---|---|
| `Kinds.FromTypes` | src/kinds.rs:17-26 | the signature built from a type id has exactly that arena entry's parameters and results, element by element |
| `Kinds.FromTypesEqualIffSameShape` | src/kinds.rs:17-35 | two signatures are equal exactly when their parameter and result lists are equal, whichever arena they come from |
| `Kinds.IntoString` | src/kinds.rs:67-71 | converting an item identifier to a string and back gives the same identifier |
| `Kinds.IdentifierItemRoundTrip` | src/kinds.rs:58-71 | string to identifier and identifier to string are mutually inverse, in both directions |
| `MergeOptions.EmptyKeepExports` | src/merge_options.rs:68-73 | a fresh keep set holds no function, table, memory or global |
| `MergeOptions.KeepFunction` | src/merge_options.rs:96-102 | keeping a function adds exactly that (module, name) pair and leaves the other kinds untouched |
| `MergeOptions.KeepTables` | src/merge_options.rs:104-110 | keeping a table adds exactly that pair and leaves the other kinds untouched |
| `MergeOptions.KeepMemory` | src/merge_options.rs:112-118 | keeping a memory adds exactly that pair and leaves the other kinds untouched |
| `MergeOptions.KeepGlobals` | src/merge_options.rs:120-126 | keeping a global adds exactly that pair and leaves the other kinds untouched |
| `MergeOptions.DefaultOptions` | src/merge_options.rs:5-65 | by default clashes and type mismatches are signalled, resolved exports are removed, and no keep set is given |
| `MergeOptions.DefaultRename` | src/merge_options.rs:160-163 | the default rename is the module name, a colon, then the export name |
| `MergeOptions.DefaultRenameSeparates` | src/merge_options.rs:136-163 | for a fixed name, two modules' renames agree only when the modules agree; for a fixed module, two names' renames agree only when the names agree |
| `MergeOptions.DefaultRenameExample` | src/merge_options.rs:146-158 | exports `f` of modules `A` and `B` become `A:f` and `B:f` |
| `MergeOptions.DefaultRenamer` | src/merge_options.rs:139-144 | the default strategy applies the default rename to every kind |
| `ProvenanceIdentifier.From` | src/merger/provenance_identifier.rs:37-44 | wrapping an id and dereferencing it gives the id back |
| `ProvenanceIdentifier.DerefLaws` | src/merger/provenance_identifier.rs:23-44 | reading after writing gives the written id, and writing back what was read changes nothing |
| `ProvenanceIdentifier.EqualIffIdsEqual` | src/merger/provenance_identifier.rs:15-21 | two tagged identifiers are equal exactly when their ids are |
| `ResolutionSchema.AddImport` | src/resolver/resolution_schema/mod.rs:131-138 | adding an import panics exactly when it is already present; otherwise the import set grows by that import only |
| `ResolutionSchema.AddLocalFunction` | src/resolver/resolution_schema/mod.rs:139-146 | adding a local function panics exactly when it is already present; otherwise only that set grows |
| `ResolutionSchema.AddExport` | src/resolver/resolution_schema/mod.rs:147-154 | adding an export panics exactly when it is already present; otherwise only that set grows |
| `ResolutionSchema.FirstMatch` | src/resolver/resolution_schema/mod.rs:176-180 | the export an import attaches to is the first with the same module and name; none exactly when no export matches |
| `ResolutionSchema.MatchImports` | src/resolver/resolution_schema/mod.rs:165-185 | each export collects exactly the imports whose first match it is; the unresolved imports are exactly those with no match |
| `ResolutionSchema.AttemptResolve` | src/resolver/resolution_schema/mod.rs:37-81 | the export's imports are split into type-matching and mismatching parts, and the outcome's case is decided by which parts are empty |
| `ResolutionSchema.AttemptResolveAnyOrder` | src/resolver/resolution_schema/mod.rs:37-81 | the iteration order of the attached imports does not change the case, the export, or which imports land in each part |
| `ResolutionSchema.AttemptResolveCases` | src/resolver/resolution_schema/mod.rs:37-81 | no import present iff none attached; all resolve iff every attached import has the export's type; all mismatch iff none has it; partial iff both kinds occur |
| `ResolutionSchema.AttemptResolveEntries` | src/resolver/resolution_schema/mod.rs:37-81 | an attempt yields a resolved entry exactly when some import has the export's type, pairing the export with those imports; and a mismatch exactly when some import has another type, pairing the export with those |
| `ResolutionSchema.ClassifyResolved` | src/resolver/resolution_schema/mod.rs:199-215 | the resolved set holds exactly the resolved entries of the attempts, each the export with its imports of the same type |
| `ResolutionSchema.ClassifyMismatch` | src/resolver/resolution_schema/mod.rs:199-215 | the mismatch set holds exactly the mismatches of the attempts, each the export with its imports of other types |
| `ResolutionSchema.ClassifyMismatchEmpty` | src/resolver/resolution_schema/mod.rs:199-215 | no type mismatch is recorded exactly when no export has an attached import of another type |
| `ResolutionSchema.ClassifyUnresolved` | src/resolver/resolution_schema/mod.rs:199-203 | the unresolved exports are exactly the exports with no attached import |
| `ResolutionSchema.ClassifyDistinct` | src/resolver/resolution_schema/mod.rs:199-203 | distinct exports give an unresolved list without duplicates |
| `ResolutionSchema.ClashFold` | src/resolver/resolution_schema/mod.rs:230-265 | after the name pass, every name seen is recorded; a name met once keeps its export; a name met twice or more has its clash set equal to all unresolved exports of that name |
| `ResolutionSchema.ClashFoldClashes` | src/resolver/resolution_schema/mod.rs:230-265 | a name is a clash exactly when at least two unresolved exports carry it, and its clash set is all of them |
| `ResolutionSchema.ClashFoldFirsts` | src/resolver/resolution_schema/mod.rs:267-274 | the exports left unresolved are exactly those whose name no other unresolved export shares |
| `ResolutionSchema.Validate` | src/resolver/resolution_schema/mod.rs:155-293 | the schema keeps the local functions, and its unresolved imports are exactly the imports that match no export; what its resolved set and its reported mismatches hold is stated by `ResolutionSchema.ValidateResolved` and `ResolutionSchema.ValidateTypesMismatch` |
| `ResolutionSchema.ValidateResolved` | src/resolver/resolution_schema/mod.rs:155-215 | an entry is in the schema's resolved set exactly when it pairs some export with the imports that name it first and have its type, there being at least one such import |
| `ResolutionSchema.ValidateTypesMismatch` | src/resolver/resolution_schema/mod.rs:155-215 | on failure, a mismatch is reported exactly when it pairs some export with the imports that name it first and expect another type, there being at least one such import |
| `ResolutionSchema.ValidateResolvedExport` | src/resolver/resolution_schema/mod.rs:155-215 | an export has a resolved entry exactly when some import names it first and has its type |
| `ResolutionSchema.ValidateOkIff` | src/resolver/resolution_schema/mod.rs:283-292 | validation succeeds exactly when every matched import has its export's type and no two unconsumed exports share a name |
| `ResolutionSchema.ValidateUnresolvedExports` | src/resolver/resolution_schema/mod.rs:193-274 | an export stays unresolved exactly when no import consumed it and it is the only unconsumed export of its name |
| `ResolutionSchema.ValidateNameClashes` | src/resolver/resolution_schema/mod.rs:217-265 | on failure, a name is reported as clashing exactly when two or more unconsumed exports carry it, with all of them as its clash set |
| `IdentifiedResolutionSchema.RemoveSortedUnresolvedImports` | src/resolver/identified_resolution_schema/mod.rs:123-135 | the module's imports are taken out sorted by index, the others stay, and nothing is lost or duplicated |
| `IdentifiedResolutionSchema.RemoveSortedResolved` | src/resolver/identified_resolution_schema/mod.rs:137-152 | the module's resolved entries are taken out sorted by index, the others stay, and nothing is lost or duplicated |
| `IdentifiedResolutionSchema.RemoveInternal` | src/resolver/identified_resolution_schema/mod.rs:154-170 | the module's local functions are taken out sorted by index, the others stay, and nothing is lost or duplicated |
| `IdentifiedResolutionSchema.RemoveSortedUnresolvedExports` | src/resolver/identified_resolution_schema/mod.rs:172-184 | the module's exports are taken out sorted by index, the others stay, and nothing is lost or duplicated |
| `IdentifiedResolutionSchema.DrainedInModuleOrder` | src/resolver/identified_resolution_schema/mod.rs:198-212 | each drained list holds exactly the entries of the listed modules, grouped in module order and sorted by index within a module |
| `IdentifiedResolutionSchema.ForMerged` | src/resolver/identified_resolution_schema/mod.rs:250-278 | numbering a list succeeds exactly when its keys are distinct and new; the k-th entry gets the next index plus k, and the map gains exactly those keys |
| `IdentifiedResolutionSchema.ExportForMerged` | src/resolver/identified_resolution_schema/mod.rs:353-375 | an export panics exactly when its (module, index) has no new index; otherwise it carries that index |
| `IdentifiedResolutionSchema.ExportsForMerged` | src/resolver/identified_resolution_schema/mod.rs:226-229 | all exports are numbered exactly when every key is known, each with its key's new index |
| `IdentifiedResolutionSchema.Assign` | src/resolver/identified_resolution_schema/mod.rs:214-246 | imports get the indices 0 to n-1 and local functions the following ones, in order; exports take their key's index; the map's keys are exactly the import and local keys |
| `IdentifiedResolutionSchema.AssignOutcome` | src/resolver/identified_resolution_schema/mod.rs:214-246 | numbering panics on a repeated key, hits the unimplemented resolved pass exactly when a resolved entry exists, and otherwise succeeds exactly when every export's key is known |
| `IdentifiedResolutionSchema.AssignImportsFirst` | src/resolver/identified_resolution_schema/mod.rs:214-234 | every import's new index is below every local function's |
| `IdentifiedResolutionSchema.AssignPositions` | src/resolver/identified_resolution_schema/mod.rs:214-234 | a new index points back at the import or local function whose key mapped to it |
| `IdentifiedResolutionSchema.AssignInjective` | src/resolver/identified_resolution_schema/mod.rs:214-234 | no two old keys receive the same new index, and every new index is in range |
| `IdentifiedResolutionSchema.DetermineMergedImport` | src/resolver/identified_resolution_schema/mod.rs:51-66 | an import is reported unresolved exactly when some unresolved import matches, and then it is the first match |
| `IdentifiedResolutionSchema.DetermineMergedExport` | src/resolver/identified_resolution_schema/mod.rs:67-81 | an export is reported unresolved exactly when some unresolved export matches, and then it is the first match |
| `IdentifiedResolutionSchema.GetIndicesAsWritten` | src/resolver/identified_resolution_schema/mod.rs:82-117 | the map holds the module's imports, the resolved imports into it, and the index of every local function of every module |
| `IdentifiedResolutionSchema.GetIndices` | src/resolver/identified_resolution_schema/mod.rs:82-117 | the map holds exactly the module's own imports, resolved imports and local functions |
| `IdentifiedResolutionSchema.ModuleSlice` | src/resolver/identified_resolution_schema/mod.rs:82-117 | the slice of the old-to-new map for one module: an old index is present exactly when that module's pair is |
| `IdentifiedResolutionSchema.GetIndicesIsModuleSlice` | src/resolver/identified_resolution_schema/mod.rs:82-117 | with no resolved entries, the corrected index map equals the module's slice of the old-to-new map |
| `IdentifiedResolutionSchema.GetIndicesAsWrittenMixesModules` | src/resolver/identified_resolution_schema/mod.rs:112-115 | for two modules that each define function 0, the map as written sends module A's function 0 to module B's new index 1 |
| `DependencyReduction.Sources` | src/resolver/dependency_reduction.rs:46-85 | the sources are exactly the local nodes and the imports without a linked export |
| `DependencyReduction.FindReductionSource` | src/resolver/dependency_reduction.rs:109-133 | the node found is a source, and a source is its own reduction |
| `DependencyReduction.ReachesWithinNodeCount` | src/resolver/dependency_reduction.rs:109-133 | a walk that reaches a source at all reaches it within as many steps as there are nodes |
| `DependencyReduction.AllReachSourcesIff` | src/resolver/dependency_reduction.rs:109-133 | the computed termination check holds exactly when every node's walk reaches a source |
| `DependencyReduction.ReduceDependencies` | src/resolver/dependency_reduction.rs:38-107 | the map covers every node and sends it to a local or a remaining import; remaining imports and exports are as characterised below; the clashing set passes through |
| `DependencyReduction.RemainingImports` | src/resolver/dependency_reduction.rs:50-61 | an import remains exactly when no export was linked to it |
| `DependencyReduction.RemainingExports` | src/resolver/dependency_reduction.rs:62-80 | an export remains exactly when no import consumes it or the keep set names it |
| `DependencyReduction.ReductionMap` | src/resolver/dependency_reduction.rs:87-133 | every node maps to a source; a source maps to itself; any other node maps where its successor maps |
| `DependencyReductionScenarios.ChainOfImportsRemainingImports` | src/resolver/dependency_reduction.rs:588-697 | in the chained-imports test only the import from the foreign module remains |
| `DependencyReductionScenarios.ChainOfImportsRemainingExports` | src/resolver/dependency_reduction.rs:588-697 | in the chained-imports test only the export nothing imports remains |
| `DependencyReductionScenarios.ChainOfImportsReductionMap` | src/resolver/dependency_reduction.rs:588-697 | every node of the chain reduces to the foreign import |
| `DependencyReductionScenarios.WithLocalsReduction` | src/resolver/dependency_reduction.rs:450-531 | the external import and the final export remain; the local, both exports and the internal import reduce to the local |
| `DependencyReductionScenarios.CircularReduction` | src/resolver/dependency_reduction.rs:698-756 | two modules importing each other's functions reduce every node to a local |
| `MergeBuilder.ImportsOfIff` | src/merge_builder.rs:126-160 | the import nodes made for a kind are exactly the module's imports of that kind, with the importing module and the imported item's type |
| `MergeBuilder.PlainLocalsOfIff` | src/merge_builder.rs:196-240 | the local nodes made for tables, memories or globals are exactly the items that are not imported |
| `MergeBuilder.FunctionLocalsOf` | src/merge_builder.rs:163-194 | collecting function locals fails exactly when some function is uninitialized, with the component-model error naming the module |
| `MergeBuilder.FunctionLocalsOfIff` | src/merge_builder.rs:163-194 | the function local nodes are exactly the local functions, each with its signature and its arguments |
| `MergeBuilder.ExportsOfIff` | src/merge_builder.rs:242-273 | the export nodes made for a kind are exactly the module's exports of that kind, with the exported item's type |
| `MergeBuilder.Consider` | src/merge_builder.rs:102-276 | considering a module fails exactly when it has an uninitialized function, and the error names the module |
| `MergeBuilder.ConsiderFunctionImports` | src/merge_builder.rs:126-160 | after considering, the function imports are the earlier ones plus one node per function import of the module |
| `MergeBuilder.ConsiderFunctionLocals` | src/merge_builder.rs:163-194 | after considering, the function locals are the earlier ones plus one node per local function, with its arguments |
| `MergeBuilder.ConsiderGlobalLocals` | src/merge_builder.rs:196-209 | after considering, the global locals are the earlier ones plus one node per non-imported global |
| `MergeBuilder.ConsiderTableExports` | src/merge_builder.rs:242-273 | after considering, the table exports are the earlier ones plus one node per table export, typed by the table's element type |
| `MergeBuilder.ResolveKind` | src/merge_builder.rs:302-336 | a resolved kind reduces its graph with that kind's keep set: its remaining imports and exports are those of the linked graph |
| `MergeBuilder.ResolveKindOutcome` | src/merge_builder.rs:302-336 | a link failure is an import cycle; a clash fails only under the signalling clash policy; a type mismatch fails only under the signalling mismatch policy and when no clash came first; renaming and ignoring leave only link failures |
| `MergeBuilder.ResolveFirstError` | src/merge_builder.rs:278-300 | resolving succeeds exactly when all four kinds do; otherwise the first failing kind, in the order functions, tables, memories, globals, decides the error |
| `WalrusCopy.NewSequenceStackObserved` | src/merger/walrus_copy/mod.rs:32-40 | a new stack maps the old body to the new body, and that body is the current sequence |
| `WalrusCopy.PushPop` | src/merger/walrus_copy/mod.rs:42-55 | popping right after a push returns the pushed pair and leaves the stack as it was, with the binding kept |
| `WalrusCopy.PopOutcome` | src/merger/walrus_copy/mod.rs:49-55 | popping panics on an empty stack or when the top pair disagrees with the binding; otherwise it removes exactly the top pair and keeps the mapping |
| `WalrusCopy.BindLaws` | src/merger/walrus_copy/mod.rs:57-66 | binding changes only the mapping: the bound id now resolves to its new id, every other id resolves as before |
| `WalrusCopy.Lookup` | src/merger/walrus_copy/mod.rs:132-190 | translating an id succeeds exactly when the map holds it, and panics otherwise |
| `WalrusCopy.TypeMap` | src/merger/walrus_copy/mod.rs:226-235 | an old type id maps to the first type of the merged module with the same signature |
| `WalrusCopy.RewriteRenames` | src/merger/walrus_copy/mod.rs:203-475 | rewriting an instruction succeeds exactly when every id it references is mapped; the result has the same shape with every reference translated |
| `WalrusCopy.IdFreeUnchanged` | src/merger/walrus_copy/mod.rs:203-475 | an instruction that references no id is copied unchanged |
| `WalrusCopy.BrTableResolved` | src/merger/walrus_copy/mod.rs:307-318 | a branch table's targets and default are each resolved through the sequence mapping |
| `WalrusCopy.PushInstrStack` | src/merger/walrus_copy/mod.rs:203-300 | a block, loop or if/else binds its old sequences to freshly made ones; any other instruction leaves the stack alone |
| `WalrusCopy.PushInstrAppends` | src/merger/walrus_copy/mod.rs:192-300 | a copied instruction is appended to the current new sequence, and a new block gets an empty body |
| `WalrusCopy.StartEndBalanced` | src/merger/walrus_copy/mod.rs:486-494 | starting and then ending a sequence returns the copy to the same state |
| `WalrusCopy.CopyFunctionBalanced` | src/merger/walrus_copy/mod.rs:478-495 | after the in-order walk of a body, the stacks hold only the body's own pair again |
| `WalrusCopy.RewriteAll` | src/merger/walrus_copy/mod.rs:482-484 | rewriting a straight-line body succeeds exactly when every instruction's rewrite succeeds, and then gives the rewrites in order (with `WalrusCopy.RewriteRenames`, exactly when every instruction's references are mapped) |
| `WalrusCopy.CopyFlatFunction` | src/merger/walrus_copy/mod.rs:478-495 | copying a whole function whose body opens no block succeeds exactly when every instruction rewrites, and the new body is then the rewrites in order; a failure is the first rewrite's panic |
| `WalrusCopy.CopyFlatFunctionMapped` | src/merger/walrus_copy/mod.rs:132-475 | the same copy succeeds exactly when every id named by every instruction is mapped |
| `WalrusCopy.CopyFlatItems` | src/merger/walrus_copy/mod.rs:478-495 | copying a straight-line body appends the rewritten instructions, in order, to the current sequence, and fails exactly when a rewrite fails |
| `Merger.MappingRefKeys` | src/merger/mod.rs:43-89 | an import is keyed by its importing module and index; a local and an export by owner and index; an export and a local share a key exactly when owner and index agree |
| `Merger.Slice` | src/merger/mod.rs:751-779 | the per-module slice holds an old id exactly when the (module, id) key is mapped, with the same new id |
| `Merger.CopyForGlobalAgrees` | src/merger/mod.rs:760-768 | a global in a constant expression is translated through the module's global mapping, and fails exactly when it is missing |
| `Merger.CopyForFuncAgrees` | src/merger/mod.rs:769-777 | a function reference in a constant expression is translated through the module's function mapping, and fails exactly when it is missing |
| `Merger.CopyForKeepsValues` | src/merger/mod.rs:756-759 | constant values and null references are copied unchanged |
| `Merger.AddImportFunctions` | src/merger/mod.rs:790-796 | one imported function per remaining import is appended in order, and nothing else changes |
| `Merger.AddImportFunctionsIds` | src/merger/mod.rs:93-103 | each remaining import's key maps to the position of its new function |
| `Merger.AddArguments` | src/merger/mod.rs:122-142 | each argument gets a fresh local of its type, and the module's locals mapping records it |
| `Merger.AddLocalFunction` | src/merger/mod.rs:122-142 | a local function is appended with its signature, and its key maps to that new position |
| `Merger.AddLocalFunctionsDefines` | src/merger/mod.rs:798-805 | the k-th local is defined at the k-th appended position with its signature |
| `Merger.AddLocalFunctionsIds` | src/merger/mod.rs:798-805 | with distinct keys, each local's key maps to its appended position |
| `Merger.AddLocalFunctionsKeeps` | src/merger/mod.rs:798-805 | a key that no local carries keeps its earlier mapping |
| `Merger.LocalsOf` | src/merger/mod.rs:799-802 | the locals picked out are exactly the local nodes |
| `Merger.RedirectToSource` | src/merger/mod.rs:807-821 | after redirection every node's key maps to its reduction source's new id, and sources keep theirs |
| `Merger.ReductionCoherent` | src/resolver/dependency_reduction.rs:87-133 | on a graph whose keys follow its edges, the reduction map's targets are fixed points and nodes of one key reduce alike |
| `Merger.AddExportFunctions` | src/merger/mod.rs:823-840 | adding exports only appends export entries; the mapping and every other part of the module are unchanged |
| `Merger.AddExportFunctionsAll` | src/merger/mod.rs:823-840 | when every export's key is mapped, one entry per export is appended, under its renamed name and pointing at its key's new id |
| `Merger.JoinFunctions` | src/merger/mod.rs:788-841 | joining functions touches only functions, locals and exports of the module and the function and locals mappings |
| `Merger.ImportsAndLocalsCoverSources` | src/merger/mod.rs:790-805 | after imports and locals are added, every source of the graph has a key mapped to a function that stands for it |
| `Merger.JoinFunctionsRedirects` | src/merger/mod.rs:788-821 | after the join every node's key maps to a function of the merged module, and that function stands for the node's reduction source |
| `Merger.JoinFunctionsExports` | src/merger/mod.rs:823-840 | the join emits one export per remaining export, in order, renamed when required |
| `Merger.JoinFunctionsExportsDenote` | src/merger/mod.rs:823-840 | each emitted export points at the function that stands for the exported node's reduction source |
| `Merger.JoinGlobals` | src/merger/mod.rs:843-894 | joining globals appends one imported global per remaining import, in order, and nothing else |
| `Merger.JoinGlobalsIds` | src/merger/mod.rs:105-120 | each remaining global import's key maps to its new global's position |
| `Merger.MergerNew` | src/merger/mod.rs:157-183 | a new merger has no names and no starts, no start function and no name, no tables or memories, and one global per remaining global import |
| `Merger.IncludeFunction` | src/merger/mod.rs:492-526 | an imported function is skipped, an uninitialized one raises the parse error naming the module, and a local one panics when it has no new id and otherwise succeeds exactly when its body copy does, panicking with the copy's panic |
| `Merger.IncludeFunctionsFirstFailure` | src/merger/mod.rs:491-527 | including functions fails exactly when some function is uninitialized, is local without a new id, or is local with a body whose copy panics; the first such function, in id order, decides the failure |
| `Merger.IncludeFlatFunction` | src/merger/mod.rs:498-519 | a local function whose body opens no block is included exactly when it has a new id and every id each of its instructions names is mapped for its module |
| `Merger.UnmappedCallPanicsFirst` | src/merger/mod.rs:491-527 | function 0 calling an unmapped function 5 makes the loop panic before the uninitialized function 1 can raise its parse error |
| `Merger.IncludeExportEffect` | src/merger/mod.rs:564-688 | a table, memory or global export is emitted exactly when it remains, renamed when required, and panics when its key is unmapped |
| `Merger.IncludeFunctionExportInert` | src/merger/mod.rs:534-563 | a function export changes nothing during include, since the join already emitted it |
| `Merger.IncludeExports` | src/merger/mod.rs:529-688 | including exports changes only the module's export list |
| `Merger.IncludeExportPreserves` | src/merger/mod.rs:529-688 | one included export leaves the mapping, names, starts and everything but the exports unchanged |
| `Merger.IncludeStart` | src/merger/mod.rs:690-698 | a start function is recorded by its new id, panicking when it is unmapped; without one nothing changes |
| `Merger.IncludeName` | src/merger/mod.rs:714-717 | a module's name section is recorded together with the name the module was given for the merge; without one nothing changes |
| `Merger.IncludeCollectsStart` | src/merger/mod.rs:690-717 | a successful include appends exactly the module's start and name; the modelled bookkeeping leaves the function mapping unchanged (the bulk copying that extends the other mappings is left out) |
| `Merger.Build` | src/merger/mod.rs:722-748 | the built module's name is the joined names, and only the functions, start and name differ from the merged module |
| `Merger.BuildStart` | src/merger/mod.rs:732-745 | with starts, a new start function calling them in order is appended and becomes the start; without starts the functions and start are unchanged |
| `Merger.MergedNameAppend` | src/merger/mod.rs:726-746 | the merged name is each entry formatted as module, two colons, name, joined with dashes |
| `Merger.SplitJoinWithDash` | src/merger/mod.rs:746 | when no part holds a dash, splitting the joined name on dashes gives the parts back |
| `Merger.JoinWithDashAmbiguous` | src/merger/mod.rs:746 | with a dash inside a part, the join is ambiguous: `a-b` alone and `a` with `b` give the same name |

## Left out

- Parsing and emitting WebAssembly binaries, the `walrus` arenas and the `anyhow` message text are not modelled. A module arrives already parsed, as `MergeBuilder.ParsedModule`, with valid ids (`MergeBuilder.ValidIds`).
- Hash iteration orders are parameters, not computed: any duplicate-free enumeration of the set is accepted, with the one exception below.
- `ResolutionSchema.MatchImports`: the per-export `HashSet` of attached imports (src/resolver/resolution_schema/mod.rs:165-168, iterated at :45) is iterated in the relative order of the import enumeration, not in an arbitrary order. Only the order of the imports inside a `Resolved` or `TypeMismatch` depends on this. `ResolutionSchema.AttemptResolveAnyOrder` shows that any other order gives the same case and the same imports in each part.
- `debug_assert!` is modelled as in a release build: it never panics, and the code's fallback runs. So `Merger.Redirect` skips a reduction source whose key is unmapped and `Merger.AddExportFunctions` skips an unmapped export (src/merger/mod.rs:812-817 and 829-837), where a debug build panics first. The `debug_assert!`s at src/merge_builder.rs:186, 206, 215 and 228 and at src/merger/mod.rs:436, 448 and 559 are not modelled either.
- `link_nodes`, `clashing_signal`, `clashing_rename`, `type_check_mismatch_*` and `clashes()` of the per-kind graph resolver are not part of this model. Their outcomes enter `MergeBuilder.ResolveKind` as the inputs of `MergeBuilder.KindChecks`.
- `RenameMap::rename_if_required` is not part of this model. It is represented as a map from (module, export name) to the new name.
- `FunctionIndexYielder` is not part of this model. It is represented as a counter handing out consecutive indices.
- `first_pass` and `second_pass` of resolved entries are `todo!()` in the code, so numbering a schema with resolved entries is the `Unimplemented` failure.
- `walrus::ir::dfs_in_order` is modelled only for bodies whose sequences nest as a tree. Instruction visiting order inside walrus is taken as given.
- Instruction operands other than ids (immediates, memory arguments, value types of blocks) are not modelled. `WalrusCopy.RewriteInstr` covers the id-carrying shapes.
- The bulk copying of tables, memories, globals, data and element segments inside `include` is not modelled (src/merger/mod.rs:212-478). Nor are the per-kind imports that `include` adds for tables, memories and globals. The mappings for those kinds are inputs, so `Merger.Include` leaves the mapping as it found it where the code inserts into the globals, memories, datas, tables and elements maps.
- The copied function bodies are checked for panics inside `include` but are not stored in the modelled merged module. For a body that opens no block, `WalrusCopy.CopyFlatFunction` and `WalrusCopy.CopyFlatItems` state the whole copied body; for a body with nested blocks the `WalrusCopy` lemmas state only the effect of each step (`WalrusCopy.PushInstrAppends`, `WalrusCopy.PushInstrStack`) and that the block stack ends balanced (`WalrusCopy.CopyFunctionBalanced`), not the whole copied body. The id of each new body and the first fresh sequence id are inputs (`Merger.FunctionKind`), as walrus hands them out.
- The copier's lookups use the keys `Mapping` declares in src/merger/old_to_new_mapping.rs, `(module, old id)` for every kind, locals included. The copier's own text names the fields `function_mapping` and `locals_mapping` and keys a local by `(module, function, local)`, which does not match that struct; the model follows the struct.
- The dependency graph has at most one successor per node (`ResolverNodes.Graph`). The code's graph may hold several outgoing edges, and `find_reduction_source` then follows the first neighbour petgraph yields; only `debug_assert_eq!` at src/resolver/dependency_reduction.rs:127 demands exactly one. The model takes every non-source node to have exactly that one outgoing edge.
- Mutability and sharing flags of globals and memories, producers, custom sections and DWARF debug information are carried by the crate without influence on the merge logic, and are not modelled.
- Floating-point constants are opaque values in `Merger.ConstExpr`.
- `Merger.JoinGlobals`: the join for globals adds only the remaining imports, as the code does. Locals, redirection and exports of globals are commented out there and are not added here.
- `Merger.JoinFunctionsRedirects` assumes a graph whose keys follow its edges (`Merger.KeyedGraph`): an export shares its key with the node it points at, and distinct non-export nodes have distinct keys. The crate relies on this without checking it.
- `DependencyReduction.ReduceDependencies` requires that every walk reaches a source. The code loops forever otherwise, and a non-terminating call is not modelled.
- `MergeBuilder.ResolveKind` states only the remaining imports and exports on success. The reduction map is characterised by `DependencyReduction.ReductionMap`, and its contract holds for the graph passed in.
- Duplicate names in the merged module (`Error::DuplicateNameExport`) are raised by code that is not part of this model.
- The superseded files `src/merge_builder/mod.rs` and `src/resolver/mod.rs` are not modelled.

## Findings

| source | as written | input that shows it | evidently intended | confidence | as-written member | corrected member |
|---|---|---|---|---|---|---|
| src/resolver/identified_resolution_schema/mod.rs:112-115 | `get_indices` inserts the index pair of every local function, of every module, into the map for the module under consideration | modules A and B each define function 0 and import nothing; A's function 0 gets new index 0, B's gets 1, and the map for A ends with 0 ↦ 1 | only the module's own local functions are inserted, as is already done for imports | not executed | `IdentifiedResolutionSchema.GetIndicesAsWritten`, `IdentifiedResolutionSchema.GetIndicesAsWrittenMixesModules` | `IdentifiedResolutionSchema.GetIndices`, `IdentifiedResolutionSchema.GetIndicesIsModuleSlice` |
