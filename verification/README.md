# A model of the policy resolver and its companions

These modules model, in Dafny, how a set of Gemara artifacts is loaded, merged and resolved into effective
policies, and the smaller algorithms around that. Each file is one module.

| module | what it holds |
|---|---|
| `Sequences`, `Filters`, `Counting`, `Sorting` | vocabulary: options, filters and joined parts of sequences, weights grouped by key, orderings |
| `Gemara` | catalogs, guidance, policies and modifiers as values |
| `ExtendsGraph`, `ExtendsWalk` | the possibly cyclic `extends` graph: depth-first preorder, reachability, and the walk that mutates one shared set |
| `DeepCopy`, `GuidanceCopy` | catalogs and guidance as the program holds them, with shared slices and pointers, and the copies |
| `Shown` | views lose no field and miss no object |
| `Overlays`, `ModifierMeaning`, `OverlayPass` | exclusions and modifiers: their algebra, what they make of a requirement, and the pass that overwrites controls in place |
| `Resolution`, `ResolvedContents`, `Resolver`, `BareCatalog` | resolving a policy: on values, what the result holds, on the heap, and for one bare catalog |
| `ArtifactSets`, `Sources`, `LoadReport` | merging that can stop partway, what sources hold together, and what the load errors say of them |
| `Pipeline` | loading every source and resolving every policy against the one set |
| `PolicyIndex`, `Applicability`, `ApplicabilityMeaning`, `Assessment`, `AssessmentMeaning` | the indexes of a resolved policy, the views derived from them, and what they say in terms of catalogs and request |
| `Provenance`, `PackProvenance` | the canonical record of where resolved content came from, and its way from the sources |
| `EditDistance`, `UnknownKeys`, `KnownLocations` | the two-row edit distance, its suggestions, the walk that warns about unknown keys, and where it finds them |
| `Attribution`, `PackageNames` | test outcomes attributed to requirements through package names |
| `References`, `PathDisplay`, `PathReadings` | registry references and displayed input paths as strings, and which displays have one reading |

## How it is modelled

- **State.** A method that updates fields or arrays in the source is a method with a `modifies` clause here; its
  specification is a function of the values its arguments show (`CatalogView`, `PoolView`). A catalog's controls
  are an array, because modifiers are written into it. Other slices are objects whose elements are fixed once
  built, so sharing can be expressed: `CatalogCells` and `GuidanceCells` are every object a catalog is made of, and
  freshness of those cells is what keeps resolved policies apart from the pool and from each other.
- **Unordered iteration.** A loop over a map picks any remaining key. `sort.Slice` is represented by a sort of
  which callers know only that the result is ordered and a permutation.
- **Keys.** Artifact maps are keyed by metadata id (`internal/requirement/classify.go:44`); lemmas that need this
  say so, through `Keyed` or through a condition on the one catalog concerned.
- **Computed and told.** A function computes what a method must return. What such a function means is told again
  without it, in terms of inputs alone: as a filter or a joining of parts (`Filters`), field by field, or character
  by character.
- **Strings** are sequences with one character per byte. Ids compare by first difference, as Go strings do.
- **Outside decisions are parameters**: what a source yields when loaded, whether a source string names a bundle
  and how URLs are cleaned (`Sanitizer`), what an override file contains, what a schema allows.

## Where the code departs from its comments or from expectation

The code is followed in each case.

- `internal/pipeline/pipeline.go:30-32` says that the last-declared source wins when two provide one policy id.
  The merge rejects the second source instead, so on success every policy has one source (`Sources.SharedPolicyConflicts`,
  `Pipeline.LoadSources`).
- `internal/requirement/summary.go:18-20` says that controls without matching requirements are left out. They are
  left out only under a non-empty scope (`Assessment.EmptyAreListedIff`, `Assessment.EmptyControlIsListed`).
- A Remove drops whatever version is current at the end of a requirement's modifiers. Beside an Add, before or after
  it, that is the added requirement, and the original stays (`Overlays.RemoveBesideAdd`); a removed requirement
  disappears exactly when no Add names it (`Overlays.RemovedIff`).
- A blank known key can be the nearest one, but is never suggested, since a blank `best` means that none was found
  (`EditDistance.BlankIsNotSuggested`). The project's table has no blank key (`UnknownKeys.NoBlankKey`), so this does
  not arise in its warnings (`UnknownKeys.WarningsSuggest`).
- Redaction is idempotent for references with a recognised scheme or none, and exactly characterised for the rest
  (`References.RedactSettlesIff`).
- Two input paths can have one display, even where every segment is free of quotes and brackets: `input`, `a.b`,
  `c.d` reads as `input` and one longer segment too. `PathReadings.SharedIff` says exactly when, for all paths, and
  `PathReadings.ReadableSharedIff` for paths of readable segments. The parser of `PathDisplay.DisplayRoundTrip` picks
  one reading, the readable one, and recovers a path exactly when its segments are readable.

## Model

| member | source | states |
|---|---|---|
| `ExtendsGraph.WalkIsDepthFirst` | internal/requirement/resolve.go:215-238 | on every graph, cyclic or not, the walk is a depth-first preorder: each visited id is the first unseen non-empty entry of the nearest visited catalog that still has one, and the walk stops only when none has |
| `ExtendsGraph.DepthFirstIsUnique` | internal/requirement/resolve.go:215-238 | the graph, the starting entries and the excluded ids admit exactly one such preorder |
| `ExtendsGraph.DepthFirstIsReachability` | internal/requirement/resolve.go:215-238 | a depth-first preorder holds exactly the ids reachable through non-empty `extends` entries that avoid the excluded ids, each once; no visited id cuts another off |
| `ExtendsGraph.ShortcutPrimary` | internal/requirement/resolve.go:202-213 | a path that comes back through the catalog being flattened can be shortened to one that does not, so excluding it loses nothing |
| `ExtendsGraph.FlattenVisitsReachable` | internal/requirement/resolve.go:202-213 | flattening visits, in that one preorder, exactly the ids reachable from the catalog other than itself, each once, and reports exactly those the pool lacks, each once |
| `ExtendsGraph.MissingSubset` | internal/requirement/resolve.go:224-231 | the ids reported as unresolved are the visited ids without a catalog, each once |
| `ExtendsWalk.WalkControlExtends` | internal/requirement/resolve.go:215-238 | the mutating walk returns fresh copies of the controls of the catalogs in walk order, the missing ids in walk order, and leaves in the shared set exactly what it visited; it terminates although the set also grows with ids outside the pool |
| `ExtendsWalk.VisitControlCatalog` | internal/requirement/resolve.go:219-236 | one turn of its loop: the catalog's own controls, then those below it, none of the objects shared with the pool |
| `ExtendsWalk.FlattenControlExtends` | internal/requirement/resolve.go:202-213 | own controls first, then those of the visited catalogs; every object in the result is new |
| `ExtendsWalk.WalkGuidanceExtends` | internal/requirement/resolve.go:271-294 | the guidance walk obeys the same specification over the same graph functions, freshness included |
| `ExtendsWalk.VisitGuidanceCatalog` | internal/requirement/resolve.go:275-292 | one turn of its loop |
| `ExtendsWalk.FlattenGuidanceExtends` | internal/requirement/resolve.go:258-269 | own guidelines first, then those of the visited catalogs in preorder; every object in the result is new |
| `DeepCopy.CopySlice` | internal/requirement/deepcopy.go:86-93 | a nil slice stays nil; any other becomes a new object with the same elements |
| `DeepCopy.ClonePointer` | internal/requirement/deepcopy.go:132-138 | a nil pointer stays nil; any other becomes a new object with the same target |
| `DeepCopy.DeepCopyMetadata` | internal/requirement/deepcopy.go:50-58 | same metadata, with mapping references, applicability groups and lexicon new |
| `DeepCopy.CopyMappings` | internal/requirement/deepcopy.go:95-109 | same mappings, with the outer slice and every entries slice new |
| `DeepCopy.CopyRequirements` | internal/requirement/deepcopy.go:14-22 | same requirements, with the slice and every applicability slice and replaced-by pointer new |
| `DeepCopy.CopyControl` | internal/requirement/deepcopy.go:13-26 | same control, none of its objects shared with the original |
| `DeepCopy.DeepCopyControls` | internal/requirement/deepcopy.go:7-28 | the copy shows what the source shows and shares no object with anything that existed before the call |
| `GuidanceCopy.CopyStatements` | internal/requirement/deepcopy.go:120-130 | same statements, with the slice and every recommendations slice new |
| `GuidanceCopy.CloneRationale` | internal/requirement/deepcopy.go:140-147 | same rationale behind a new pointer with a new goals slice |
| `GuidanceCopy.CopyGuideline` | internal/requirement/deepcopy.go:36-46 | same guideline, none of its objects shared with the original |
| `GuidanceCopy.DeepCopyGuidelines` | internal/requirement/deepcopy.go:30-48 | the copy shows what the source shows and shares no object with anything that existed before the call |
| `GuidanceCopy.CloneRedirect` | internal/requirement/deepcopy.go:76-81 | same redirect behind a new pointer, with a new entries slice even where there was none |
| `GuidanceCopy.DeepCopyExemptions` | internal/requirement/deepcopy.go:69-84 | same exemptions, with the slice and everything behind their redirects new |
| `Shown.SameControl` | internal/requirement/deepcopy.go:13-26 | two controls show the same exactly when all their fields do, so a copy that shows the same lost none |
| `Shown.SameCatalog` | internal/requirement/resolve.go:193-199 | the same for control catalogs |
| `Shown.SameGuideline` | internal/requirement/deepcopy.go:36-46 | the same for guidelines |
| `Shown.SameGuidance` | internal/requirement/resolve.go:246-255 | the same for guidance catalogs |
| `Shown.ControlIsIn` | internal/requirement/deepcopy.go:13-26 | every slice and pointer reachable from a control is one of the objects required to be new |
| `Shown.GuidelineIsIn` | internal/requirement/deepcopy.go:36-46 | the same for guidelines |
| `Shown.CatalogIsIn` | internal/requirement/resolve.go:193-199 | the same for control catalogs |
| `Shown.GuidanceCatalogIsIn` | internal/requirement/resolve.go:246-255 | the same for guidance catalogs, exemptions and their redirects included |
| `Shown.ResolvedIsIn` | internal/requirement/resolve.go:24-82 | the objects of a resolved policy are its index and all objects of its catalogs and guidance |
| `Overlays.OutcomeIsVersions` | internal/requirement/resolve.go:425-447 | a requirement ends up as its versions, one per stretch of modifiers between Adds, less the last version when some modifier removes; so it contributes its Add count plus one, or plus none when removed, and is untouched when no modifier names it |
| `ModifierMeaning.OutcomeIs` | internal/requirement/resolve.go:425-447 | the modifiers naming a requirement, in list order and cut at their Adds into stretches, give one version per stretch; a version starts from the requirement or from the Add's own id, text, applicability and recommendation, active and replaced by nothing, and takes each field from the last replacing, overriding or modifying modifier of its stretch that sets it; a Remove among them takes away the last version |
| `ModifierMeaning.OutcomeIds` | internal/requirement/resolve.go:425-474 | the ids of the result are the requirement's own, then those of the Add modifiers naming it, in order; under a Remove without the last |
| `ModifierMeaning.VersionsAre` | internal/requirement/resolve.go:432-446 | that reading of the stretches, for any list of modifiers naming the requirement |
| `ModifierMeaning.MergeAllIsVersion` | internal/requirement/resolve.go:453-464 | one stretch merged, field by field |
| `ModifierMeaning.TargetingIsFilter` | internal/requirement/resolve.go:418-421 | the modifiers applied to a requirement are those whose target is its id, in list order |
| `Overlays.RemovedIff` | internal/requirement/resolve.go:432-446 | under a Remove nothing is left exactly when no Add names the requirement too |
| `Overlays.RemoveBesideAdd` | internal/requirement/resolve.go:432-446 | one Remove and one Add, in either order: the requirement itself stays and the added one is dropped |
| `Overlays.ModifyIsConcatenation` | internal/requirement/resolve.go:423-449 | the result is the in-order concatenation of what each requirement turns into |
| `Overlays.LaterFieldsWin` | internal/requirement/resolve.go:453-464 | field by field the last non-empty setting wins, an unset field keeps its value, and id, state and replacement never change |
| `Overlays.ExclusionsCommute` | internal/requirement/resolve.go:385-451 | excluding controls and modifying requirements commute for all inputs |
| `Overlays.MergeAllIdempotent` | internal/requirement/resolve.go:453-464 | merging a list of modifiers a second time changes nothing |
| `Overlays.ModifyIdempotent` | internal/requirement/resolve.go:413-451 | without Add modifiers, modifying twice equals modifying once |
| `Overlays.OutcomeSettles` | internal/requirement/resolve.go:425-447 | the same for what one requirement turns into |
| `Overlays.RequirementsSettle` | internal/requirement/resolve.go:425-447 | the same for the requirements of one control |
| `OverlayPass.ApplyControlExclusions` | internal/requirement/resolve.go:385-397 | drops exactly the controls with an excluded id, in order, into a new array unless nothing is excluded |
| `OverlayPass.GroupByTarget` | internal/requirement/resolve.go:418-421 | the grouping map holds, for exactly the named targets, the order-preserving sublist of modifiers naming it |
| `OverlayPass.RewriteRequirement` | internal/requirement/resolve.go:426-446 | the one-pass inner loop equals folding the modifiers that name the requirement |
| `OverlayPass.RewriteRequirements` | internal/requirement/resolve.go:424-447 | one pass through the grouping map equals treating each requirement by its own sublist |
| `OverlayPass.RewriteControl` | internal/requirement/resolve.go:423-449 | only the control's requirements change, and what it reaches afterwards was reached before or is new |
| `OverlayPass.RewriteInPlace` | internal/requirement/resolve.go:423-449 | overwrites the elements of the given array only, each with its modified control |
| `OverlayPass.ApplyModifications` | internal/requirement/resolve.go:413-451 | the in-place pass shows the modified controls; nothing outside the array is written |
| `OverlayPass.MergeFields` | internal/requirement/resolve.go:453-464 | merges on a copied record; every object of the result is the old record's or new |
| `OverlayPass.FromModifier` | internal/requirement/resolve.go:466-474 | an active requirement made of the modifier's fields and of new objects only |
| `Resolver.CopyWanted` | internal/requirement/resolve.go:313-319 | copies of the entries whose ids are wanted, in catalog order |
| `Resolver.ImportFrom` | internal/requirement/resolve.go:302-320 | a blank reference contributes nothing, an unloaded one is reported, an empty entry list takes every control, otherwise the listed ones |
| `Resolver.ResolveControlImports` | internal/requirement/resolve.go:299-323 | the import lists one level deep, in order, as fresh copies, with the unloaded references in order |
| `Resolver.ResolveControlCatalog` | internal/requirement/resolve.go:187-200 | a flattened catalog: title, metadata, groups and imports copied, own, extended, then imported controls, made of new objects only |
| `Resolver.ApplyCatalogOverlays` | internal/requirement/resolve.go:361-371 | exclusions then modifications on a further copy; the argument and everything it shows stay as they were |
| `Resolver.CheckDuplicateImportRefs` | internal/requirement/resolve.go:84-99 | reports the first import reference that repeats an earlier one, catalogs and guidance in one namespace |
| `Resolver.BuildRefIndex` | internal/requirement/resolve.go:104-116 | fails at the first repeated non-blank id, otherwise maps exactly the non-blank ids to themselves |
| `Resolver.ResolveImport` | internal/requirement/resolve.go:43-49 | one declared and loaded import: flattened against the unchanged pool, then overlaid, of new objects only |
| `Resolver.ResolveCatalogImports` | internal/requirement/resolve.go:31-50 | the catalog loop resolves each import as it would be resolved alone |
| `Resolver.CopyWantedGuidelines` | internal/requirement/resolve.go:340-346 | copies of the guidelines whose ids are wanted, in catalog order |
| `Resolver.ImportGuidelines` | internal/requirement/resolve.go:329-346 | a blank reference contributes nothing, an unloaded one is reported, an empty entry list takes every guideline, otherwise the listed ones |
| `Resolver.ResolveGuidanceEntries` | internal/requirement/resolve.go:325-349 | the import lists one level deep, in order, as fresh copies, with the unloaded references in order |
| `Resolver.ResolveGuidanceCatalog` | internal/requirement/resolve.go:240-256 | a flattened guidance catalog made of new objects only |
| `Resolver.ExcludeGuidelines` | internal/requirement/resolve.go:399-411 | drops exactly the guidelines with an excluded id, in order |
| `Resolver.ApplyGuidanceOverlays` | internal/requirement/resolve.go:373-383 | exclusions on a further copy; what the result is made of was in the argument or is new |
| `Resolver.ResolveGuidanceImport` | internal/requirement/resolve.go:64-70 | one declared and loaded import: flattened, then overlaid, of new objects only |
| `Resolver.ResolveGuidanceImports` | internal/requirement/resolve.go:52-71 | the guidance loop resolves each import as it would be resolved alone |
| `Resolver.ResolvePolicy` | internal/requirement/resolve.go:14-82 | the heap program refines the value-level `Resolve`, errors included; the result carries indexes that agree with what it resolved to, no object its catalogs, guidance and indexes are made of existed before the call, and the pool shows what it showed before |
| `Resolver.ResolveIndexed` | internal/requirement/resolve.go:24-82 | the two loops and the final check, once the references are known to be distinct |
| `Resolver.NewResolvedPolicy` | internal/requirement/resolved_policy.go:22-31 | a resolved policy over given parts, with indexes that agree with them and no new object but the indexes |
| `Resolution.ResolveSucceedsIff` | internal/requirement/resolve.go:14-116 | resolving succeeds if and only if no import reference repeats across catalogs and guidance, no non-blank mapping-reference id repeats, and there is no import or at least one is declared and loaded |
| `ResolvedContents.ImportTakes` | internal/requirement/resolve.go:299-359 | an import takes from its loaded catalog, in catalog order and as often as they occur, all items when it lists no entry, and otherwise those whose id is not blank and is listed; from any other catalog nothing |
| `ResolvedContents.FlattenedIs` | internal/requirement/resolve.go:187-213 | a flattened catalog keeps every field but its items and extends; its items are its own, then those of each visited catalog, then what each import takes |
| `ResolvedContents.FlattenedControlsIs` | internal/requirement/resolve.go:193-199 | of a control catalog only title, metadata, groups, imports and controls are kept |
| `ResolvedContents.FlattenedHolds` | internal/requirement/resolve.go:187-238 | a flattened catalog holds an item exactly when it is its own, a loaded catalog it transitively extends holds it, or an import selects it, for controls and guidelines alike |
| `ResolvedContents.OverlaidIs` | internal/requirement/resolve.go:361-451 | an overlaid catalog keeps every field but its controls: those whose id is not excluded, in order, each with every requirement replaced in place by what the modifiers make of it |
| `ResolvedContents.OverlaidGuidanceIs` | internal/requirement/resolve.go:373-411 | the guidelines whose id is not excluded, in order, and everything else as it was |
| `ResolvedContents.LeftoverIs` | internal/requirement/resolve.go:187-191 | left unresolved are the visited ids that are not loaded, in walk order, then the non-blank imported ids that are not |
| `ResolvedContents.ResolveIs` | internal/requirement/resolve.go:14-116 | every outcome with the inputs that lead to it: the first repeated import reference, the first repeated non-blank mapping reference, imports none of which is found, or one overlaid flattened catalog per import that is found, in order, with what each import leaves unresolved |
| `Resolution.NothingLeftover` | internal/requirement/resolve.go:187-200 | flattening leaves nothing unresolved exactly when every transitively extended id and every non-blank imported id is loaded |
| `Resolution.CatalogsComplete` | internal/requirement/resolve.go:31-50 | that condition over all catalog imports |
| `Resolution.GuidanceComplete` | internal/requirement/resolve.go:52-71 | that condition over all guidance imports |
| `Resolution.UnresolvedEmptyIff` | internal/requirement/resolve.go:14-82 | on success `Unresolved` is empty exactly when every import is declared and loaded and everything extended or imported from it is loaded |
| `BareCatalog.SyntheticOutcome` | internal/requirement/resolve.go:480-504 | wrapping one catalog in a synthetic policy gives its flattening and nothing else when the name is non-blank, and fails for a blank name because a blank mapping reference declares nothing |
| `BareCatalog.BareOutcome` | internal/requirement/resolve.go:476-504 | what any catalog alone resolves to under a non-blank name: its own controls, once more if it extends that name and has another id, then those it imports from itself; unresolved are its other non-blank bases, each once, then its other imports |
| `BareCatalog.NewIdsMeaning` | internal/requirement/resolve.go:221-228 | the unresolved bases are distinct and are exactly those not blank and not the catalog |
| `BareCatalog.SelfContained` | internal/requirement/resolve.go:476-504 | a catalog that extends at most itself and imports nothing comes back with exactly its own controls and nothing unresolved |
| `BareCatalog.ResolveFromCatalog` | internal/requirement/resolve.go:480-504 | succeeds exactly for a non-blank name; the result is indexed, its indexes agree with the flattened catalog, and the given catalog is unchanged |
| `ArtifactSets.MergeKind` | internal/requirement/classify.go:71-76 | one kind's loop, in any iteration order: complete exactly when no id clashes, otherwise a partial union that loses and replaces nothing |
| `ArtifactSets.ArtifactSet.Merge` | internal/requirement/classify.go:70-96 | reports a clash exactly when some kind shares an id, and then an id that both hold within one kind; otherwise the set becomes the disjoint union; a failing merge leaves each kind between its old content and the union |
| `ArtifactSets.DisjointFromUnion` | internal/requirement/classify.go:70-96 | an id clashes with the accumulated set exactly when it clashes with one of the parts merged into it |
| `Sources.ClashWithMerged` | internal/pipeline/pipeline.go:54-61 | merging the next source fails exactly when it clashes with some earlier source |
| `Pipeline.LoadSources` | internal/pipeline/pipeline.go:44-69 | no error exactly when every source loads and no two share an id of one kind; then the set has exactly the entries of the sources and each policy id is mapped to the name of the only source holding it; otherwise every source that does not load is named, of two that conflict at least one is, and every error has its reason |
| `Sources.ConflictIs` | internal/pipeline/pipeline.go:54-57 | sources conflict exactly when two loaded ones hold an id in common within one kind |
| `Sources.MergedHolds` | internal/pipeline/pipeline.go:54-57 | the loaded set has, kind by kind, exactly the entries of the loaded sources |
| `Sources.NamedTraces` | internal/pipeline/pipeline.go:58-62 | every loaded policy is mapped to the name of the source that holds it, and nothing else is mapped |
| `Sources.SharedPolicyConflicts` | internal/requirement/classify.go:77-81 | two sources holding one policy id conflict, so neither wins |
| `Sources.ConflictIsOrderFree` | internal/pipeline/pipeline.go:44-69 | a conflict between sources survives any reordering of them |
| `Sources.LoadingIsOrderFree` | internal/pipeline/pipeline.go:44-69 | whether loading succeeds does not depend on the order of the sources |
| `Sources.LoadedIsOrderFree` | internal/pipeline/pipeline.go:44-69 | nor does what is loaded, nor which source each policy is mapped to |
| `LoadReport.AccountsNext` | internal/pipeline/pipeline.go:47-63 | one turn of the loop keeps the report complete although failed merges leave partial sets: a source not named in it is held in full, and every id held comes from a source |
| `Pipeline.ResolveAll` | internal/pipeline/pipeline.go:71-81 | policies resolved one after another in any order against one shared pool: each result is what that policy gives alone, no two results share an object, and the pool is unchanged; it fails exactly when some policy fails alone |
| `Pipeline.LoadAndResolve` | internal/pipeline/pipeline.go:39-88 | succeeds exactly when every source loads, no two conflict and every policy of their union resolves; otherwise the load errors with their report, or a policy with the error it gives; on success the union, each policy with what it resolves to alone, indexed and sharing nothing with the others, and each policy id mapped to the name of the source holding it |
| `Pipeline.RunsAreOrderFree` | internal/pipeline/pipeline.go:39-88 | shuffling the sources changes neither whether a run succeeds nor the resolved policies and source map it shows |
| `PolicyIndex.ResolvedPolicy.constructor` | internal/requirement/resolved_policy.go:22-31 | a resolved policy starts with every index agreeing with its catalogs and plans |
| `PolicyIndex.ResolvedPolicy.BuildIndexes` | internal/requirement/resolved_policy.go:33-67 | establishes that agreement |
| `PolicyIndex.IndexControls` | internal/requirement/resolved_policy.go:44-59 | one pass yields the first-occurrence id list, the location of the first control of each id, and per id the in-order concatenation of requirements |
| `PolicyIndex.IndexParameters` | internal/requirement/resolved_policy.go:61-66 | parameters of the last plan for a requirement that lists any |
| `PolicyIndex.IndexById` | internal/requirement/resolved_policy.go:34-42 | each metadata id is mapped to the last catalog carrying it |
| `PolicyIndex.ResolvedPolicy.RequirementsForControl` | internal/requirement/resolved_policy.go:70-72 | the in-order concatenation, over all catalogs, of the requirements of controls with that id; none for an unknown id |
| `PolicyIndex.ResolvedPolicy.ControlByID` | internal/requirement/resolved_policy.go:90-92 | the first control with that id in catalog order; none exactly when there is none |
| `PolicyIndex.ResolvedPolicy.ParametersForRequirement` | internal/requirement/resolved_policy.go:95-97 | the parameters of the last plan for it that lists any |
| `PolicyIndex.ResolvedPolicy.ControlCatalog` | internal/requirement/resolved_policy.go:75-77 | the last resolved catalog with that id; none exactly when there is none |
| `PolicyIndex.AllControlsJoin` | internal/requirement/resolved_policy.go:48-50 | the controls indexed are those of every catalog, in order |
| `PolicyIndex.RequirementsOfJoin` | internal/requirement/resolved_policy.go:56 | the requirements under an id are those of each control with that id, in order |
| `PolicyIndex.NoPlanNoParameters` | internal/requirement/resolved_policy.go:61-66 | a requirement has no parameters exactly when no plan for it lists any |
| `PolicyIndex.WeightsCount` | internal/requirement/resolved_policy.go:44-59 | the total counted is the number of requirements of all controls |
| `PolicyIndex.FirstOccurrencesCover` | internal/requirement/resolved_policy.go:47-55 | the control ids are duplicate-free and are exactly the ids that occur |
| `PolicyIndex.FirstOccurrencesInOrder` | internal/requirement/resolved_policy.go:47-55 | they are listed in the order of their first occurrence |
| `PolicyIndex.LastPlanDecides` | internal/requirement/resolved_policy.go:61-66 | a plan listing parameters decides unless a later plan for the same requirement also lists some |
| `PolicyIndex.IndexLosesNothing` | internal/requirement/resolved_policy.go:44-59 | the indexed requirement counts over the control ids sum to the number of requirements in all catalogs, however ids recur |
| `Applicability.CollectDefinitions` | internal/requirement/applicability.go:29-36 | the first definition of each group id across catalogs |
| `Applicability.AddRequirement` | internal/requirement/applicability.go:47-61 | files one kept requirement under each group it lists, or as ungrouped, defining unknown groups by their id alone |
| `Applicability.TallyRequirements` | internal/requirement/applicability.go:43-62 | the loops over the indexes file exactly the requirements of all controls that pass the filter |
| `Applicability.EmitGroups` | internal/requirement/applicability.go:64-80 | the definition map visited in any order and sorted yields the one grouping |
| `Applicability.CollectApplicabilityGroups` | internal/requirement/applicability.go:28-90 | one entry per group, strictly sorted by id, each with exactly its filed requirements; the rest are ungrouped in order |
| `ApplicabilityMeaning.CollectedSays` | internal/requirement/applicability.go:28-90 | what a run returns, from the catalogs and the filter: of the requirements passing the filter, in order of their controls' first occurrence, the ids of those listing no group; and by ascending id one entry for each group that one of them lists, or that is defined when nothing is filtered, with its first definition's title and description and one id per listing |
| `Applicability.GroupingIsUnique` | internal/requirement/applicability.go:64-80 | only one output satisfies that, so map order cannot show |
| `Applicability.FilteringCommutes` | internal/requirement/applicability.go:28-90 | of two groupings of the same requirements, the filtered one is the unfiltered one with every list restricted and emptied groups dropped |
| `Applicability.FilteredRun` | internal/requirement/applicability.go:28-90 | the same for what two runs over one policy return, ungrouped requirements included: collecting under a filter equals collecting everything and restricting it |
| `Applicability.GroupingConserves` | internal/requirement/applicability.go:43-62 | the lengths of all group lists plus ungrouped equal the sum over kept requirements of one or their applicability length, whichever is larger |
| `AssessmentMeaning.MatchedSay` | internal/requirement/assessment.go:22-67 | for each control id in turn one record per requirement in scope, with its id, text, applicability and parameters |
| `AssessmentMeaning.ScopedIsFilter` | internal/requirement/assessment.go:37-41 | in scope are, in order, the requirements sharing a value with a given scope, or all of them |
| `AssessmentMeaning.ParametersAre` | internal/requirement/assessment.go:50-60 | a key holds what the last parameter writing it writes: its accepted values, comma and space between them, under its name, its description under the name with a suffix |
| `AssessmentMeaning.SummariesAre` | internal/requirement/summary.go:21-56 | one summary per requested id, in order, except those a given scope leaves empty, titled after the first control with the id |
| `Assessment.ApplicabilityIntersects` | internal/requirement/summary.go:60-69 | true exactly when the two lists share a value |
| `Assessment.FillParameters` | internal/requirement/assessment.go:48-60 | each key holds the last write made to it, labels and description keys alike |
| `Assessment.ExtractForControl` | internal/requirement/assessment.go:37-63 | one record per in-scope requirement of the control, in order |
| `Assessment.ExtractAssessmentRequirements` | internal/requirement/assessment.go:22-67 | one record per in-scope requirement of the requested controls, in order, with its parameters |
| `Assessment.CountForControl` | internal/requirement/summary.go:26-32 | the number of in-scope requirements of the control |
| `Assessment.ControlSummaries` | internal/requirement/summary.go:21-56 | one summary per requested control except those a non-empty scope empties, with totals that match the list |
| `Assessment.ViewsAgree` | internal/requirement/summary.go:21-56 | for every id list and scope the extracted requirements are as many as the summaries count, and each was extracted through a summarised control |
| `Assessment.SummaryCountsItsOwn` | internal/requirement/summary.go:25-48 | each summary counts exactly the requirements extracted through its control |
| `Assessment.AssessmentRequirementsTool` | internal/mcp/tool_assessment.go:63-81 | reported count, list length, summary total and the sum of per-control counts are one number, without filters that of all requirements in all catalogs; a dropped control contributes no requirement |
| `Assessment.EmptyAreListedIff` | internal/requirement/summary.go:33-35 | no summary is empty exactly when a scope is given or every requested control has requirements |
| `Assessment.EmptyControlIsListed` | internal/requirement/summary.go:33-47 | a control without requirements, asked for without a scope, is listed with a count of zero |
| `Provenance.IndexMappingReferences` | internal/pipeline/provenance.go:89-95 | the last mapping reference with each id |
| `Provenance.BuildRecord` | internal/pipeline/provenance.go:41-73 | the policy's recorded references rearranged into id order |
| `Provenance.BuildProvenance` | internal/pipeline/provenance.go:38-85 | one record per importing policy, strictly ordered by policy id, each a sorted rearrangement of that policy's references |
| `Provenance.IsRecordSays` | internal/pipeline/provenance.go:41-73 | a record has one entry per catalog and guidance import, by ascending reference id; without a mapping reference an entry has only its id, with one the version of the last, and as URI the bundle's or else the reference's cleaned URL |
| `Provenance.RecordShape` | internal/pipeline/provenance.go:51-57 | a record has as many entries as the policy has catalog and guidance imports |
| `Provenance.RecordIsUnique` | internal/pipeline/provenance.go:66-68 | equal reference ids mean equal entries, so an unstable sort leaves one result |
| `Provenance.RecordIsStrict` | internal/pipeline/provenance.go:66-68 | when no import repeats the record is strictly ordered, so no tie arises |
| `Provenance.ProvenanceIsUnique` | internal/pipeline/provenance.go:38-85 | the output is a function of the contents: the same for every map iteration order and every result the sorts may give |
| `Provenance.ValidateSource` | pkg/complypack/config.go:85-97 | no error exactly when every entry has a policy id, content, and reference ids throughout; an error names a place that lacks one |
| `Provenance.ProvenancePassesIff` | internal/pipeline/provenance.go:59-64 | built provenance passes that validation exactly when no importing policy has a blank id and no import a blank reference id |
| `PackProvenance.ResolveProvenance` | cmd/complypack/cli/pack.go:184-208 | records exist exactly when every source loads, none conflict and every policy resolves; they are the provenance of the union, and each is strictly ordered by reference id |
| `PackProvenance.PublishedSays` | cmd/complypack/cli/pack.go:184-208 | each policy of a source has a record exactly when it imports anything, and the record says where its imports came from, the source being the one that holds the policy |
| `PackProvenance.ImportsAreDistinct` | internal/requirement/resolve.go:15-17 | a policy that resolves imports no reference twice |
| `PackProvenance.PublishedIsOrderFree` | cmd/complypack/cli/pack.go:184-208 | shuffled sources give one provenance |
| `Sorting.LessIs` | internal/pipeline/provenance.go:66-68 | ids are ordered byte by byte: a proper beginning first, otherwise the first difference decides |
| `Sorting.SortedIsUnique` | internal/pipeline/provenance.go:66-68 | when equal keys mean equal records there is one sorted arrangement |
| `Sorting.StrictlySortedIsUnique` | internal/pipeline/provenance.go:76-78 | strictly sorted sequences with the same elements are equal |
| `EditDistance.Levenshtein` | schemas/jsonschema/unknown.go:79-109 | the two rolling rows with their swap return the recursive edit distance |
| `EditDistance.DistanceIsShortestScript` | schemas/jsonschema/unknown.go:79-109 | that distance is the least number of single insertions, deletions and substitutions turning one word into the other: some script attains it, none is shorter |
| `EditDistance.NoShorterScript` | schemas/jsonschema/unknown.go:79-109 | no script is shorter than the distance |
| `EditDistance.ScriptRewrites` | schemas/jsonschema/unknown.go:79-109 | the script read off the recursion turns the first word into the second |
| `EditDistance.ZeroIffEqual` | schemas/jsonschema/unknown.go:79-109 | zero exactly for equal words |
| `EditDistance.Symmetric` | schemas/jsonschema/unknown.go:79-109 | symmetric |
| `EditDistance.Triangle` | schemas/jsonschema/unknown.go:79-109 | triangle inequality |
| `EditDistance.LengthBounds` | schemas/jsonschema/unknown.go:79-109 | at least the difference of the lengths, at most the longer length |
| `EditDistance.FormatUnknownWarning` | schemas/jsonschema/unknown.go:63-77 | suggests the first known key at the least distance exactly when that distance is at most two and the key is not blank |
| `EditDistance.FirstNearestExists` | schemas/jsonschema/unknown.go:65-72 | a non-empty list has exactly one first-nearest entry |
| `EditDistance.BlankIsNotSuggested` | schemas/jsonschema/unknown.go:73-76 | a blank known key one edit away is not suggested |
| `EditDistance.NearestDecides` | schemas/jsonschema/unknown.go:65-72 | the nearest key is within reach exactly when some key is, then differs by at most two in length, and is the key itself when that is known |
| `EditDistance.SuggestionBeatsOthers` | schemas/jsonschema/unknown.go:65-77 | a suggested name is a known key: every earlier one is strictly farther from the misspelt key, and no later one is nearer |
| `EditDistance.SuggestionIffNear` | schemas/jsonschema/unknown.go:63-77 | with no blank known key, the warning suggests exactly when some known key lies within two edits; what it suggests is the first known key at the least distance, at most two off in length |
| `UnknownKeys.WalkUnknown` | schemas/jsonschema/unknown.go:25-61 | appends one right warning for each unknown key reached through known keys, and no other, in any key order |
| `UnknownKeys.WalkValue` | schemas/jsonschema/unknown.go:42-59 | the same below one known key: an object, a list whose objects are walked, or neither |
| `UnknownKeys.CheckUnknownKeys` | schemas/jsonschema/unknown.go:19-23 | the warnings of the whole configuration against the project's table of known keys |
| `KnownLocations.UnknownIs` | schemas/jsonschema/unknown.go:25-61 | the unknown keys of a configuration, read off its shape: at the top level, in `gemara` and each object of its `sources`, in each object under `schemas`, in `policies`, `tests`, `fixtures` and `output`, a key that is none of those listed for that place; nowhere else |
| `KnownLocations.WarningsAre` | schemas/jsonschema/unknown.go:7-77 | one warning for each such key and no other, which suggests exactly when some key known in that place lies within two edits |
| `UnknownKeys.NoBlankKey` | schemas/jsonschema/unknown.go:7-17 | the table has no blank key in any scope |
| `UnknownKeys.WarningsSuggest` | schemas/jsonschema/unknown.go:19-77 | every warning about a configuration is for an unknown key in it, and suggests exactly when some key known there lies within two edits; what it suggests is such a key, at most two off in length |
| `UnknownKeys.WarningsAreOrderFree` | schemas/jsonschema/unknown.go:36-60 | two runs give the same warnings, each as often, whatever order the keys come in |
| `UnknownKeys.QuietIff` | schemas/jsonschema/unknown.go:36-40 | no warning exactly when there is no unknown key |
| `PackageNames.TestPackageId` | internal/coverage/coverage.go:426-448 | the package whose last segment is family_major_minor.._test has the id family-major.minor.., whatever packages enclose it |
| `PackageNames.PlainPackageId` | internal/coverage/coverage.go:426-448 | without `_test` the id is the same, unless the last piece is `test` itself, which is then taken for the suffix |
| `PackageNames.OnlySuchPackages` | internal/coverage/coverage.go:416-448 | no other package has an id |
| `Attribution.AttributesSay` | internal/coverage/coverage.go:553-582 | from mapping and details alone: failing exactly when a detail of a package listing the requirement failed, passing when there is one and none failed, untested when there is none |
| `Attribution.NamingRoundTrip` | internal/coverage/coverage.go:426-448 | a package segment that follows the convention is recovered from its requirement id by turning hyphens and dots back into underscores |
| `Attribution.NamingInjective` | internal/coverage/coverage.go:426-448 | packages sharing a requirement id have the same stripped last segment |
| `Attribution.BuildConventionMapping` | internal/coverage/coverage.go:453-471 | exactly the packages with details that follow the convention, each mapped to its one id |
| `Attribution.ReverseIndex` | internal/coverage/coverage.go:527-533 | exactly the mapped requirements, each with exactly the packages covering it |
| `Attribution.FlagPackages` | internal/coverage/coverage.go:540-551 | the flags say exactly whether a package has a detail and whether it has a failed one |
| `Attribution.Classify` | internal/coverage/coverage.go:555-579 | untested without a tested package, failing with a failed one, passing otherwise |
| `Attribution.EnrichWithTestResults` | internal/coverage/coverage.go:522-583 | exactly the mapped requirements, each with the status of the direct definition: failing iff some detail of a covering package failed, passing iff there is a detail and none failed, else untested; nothing for nil arguments |
| `Attribution.AttributeTests` | internal/coverage/coverage.go:596-623 | an override replaces exactly the packages it lists, its failure is the only failure, and no details means no statuses |
| `Attribution.StatusIsOrderFree` | internal/coverage/coverage.go:522-583 | reordering details, or any package's requirement list, changes no status |
| `Attribution.ConventionIsTested` | internal/coverage/coverage.go:601-602 | with no override nothing is untested |
| `Attribution.UntestedIff` | internal/coverage/coverage.go:610-622 | a requirement is untested exactly when all that covers it are overrides for packages in which no test ran |
| `References.SplitScheme` | internal/registry/client.go:127-146 | cuts behind the first "://" exactly when what precedes it is a scheme by section 3.1 of RFC 3986 |
| `References.RedactCredentials` | internal/registry/client.go:106-120 | keeps the scheme and cuts the rest up to the last '@' before its first '/' |
| `References.SchemeOf` | internal/registry/client.go:127-146 | a letter followed by letters, digits, plus, minus or dot is recognised in front of "://", all of it |
| `References.OnlySchemes` | internal/registry/client.go:127-146 | nothing else is recognised |
| `References.RedactComposed` | internal/registry/client.go:106-120 | behind a scheme, user information is cut from in front of the host, and a reference without any is left alone |
| `References.RedactSchemeless` | internal/registry/client.go:106-120 | the same without a scheme, where nothing reads as "://" |
| `References.RedactKeeps` | internal/registry/client.go:106-120 | the scheme, and everything from the first slash after it, are kept verbatim |
| `References.RedactRecognised` | internal/registry/client.go:106-120 | with a recognised scheme the result has the same scheme and no '@' in its authority |
| `References.RedactPlain` | internal/registry/client.go:106-120 | the same without any "://" |
| `References.RedactSettlesIff` | internal/registry/client.go:106-120 | redaction is idempotent, equivalently leaves a clean authority, exactly outside one family: an unrecognised prefix that ends in '@' and a scheme, before an authority with userinfo |
| `References.NestedExample` | internal/registry/client.go:106-120 | a reference of that family, and what each of two rounds leaves |
| `References.ParseTagRecovers` | internal/registry/client.go:62-80 | tag or "latest" is recovered from any reference composed of a scheme, host and port, and a repository free of ':' and '@'; a digest from whatever stands in front of it, a tag included |
| `References.ParseTagDigest` | internal/registry/client.go:65-68 | a digest free of '/' and '@' is recovered behind any front part |
| `References.StripCutsAtSlash` | internal/registry/client.go:83-87 | stripping cuts just behind a slash, if anywhere |
| `PathDisplay.FormatPath` | internal/validator/contract.go:120-137 | the loop writes the first segment and then each shown segment |
| `PathDisplay.DisplayRoundTrip` | internal/validator/contract.go:120-137 | for paths starting with "input", a parser recovers the segments exactly when dotted ones hold no quote and the others no bracket |
| `PathDisplay.DisplayInjective` | internal/validator/contract.go:120-137 | two such paths with the same display are the same path |
| `PathDisplay.DisplayIsAmbiguous` | internal/validator/contract.go:127-134 | two paths, one outside that condition, with one display |
| `PathReadings.OneReading` | internal/validator/contract.go:120-137 | segments that are not ambiguous are the only ones with their display, whatever they hold |
| `PathReadings.AnotherReading` | internal/validator/contract.go:120-137 | ambiguous segments have a second reading, constructed case by case |
| `PathReadings.SharedIff` | internal/validator/contract.go:120-137 | a path shares its display with another exactly when, behind `input`, a dotted segment follows another, the first one's bracket could close elsewhere, or a bracket opens in one segment and closes behind a later one |
| `PathReadings.ReadableSharedIff` | internal/validator/contract.go:120-137 | a readable path shares its display exactly when, behind `input`, a dotted segment follows another, or the first is dotted and a later one ends in a closed bracket |
| `PathReadings.SharingExamples` | internal/validator/contract.go:120-137 | a readable path that shares its display, and an unreadable one that does not |
| `PathDisplay.PathExistsInSchema` | internal/validator/contract.go:142-176 | field, then pattern, then bare allowance, which accepts whatever follows |
| `PathDisplay.ExistsIs` | internal/validator/contract.go:152-175 | a path exists exactly when it can be followed through the schema, by the field of each name or else the pattern, to its end or to a name with neither that is allowed |
| `PathDisplay.ExistsIsPrefixClosed` | internal/validator/contract.go:152-175 | every prefix of an existing path exists, for every schema |

## Left out

- `Resolver.ResolvePolicy`: policies are values, so it does not say that the resolved policy shares mapping references, imports, plans and indexed parameter slices with the loaded one, as the source does.
- Aliasing inside a resolved policy: its indexes point into its catalogs by position and hold requirements as values; sharing between index and catalog after construction is not captured.
- Record fields that the resolver neither inspects nor deep-copies are one opaque `rest` per record; sharing through them is not tracked. A resolved control catalog carries none; for guidance it is the type and the front matter.
- Nil versus empty slices where no caller can tell them apart (empty results of the views, empty provenance).
- Error message text, the list of available ids it quotes, and quoting in warnings.
- `Classify`, YAML and JSON decoding, and the override file parser.
- `isOCISource`, `sanitizeOCISource` and `sanitizeURI`: they rest on URL parsing and enter as the functions of `Sanitizer`.
- `CheckContract` and the extraction of input references: they rest on the Rego syntax tree.
- Schemas as CUE values: a schema is a tree of named fields, a pattern and allowed names; a map stands for the field lookup.
- Coverage metrics, the coverage run, configuration validators other than the provenance section, triage and version information: each is settled by reading one function.
- Commands, tool wiring, output formatting, registry and cache access, packing and unpacking.
- `GuidanceCatalog`, `ControlIDs` and `ImportedGuidanceIDs`: plain field and map reads.
- Timeouts, cancellation and logging.
