/** What resolving a policy means on values: the catalogs it yields, what it leaves unresolved, and
    exactly when it succeeds and when nothing is left over. */
module Resolution {
  import opened ExtendsGraph
  import opened Filters
  import opened Gemara
  import opened Overlays
  import opened Sequences

  // ----- selective imports, one level deep -----

  /** The wanted ids of a mapping; blank entries name nothing. */
  function Wanted(entries: seq<string>): set<string> { set e <- entries | e != "" }

  function Keep<T>(items: seq<T>, id: T -> string, wanted: set<string>): seq<T> {
    if items == [] then []
    else (if id(items[0]) in wanted then [items[0]] else []) + Keep(items[1..], id, wanted)
  }

  /** An empty entry list takes the whole catalog. */
  function Imported<T>(m: Mapping, pool: Pool<T>, id: T -> string): seq<T> {
    if m.referenceId == "" || m.referenceId !in pool then []
    else if m.entries == [] then pool[m.referenceId].items
    else Keep(pool[m.referenceId].items, id, Wanted(m.entries))
  }

  function ImportAbsent<T>(m: Mapping, pool: Pool<T>): seq<string> {
    if m.referenceId == "" || m.referenceId in pool then [] else [m.referenceId]
  }

  function ImportItems<T>(imports: seq<Mapping>, pool: Pool<T>, id: T -> string): seq<T> {
    if imports == [] then [] else Imported(imports[0], pool, id) + ImportItems(imports[1..], pool, id)
  }

  function ImportMissing<T>(imports: seq<Mapping>, pool: Pool<T>): seq<string> {
    if imports == [] then [] else ImportAbsent(imports[0], pool) + ImportMissing(imports[1..], pool)
  }

  // ----- one catalog -----

  /** The catalog with its extends flattened and its imports pulled in; `extends` is spent. */
  function Flattened<T>(primary: Catalog<T>, pool: Pool<T>, id: T -> string): Catalog<T> {
    primary.(items := primary.items + Collect(Visited(primary, pool), pool) + ImportItems(primary.imports, pool, id),
             bases := [])
  }

  /** A flattened control catalog carries its title, metadata, groups, imports and controls only. */
  function FlattenedControls(primary: Catalog<Control>, pool: Pool<Control>): Catalog<Control> {
    Flattened(primary, pool, ControlId).(rest := "")
  }

  function Leftover<T>(primary: Catalog<T>, pool: Pool<T>): seq<string> {
    Missing(Visited(primary, pool), pool) + ImportMissing(primary.imports, pool)
  }

  function OverlaidCatalog(c: Catalog<Control>, imp: CatalogImport): Catalog<Control> {
    c.(items := ModifyControls(Exclude(c.items, ControlId, Elements(imp.exclusions)), imp.modifiers))
  }

  function OverlaidGuidance(g: Catalog<Guideline>, imp: GuidanceImport): Catalog<Guideline> {
    g.(items := Exclude(g.items, GuidelineId, Elements(imp.exclusions)))
  }

  // ----- one policy -----

  /** What a run of imports contributes. */
  datatype Part<+T> = Part(catalogs: seq<Catalog<T>>, unresolved: seq<string>)

  /** The mapping-reference ids a policy declares; a blank id declares nothing. */
  function Declared(refs: seq<MappingReference>): set<string> { set r <- refs | r.id != "" :: r.id }

  function ResolveCatalogs(imports: seq<CatalogImport>, declared: set<string>, pool: Pool<Control>): Part<Control> {
    if imports == [] then Part([], [])
    else
      var imp := imports[0];
      var tail := ResolveCatalogs(imports[1..], declared, pool);
      if imp.referenceId !in declared || imp.referenceId !in pool then
        tail.(unresolved := [imp.referenceId] + tail.unresolved)
      else
        var primary := pool[imp.referenceId];
        Part([OverlaidCatalog(FlattenedControls(primary, pool), imp)] + tail.catalogs,
             Leftover(primary, pool) + tail.unresolved)
  }

  function ResolveGuidance(imports: seq<GuidanceImport>, declared: set<string>,
                           pool: Pool<Guideline>): Part<Guideline> {
    if imports == [] then Part([], [])
    else
      var imp := imports[0];
      var tail := ResolveGuidance(imports[1..], declared, pool);
      if imp.referenceId !in declared || imp.referenceId !in pool then
        tail.(unresolved := [imp.referenceId] + tail.unresolved)
      else
        var primary := pool[imp.referenceId];
        Part([OverlaidGuidance(Flattened(primary, pool, GuidelineId), imp)] + tail.catalogs,
             Leftover(primary, pool) + tail.unresolved)
  }

  /** The reference ids a policy imports, catalogs before guidance. */
  function ImportRefs(policy: Policy): (refs: seq<string>)
    ensures |refs| == |policy.catalogImports| + |policy.guidanceImports|
  {
    Images(policy.catalogImports, CatalogRef) + Images(policy.guidanceImports, GuidanceRef)
  }

  /** The non-blank mapping-reference ids, in order. */
  function ReferenceIds(refs: seq<MappingReference>): seq<string> {
    if refs == [] then []
    else (if refs[0].id == "" then [] else [refs[0].id]) + ReferenceIds(refs[1..])
  }

  /** The first id that repeats an earlier one. */
  function FirstRepeat(ids: seq<string>, seen: set<string>): Option<string> {
    if ids == [] then None
    else if ids[0] in seen then Some(ids[0])
    else FirstRepeat(ids[1..], seen + {ids[0]})
  }

  datatype ResolveError =
    | DuplicateImport(referenceId: string)
    | DuplicateReference(id: string)
    | NothingResolved(unresolved: seq<string>)

  datatype Resolved = Resolved(catalogs: seq<Catalog<Control>>, guidance: seq<Catalog<Guideline>>,
                               unresolved: seq<string>)

  function Resolve(policy: Policy, catalogs: Pool<Control>, guidance: Pool<Guideline>): Result<Resolved, ResolveError> {
    var repeatedImport := FirstRepeat(ImportRefs(policy), {});
    var repeatedRef := FirstRepeat(ReferenceIds(policy.mappingReferences), {});
    if repeatedImport.Some? then Failure(DuplicateImport(repeatedImport.value))
    else if repeatedRef.Some? then Failure(DuplicateReference(repeatedRef.value))
    else
      var declared := Declared(policy.mappingReferences);
      var c := ResolveCatalogs(policy.catalogImports, declared, catalogs);
      var g := ResolveGuidance(policy.guidanceImports, declared, guidance);
      if ImportRefs(policy) != [] && c.catalogs == [] && g.catalogs == [] then
        Failure(NothingResolved(c.unresolved + g.unresolved))
      else
        Success(Resolved(c.catalogs, g.catalogs, c.unresolved + g.unresolved))
  }

  // ----- when resolving succeeds -----

  lemma {:induction false} FirstRepeatMeaning(ids: seq<string>, seen: set<string>)
    ensures FirstRepeat(ids, seen) == None <==> Distinct(ids) && forall id <- ids :: id !in seen
  {
    if ids != [] {
      FirstRepeatMeaning(ids[1..], seen + {ids[0]});
      if FirstRepeat(ids, seen) == None {
        forall i, j | 0 <= i < j < |ids|
          ensures ids[i] != ids[j]
        {
          assert ids[1..][j - 1] == ids[j];
        }
      }
    }
  }

  /** An import reference is declared by the policy and names a loaded artifact. */
  predicate Available<T>(ref: string, declared: set<string>, pool: Pool<T>) { ref in declared && ref in pool }

  lemma {:induction false} CatalogsResolved(imports: seq<CatalogImport>, declared: set<string>, pool: Pool<Control>)
    ensures ResolveCatalogs(imports, declared, pool).catalogs != [] <==>
              exists imp <- imports :: Available(imp.referenceId, declared, pool)
  {
    if imports != [] {
      CatalogsResolved(imports[1..], declared, pool);
      assert imports[0] in imports;
      assert forall imp <- imports :: imp == imports[0] || imp in imports[1..];
    }
  }

  lemma {:induction false} GuidanceResolved(imports: seq<GuidanceImport>, declared: set<string>, pool: Pool<Guideline>)
    ensures ResolveGuidance(imports, declared, pool).catalogs != [] <==>
              exists imp <- imports :: Available(imp.referenceId, declared, pool)
  {
    if imports != [] {
      GuidanceResolved(imports[1..], declared, pool);
      assert imports[0] in imports;
      assert forall imp <- imports :: imp == imports[0] || imp in imports[1..];
    }
  }

  /** Resolving succeeds exactly when no import reference repeats across catalogs and guidance, no
      non-blank mapping reference repeats, and either nothing is imported or something resolves. */
  lemma {:induction false} ResolveSucceedsIff(policy: Policy, catalogs: Pool<Control>, guidance: Pool<Guideline>)
    ensures Resolve(policy, catalogs, guidance).Success? <==>
              && Distinct(ImportRefs(policy))
              && Distinct(ReferenceIds(policy.mappingReferences))
              && var declared := Declared(policy.mappingReferences);
                 || (policy.catalogImports == [] && policy.guidanceImports == [])
                 || (exists imp <- policy.catalogImports :: Available(imp.referenceId, declared, catalogs))
                 || (exists imp <- policy.guidanceImports :: Available(imp.referenceId, declared, guidance))
  {
    var declared := Declared(policy.mappingReferences);
    FirstRepeatMeaning(ImportRefs(policy), {});
    FirstRepeatMeaning(ReferenceIds(policy.mappingReferences), {});
    CatalogsResolved(policy.catalogImports, declared, catalogs);
    GuidanceResolved(policy.guidanceImports, declared, guidance);
  }

  // ----- when nothing is left unresolved -----

  /** Everything `primary` extends, directly or not, is loaded, and so is everything it imports. */
  ghost predicate Complete<T>(primary: Catalog<T>, pool: Pool<T>) {
    && (forall id :: Reachable(primary.bases, id, pool, {}) ==> id == primary.id || id in pool)
    && (forall m <- primary.imports :: m.referenceId == "" || m.referenceId in pool)
  }

  lemma {:induction false} NoImportMissing<T>(imports: seq<Mapping>, pool: Pool<T>)
    ensures ImportMissing(imports, pool) == [] <==> forall m <- imports :: m.referenceId == "" || m.referenceId in pool
  {
    if imports != [] {
      NoImportMissing(imports[1..], pool);
      assert imports[0] in imports;
      assert forall m <- imports :: m == imports[0] || m in imports[1..];
    }
  }

  lemma {:induction false} NothingLeftover<T>(primary: Catalog<T>, pool: Pool<T>)
    requires primary.id in pool ==> pool[primary.id].bases == primary.bases
    ensures Leftover(primary, pool) == [] <==> Complete(primary, pool)
  {
    FlattenVisitsReachable(primary, pool);
    NoImportMissing(primary.imports, pool);
    var missing := Missing(Visited(primary, pool), pool);
    if missing != [] {
      assert missing[0] in missing;
    }
  }

  lemma {:induction false} CatalogsComplete(imports: seq<CatalogImport>, declared: set<string>, pool: Pool<Control>)
    requires Keyed(pool, CatalogId)
    ensures ResolveCatalogs(imports, declared, pool).unresolved == [] <==>
              forall imp <- imports :: Available(imp.referenceId, declared, pool)
                  && Complete(pool[imp.referenceId], pool)
  {
    if imports != [] {
      var imp := imports[0];
      CatalogsComplete(imports[1..], declared, pool);
      assert imp in imports;
      assert forall i <- imports :: i == imp || i in imports[1..];
      if imp.referenceId in pool {
        NothingLeftover(pool[imp.referenceId], pool);
      }
    }
  }

  lemma {:induction false} GuidanceComplete(imports: seq<GuidanceImport>, declared: set<string>, pool: Pool<Guideline>)
    requires Keyed(pool, CatalogId)
    ensures ResolveGuidance(imports, declared, pool).unresolved == [] <==>
              forall imp <- imports :: Available(imp.referenceId, declared, pool)
                  && Complete(pool[imp.referenceId], pool)
  {
    if imports != [] {
      var imp := imports[0];
      GuidanceComplete(imports[1..], declared, pool);
      assert imp in imports;
      assert forall i <- imports :: i == imp || i in imports[1..];
      if imp.referenceId in pool {
        NothingLeftover(pool[imp.referenceId], pool);
      }
    }
  }

  /** On success, nothing is unresolved exactly when every import is declared and loaded, and all
      that an imported catalog extends (transitively) or imports is loaded too. */
  lemma {:induction false} UnresolvedEmptyIff(policy: Policy, catalogs: Pool<Control>, guidance: Pool<Guideline>)
    requires Keyed(catalogs, CatalogId) && Keyed(guidance, CatalogId)
    requires Resolve(policy, catalogs, guidance).Success?
    ensures var declared := Declared(policy.mappingReferences);
            Resolve(policy, catalogs, guidance).value.unresolved == [] <==>
              && (forall imp <- policy.catalogImports ::
                    Available(imp.referenceId, declared, catalogs) && Complete(catalogs[imp.referenceId], catalogs))
              && (forall imp <- policy.guidanceImports ::
                    Available(imp.referenceId, declared, guidance) && Complete(guidance[imp.referenceId], guidance))
  {
    var declared := Declared(policy.mappingReferences);
    CatalogsComplete(policy.catalogImports, declared, catalogs);
    GuidanceComplete(policy.guidanceImports, declared, guidance);
  }
}
