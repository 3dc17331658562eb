/** What resolved catalogs hold, in terms of the loaded catalogs and the policy alone. */
module ResolvedContents {
  import opened ExtendsGraph
  import opened Filters
  import opened Gemara
  import opened Overlays
  import opened Resolution
  import opened Sequences

  // ----- selective imports -----

  lemma {:induction false} KeepIsFilter<T>(items: seq<T>, id: T -> string, wanted: set<string>, p: T -> bool)
    requires forall x <- items :: p(x) <==> id(x) in wanted
    ensures IsFilter(Keep(items, id, wanted), items, p)
  {
    hide IsFilter;
    if items == [] {
      FilterNone(p);
    } else {
      var rest := Keep(items[1..], id, wanted);
      KeepIsFilter(items[1..], id, wanted, p);
      FilterCons(items[0], rest, items[1..], p);
      assert items == [items[0]] + items[1..];
      assert Keep(items, id, wanted) == if p(items[0]) then [items[0]] + rest else rest;
    }
  }

  lemma {:induction false} FilterAll<T>(items: seq<T>, p: T -> bool)
    requires forall x <- items :: p(x)
    ensures IsFilter(items, items, p)
  {
    hide IsFilter;
    if items == [] {
      FilterNone(p);
    } else {
      var n := |items| - 1;
      FilterAll(items[..n], p);
      FilterSnoc(items[..n], items[..n], items[n], p);
      assert items == items[..n] + [items[n]];
    }
  }

  /** An import takes, in catalog order and as often as they occur, all items when no entry is listed,
      and otherwise those with a non-blank id that is listed; from a catalog that is not loaded, none. */
  lemma {:induction false} ImportTakes<T>(m: Mapping, pool: Pool<T>, id: T -> string)
    ensures if m.referenceId != "" && m.referenceId in pool
            then IsFilter(Imported(m, pool, id), pool[m.referenceId].items,
                          x => m.entries == [] || (id(x) != "" && id(x) in m.entries))
            else Imported(m, pool, id) == []
  {
    hide IsFilter, Keep;
    if m.referenceId != "" && m.referenceId in pool {
      var items := pool[m.referenceId].items;
      var takes := (x: T) => m.entries == [] || (id(x) != "" && id(x) in m.entries);
      if m.entries == [] {
        FilterAll(items, takes);
      } else {
        KeepIsFilter(items, id, Wanted(m.entries), takes);
      }
    }
  }

  // ----- a flattened catalog -----

  lemma {:induction false} CollectJoins<T>(order: seq<string>, pool: Pool<T>)
    ensures Collect(order, pool) == Flatten(Images(order, v => if v in pool then pool[v].items else []))
  {
    var items := (v: string) => if v in pool then pool[v].items else [];
    if order != [] {
      CollectJoins(order[1..], pool);
      JoinCons(order[0], order[1..], items);
      assert order == [order[0]] + order[1..];
    }
  }

  lemma {:induction false} ImportItemsJoin<T>(imports: seq<Mapping>, pool: Pool<T>, id: T -> string)
    ensures ImportItems(imports, pool, id) == Flatten(Images(imports, m => Imported(m, pool, id)))
  {
    hide Imported;
    if imports != [] {
      ImportItemsJoin(imports[1..], pool, id);
      JoinCons(imports[0], imports[1..], (m: Mapping) => Imported(m, pool, id));
      assert imports == [imports[0]] + imports[1..];
    }
  }

  /** A flattened catalog keeps everything but its items and its extends: first its own items, then
      those of each catalog it visits, then what each import takes, in order. */
  lemma {:induction false} FlattenedIs<T>(primary: Catalog<T>, pool: Pool<T>, id: T -> string)
    ensures var order := Visited(primary, pool);
            Flattened(primary, pool, id) ==
              Catalog(primary.id, primary.title,
                      primary.items + Flatten(Images(order, v => if v in pool then pool[v].items else []))
                        + Flatten(Images(primary.imports, m => Imported(m, pool, id))),
                      [], primary.imports, primary.groups, primary.metadata, primary.exemptions, primary.rest)
  {
    hide Visited, Collect, ImportItems, Imported;
    CollectJoins(Visited(primary, pool), pool);
    ImportItemsJoin(primary.imports, pool, id);
  }

  /** A flattened control catalog is that with title, metadata, groups, imports and controls only. */
  lemma {:induction false} FlattenedControlsIs(primary: Catalog<Control>, pool: Pool<Control>)
    ensures FlattenedControls(primary, pool) ==
              Catalog(primary.id, primary.title, Flattened(primary, pool, ControlId).items, [], primary.imports,
                      primary.groups, primary.metadata, primary.exemptions, "")
  {
    hide Visited, Collect, ImportItems;
  }

  /** What some visited catalog or some import brings in. */
  ghost predicate Extended<T>(x: T, primary: Catalog<T>, pool: Pool<T>) {
    exists v :: v != primary.id && v in pool && Reachable(primary.bases, v, pool, {}) && x in pool[v].items
  }

  ghost predicate Selected<T>(x: T, m: Mapping, pool: Pool<T>, id: T -> string) {
    && m.referenceId != "" && m.referenceId in pool && x in pool[m.referenceId].items
    && (m.entries == [] || (id(x) != "" && id(x) in m.entries))
  }

  /** A flattened catalog holds an item exactly when it is its own, when a loaded catalog it extends,
      directly or not, holds it, or when an import of it selects it. */
  lemma {:induction false} FlattenedHolds<T>(primary: Catalog<T>, pool: Pool<T>, id: T -> string)
    requires primary.id in pool ==> pool[primary.id].bases == primary.bases
    ensures forall x :: x in Flattened(primary, pool, id).items <==>
              || x in primary.items || Extended(x, primary, pool)
              || exists m <- primary.imports :: Selected(x, m, pool, id)
  {
    hide Visited, Flattened, Imported, IsFilter, Reachable;
    var order := Visited(primary, pool);
    var items := (v: string) => if v in pool then pool[v].items else [];
    FlattenedIs(primary, pool, id);
    FlattenVisitsReachable(primary, pool);
    JoinHolds(order, items);
    JoinHolds(primary.imports, (m: Mapping) => Imported(m, pool, id));
    forall m: Mapping
      ensures forall x :: x in Imported(m, pool, id) <==> Selected(x, m, pool, id)
    {
      ImportHolds(m, pool, id);
    }
    forall x
      ensures (exists v <- order :: x in items(v)) <==> Extended(x, primary, pool)
    {
      if v :| v in order && x in items(v) {
        assert v in pool && x in pool[v].items;
      }
      if Extended(x, primary, pool) {
        var v :| v != primary.id && v in pool && Reachable(primary.bases, v, pool, {}) && x in pool[v].items;
        assert v in order && x in items(v);
      }
    }
  }

  lemma {:induction false} ImportHolds<T>(m: Mapping, pool: Pool<T>, id: T -> string)
    ensures forall x :: x in Imported(m, pool, id) <==> Selected(x, m, pool, id)
  {
    hide Imported, IsFilter;
    ImportTakes(m, pool, id);
    if m.referenceId != "" && m.referenceId in pool {
      FilterHolds(Imported(m, pool, id), pool[m.referenceId].items,
                  (x: T) => m.entries == [] || (id(x) != "" && id(x) in m.entries));
    }
  }

  // ----- overlays -----

  lemma {:induction false} ExcludeIsFilter<T>(items: seq<T>, id: T -> string, excluded: set<string>, p: T -> bool)
    requires forall x <- items :: p(x) <==> id(x) !in excluded
    ensures IsFilter(Exclude(items, id, excluded), items, p)
  {
    hide IsFilter;
    if items == [] {
      FilterNone(p);
    } else {
      var rest := Exclude(items[1..], id, excluded);
      ExcludeIsFilter(items[1..], id, excluded, p);
      FilterCons(items[0], rest, items[1..], p);
      assert items == [items[0]] + items[1..];
      assert Exclude(items, id, excluded) == if p(items[0]) then [items[0]] + rest else rest;
    }
  }

  lemma {:induction false} ModifyJoins(rs: seq<Requirement>, mods: seq<Modifier>)
    ensures ModifyRequirements(rs, mods) == Flatten(Images(rs, (r: Requirement) => Outcome(r, mods)))
  {
    hide Outcome;
    if rs != [] {
      ModifyJoins(rs[1..], mods);
      JoinCons(rs[0], rs[1..], (r: Requirement) => Outcome(r, mods));
      assert rs == [rs[0]] + rs[1..];
    }
  }

  /** `d` is `c` with each requirement replaced, in place, by what the modifiers make of it. */
  ghost predicate IsModified(d: Control, c: Control, mods: seq<Modifier>) {
    d == Control(c.id, c.title, Flatten(Images(c.requirements, (r: Requirement) => Outcome(r, mods))),
                 c.guidelines, c.threats, c.replacedBy, c.rest)
  }

  /** An overlaid catalog keeps everything but its controls: those not excluded, in order, each modified. */
  lemma {:induction false} OverlaidIs(c: Catalog<Control>, imp: CatalogImport) returns (kept: seq<Control>)
    ensures IsFilter(kept, c.items, (x: Control) => x.id !in imp.exclusions)
    ensures var d := OverlaidCatalog(c, imp);
            && |d.items| == |kept| && (forall i :: 0 <= i < |kept| ==> IsModified(d.items[i], kept[i], imp.modifiers))
            && d == Catalog(c.id, c.title, d.items, c.bases, c.imports, c.groups, c.metadata, c.exemptions, c.rest)
  {
    hide IsFilter, Exclude, Outcome;
    kept := Exclude(c.items, ControlId, Elements(imp.exclusions));
    ExcludeIsFilter(c.items, ControlId, Elements(imp.exclusions), (x: Control) => x.id !in imp.exclusions);
    var items := ModifyControls(kept, imp.modifiers);
    forall i | 0 <= i < |kept|
      ensures IsModified(items[i], kept[i], imp.modifiers)
    {
      ModifyJoins(kept[i].requirements, imp.modifiers);
    }
  }

  lemma {:induction false} OverlaidGuidanceIs(g: Catalog<Guideline>, imp: GuidanceImport)
    ensures var h := OverlaidGuidance(g, imp);
            && IsFilter(h.items, g.items, (x: Guideline) => x.id !in imp.exclusions)
            && h == Catalog(g.id, g.title, h.items, g.bases, g.imports, g.groups, g.metadata, g.exemptions, g.rest)
  {
    hide IsFilter, Exclude;
    ExcludeIsFilter(g.items, GuidelineId, Elements(imp.exclusions), (x: Guideline) => x.id !in imp.exclusions);
  }

  // ----- what is left unresolved -----

  lemma {:induction false} MissingIsFilter<T>(order: seq<string>, pool: Pool<T>)
    ensures IsFilter(Missing(order, pool), order, (id: string) => id !in pool)
  {
    hide IsFilter;
    var absent := (id: string) => id !in pool;
    if order == [] {
      FilterNone(absent);
    } else {
      MissingIsFilter(order[1..], pool);
      FilterCons(order[0], Missing(order[1..], pool), order[1..], absent);
      assert order == [order[0]] + order[1..];
      assert Missing(order, pool) ==
        if absent(order[0]) then [order[0]] + Missing(order[1..], pool) else Missing(order[1..], pool);
    }
  }

  lemma {:induction false} ImportMissingIsFilter<T>(imports: seq<Mapping>, pool: Pool<T>)
    ensures IsFilter(ImportMissing(imports, pool), Images(imports, (m: Mapping) => m.referenceId),
                     (ref: string) => ref != "" && ref !in pool)
  {
    hide IsFilter;
    var absent := (ref: string) => ref != "" && ref !in pool;
    var refs := Images(imports, (m: Mapping) => m.referenceId);
    if imports == [] {
      FilterNone(absent);
    } else {
      var rest := ImportMissing(imports[1..], pool);
      ImportMissingIsFilter(imports[1..], pool);
      FilterCons(refs[0], rest, Images(imports[1..], (m: Mapping) => m.referenceId), absent);
      assert refs == [refs[0]] + Images(imports[1..], (m: Mapping) => m.referenceId);
      assert ImportMissing(imports, pool) == if absent(refs[0]) then [refs[0]] + rest else rest;
    }
  }

  /** A flattened catalog leaves unresolved the visited ids that are not loaded, in walk order, and then
      the non-blank imported ids that are not. */
  lemma {:induction false} LeftoverIs<T>(primary: Catalog<T>, pool: Pool<T>)
    returns (extended: seq<string>, imported: seq<string>)
    ensures Leftover(primary, pool) == extended + imported
    ensures IsFilter(extended, Visited(primary, pool), (id: string) => id !in pool)
    ensures IsFilter(imported, Images(primary.imports, (m: Mapping) => m.referenceId),
                     (ref: string) => ref != "" && ref !in pool)
  {
    extended, imported := Missing(Visited(primary, pool), pool), ImportMissing(primary.imports, pool);
    MissingIsFilter(Visited(primary, pool), pool);
    ImportMissingIsFilter(primary.imports, pool);
  }

  // ----- one policy -----

  /** Some mapping reference of the policy has this non-blank id, and an artifact with it is loaded. */
  ghost predicate Found<T>(ref: string, policy: Policy, pool: Pool<T>) {
    ref != "" && ref in pool && exists r <- policy.mappingReferences :: r.id == ref
  }

  lemma {:induction false} FoundIsAvailable<T>(ref: string, policy: Policy, pool: Pool<T>)
    ensures Found(ref, policy, pool) <==> Available(ref, Declared(policy.mappingReferences), pool)
  {
  }

  /** A reference that is not found is left unresolved itself, one that is leaves what flattening leaves. */
  ghost function LeftBy<T>(ref: string, policy: Policy, pool: Pool<T>): seq<string> {
    if Found(ref, policy, pool) then Leftover(pool[ref], pool) else [ref]
  }

  /** The catalogs a policy's imports resolve to: one for each that is found, in order, flattened and
      overlaid; and what each import leaves unresolved. */
  ghost predicate AreCatalogs(part: Part<Control>, imports: seq<CatalogImport>, policy: Policy, pool: Pool<Control>) {
    && (exists kept :: IsFilter(kept, imports, (imp: CatalogImport) => Found(imp.referenceId, policy, pool))
                       && AreOverlaid(part.catalogs, kept, pool))
    && part.unresolved == Flatten(Images(imports, (imp: CatalogImport) => LeftBy(imp.referenceId, policy, pool)))
  }

  ghost predicate AreOverlaid(catalogs: seq<Catalog<Control>>, kept: seq<CatalogImport>, pool: Pool<Control>) {
    && |catalogs| == |kept|
    && forall i :: 0 <= i < |kept| ==>
         && kept[i].referenceId in pool
         && catalogs[i] == OverlaidCatalog(FlattenedControls(pool[kept[i].referenceId], pool), kept[i])
  }

  lemma {:induction false} CatalogsAre(imports: seq<CatalogImport>, policy: Policy, pool: Pool<Control>)
    ensures AreCatalogs(ResolveCatalogs(imports, Declared(policy.mappingReferences), pool), imports, policy, pool)
  {
    hide IsFilter, OverlaidCatalog, FlattenedControls, Leftover, Found;
    var declared := Declared(policy.mappingReferences);
    var found := (imp: CatalogImport) => Found(imp.referenceId, policy, pool);
    var left := (imp: CatalogImport) => LeftBy(imp.referenceId, policy, pool);
    if imports == [] {
      FilterNone(found);
      assert AreOverlaid([], [], pool);
    } else {
      var imp, tail := imports[0], ResolveCatalogs(imports[1..], declared, pool);
      CatalogsAre(imports[1..], policy, pool);
      FoundIsAvailable(imp.referenceId, policy, pool);
      var rest :| IsFilter(rest, imports[1..], found) && AreOverlaid(tail.catalogs, rest, pool);
      FilterCons(imp, rest, imports[1..], found);
      JoinCons(imp, imports[1..], left);
      assert imports == [imp] + imports[1..];
      var kept := if found(imp) then [imp] + rest else rest;
      assert AreOverlaid(ResolveCatalogs(imports, declared, pool).catalogs, kept, pool);
    }
  }

  ghost predicate AreGuidance(part: Part<Guideline>, imports: seq<GuidanceImport>, policy: Policy,
                              pool: Pool<Guideline>) {
    && (exists kept :: IsFilter(kept, imports, (imp: GuidanceImport) => Found(imp.referenceId, policy, pool))
                       && AreFiltered(part.catalogs, kept, pool))
    && part.unresolved == Flatten(Images(imports, (imp: GuidanceImport) => LeftBy(imp.referenceId, policy, pool)))
  }

  ghost predicate AreFiltered(catalogs: seq<Catalog<Guideline>>, kept: seq<GuidanceImport>, pool: Pool<Guideline>) {
    && |catalogs| == |kept|
    && forall i :: 0 <= i < |kept| ==>
         && kept[i].referenceId in pool
         && catalogs[i] == OverlaidGuidance(Flattened(pool[kept[i].referenceId], pool, GuidelineId), kept[i])
  }

  lemma {:induction false} GuidanceIs(imports: seq<GuidanceImport>, policy: Policy, pool: Pool<Guideline>)
    ensures AreGuidance(ResolveGuidance(imports, Declared(policy.mappingReferences), pool), imports, policy, pool)
  {
    hide IsFilter, OverlaidGuidance, Flattened, Leftover, Found;
    var declared := Declared(policy.mappingReferences);
    var found := (imp: GuidanceImport) => Found(imp.referenceId, policy, pool);
    var left := (imp: GuidanceImport) => LeftBy(imp.referenceId, policy, pool);
    if imports == [] {
      FilterNone(found);
      assert AreFiltered([], [], pool);
    } else {
      var imp, tail := imports[0], ResolveGuidance(imports[1..], declared, pool);
      GuidanceIs(imports[1..], policy, pool);
      FoundIsAvailable(imp.referenceId, policy, pool);
      var rest :| IsFilter(rest, imports[1..], found) && AreFiltered(tail.catalogs, rest, pool);
      FilterCons(imp, rest, imports[1..], found);
      JoinCons(imp, imports[1..], left);
      assert imports == [imp] + imports[1..];
      var kept := if found(imp) then [imp] + rest else rest;
      assert AreFiltered(ResolveGuidance(imports, declared, pool).catalogs, kept, pool);
    }
  }

  /** The first id to repeat an earlier one. */
  ghost predicate RepeatsFirst(ids: seq<string>, id: string) {
    exists j :: 0 <= j < |ids| && ids[j] == id && id in ids[..j] && Distinct(ids[..j])
  }

  lemma {:induction false} FirstRepeatIs(ids: seq<string>, done: seq<string>, rest: seq<string>)
    requires ids == done + rest && Distinct(done)
    ensures match FirstRepeat(rest, Elements(done))
            case Some(id) => RepeatsFirst(ids, id)
            case None => Distinct(ids)
    decreases |rest|
  {
    if rest == [] {
      assert ids == done;
    } else if rest[0] in done {
      assert ids[|done|] == rest[0] && ids[..|done|] == done;
    } else {
      ElementsAppend(done, [rest[0]]);
      assert Elements([rest[0]]) == {rest[0]};
      assert ids == (done + [rest[0]]) + rest[1..];
      FirstRepeatIs(ids, done + [rest[0]], rest[1..]);
    }
  }

  lemma {:induction false} ReferenceIdsAre(refs: seq<MappingReference>)
    ensures IsFilter(ReferenceIds(refs), Images(refs, (r: MappingReference) => r.id), (id: string) => id != "")
  {
    hide IsFilter;
    var named := (id: string) => id != "";
    var ids := Images(refs, (r: MappingReference) => r.id);
    if refs == [] {
      FilterNone(named);
    } else {
      var rest := ReferenceIds(refs[1..]);
      ReferenceIdsAre(refs[1..]);
      FilterCons(refs[0].id, rest, Images(refs[1..], (r: MappingReference) => r.id), named);
      assert ids == [refs[0].id] + Images(refs[1..], (r: MappingReference) => r.id);
      assert ReferenceIds(refs) == if named(refs[0].id) then [refs[0].id] + rest else rest;
    }
  }

  /** The reference ids of a policy's imports, catalogs before guidance. */
  ghost function ImportIds(policy: Policy): seq<string> {
    Images(policy.catalogImports, (imp: CatalogImport) => imp.referenceId)
    + Images(policy.guidanceImports, (imp: GuidanceImport) => imp.referenceId)
  }

  /** Some import of the policy is found. */
  ghost predicate SomeFound(policy: Policy, catalogs: Pool<Control>, guidance: Pool<Guideline>) {
    || (exists imp <- policy.catalogImports :: Found(imp.referenceId, policy, catalogs))
    || (exists imp <- policy.guidanceImports :: Found(imp.referenceId, policy, guidance))
  }

  /** Every outcome of resolving, with the inputs that lead to it: the first repeated import reference,
      the first repeated non-blank mapping reference, imports none of which is found, or a result. */
  lemma {:induction false} ResolveIs(policy: Policy, catalogs: Pool<Control>, guidance: Pool<Guideline>)
    returns (named: seq<string>)
    ensures IsFilter(named, Images(policy.mappingReferences, (r: MappingReference) => r.id), (id: string) => id != "")
    ensures var refs := ImportIds(policy);
            match Resolve(policy, catalogs, guidance)
            case Failure(DuplicateImport(id)) => RepeatsFirst(refs, id)
            case Failure(DuplicateReference(id)) =>
              Distinct(refs) && RepeatsFirst(named, id)
            case Failure(NothingResolved(left)) =>
              && Distinct(refs) && Distinct(named)
              && refs != [] && !SomeFound(policy, catalogs, guidance) && left == refs
            case Success(v) =>
              && Distinct(refs) && Distinct(named)
              && (refs == [] || SomeFound(policy, catalogs, guidance))
              && exists left, gleft ::
                   && AreCatalogs(Part(v.catalogs, left), policy.catalogImports, policy, catalogs)
                   && AreGuidance(Part(v.guidance, gleft), policy.guidanceImports, policy, guidance)
                   && v.unresolved == left + gleft
  {
    hide IsFilter, ResolveCatalogs, ResolveGuidance, AreCatalogs, AreGuidance, FirstRepeat, Found, RepeatsFirst,
      Distinct;
    named := ReferenceIds(policy.mappingReferences);
    ReferenceIdsAre(policy.mappingReferences);
    var refs := ImportIds(policy);
    assert refs == ImportRefs(policy);
    NothingRepeats(refs);
    NothingRepeats(named);
    var declared := Declared(policy.mappingReferences);
    var c := ResolveCatalogs(policy.catalogImports, declared, catalogs);
    var g := ResolveGuidance(policy.guidanceImports, declared, guidance);
    CatalogsAre(policy.catalogImports, policy, catalogs);
    GuidanceIs(policy.guidanceImports, policy, guidance);
    SomethingResolved(policy, catalogs, guidance);
    assert c == Part(c.catalogs, c.unresolved) && g == Part(g.catalogs, g.unresolved);
    if refs != [] && c.catalogs == [] && g.catalogs == [] {
      NothingFound(policy, catalogs, guidance);
    }
  }

  lemma {:induction false} NothingRepeats(ids: seq<string>)
    ensures match FirstRepeat(ids, {})
            case Some(id) => RepeatsFirst(ids, id)
            case None => Distinct(ids)
  {
    assert ids == [] + ids && Elements<string>([]) == {};
    FirstRepeatIs(ids, [], ids);
  }

  lemma {:induction false} SomethingResolved(policy: Policy, catalogs: Pool<Control>, guidance: Pool<Guideline>)
    ensures var declared := Declared(policy.mappingReferences);
            SomeFound(policy, catalogs, guidance) <==>
              || ResolveCatalogs(policy.catalogImports, declared, catalogs).catalogs != []
              || ResolveGuidance(policy.guidanceImports, declared, guidance).catalogs != []
  {
    hide Found, Available, Declared, ResolveCatalogs, ResolveGuidance;
    var declared := Declared(policy.mappingReferences);
    CatalogsResolved(policy.catalogImports, declared, catalogs);
    GuidanceResolved(policy.guidanceImports, declared, guidance);
    forall ref ensures Found(ref, policy, catalogs) <==> Available(ref, declared, catalogs) {
      FoundIsAvailable(ref, policy, catalogs);
    }
    forall ref ensures Found(ref, policy, guidance) <==> Available(ref, declared, guidance) {
      FoundIsAvailable(ref, policy, guidance);
    }
  }

  /** When no import is found, every one of them is left unresolved. */
  lemma {:induction false} NothingFound(policy: Policy, catalogs: Pool<Control>, guidance: Pool<Guideline>)
    requires !SomeFound(policy, catalogs, guidance)
    ensures var declared := Declared(policy.mappingReferences);
            ResolveCatalogs(policy.catalogImports, declared, catalogs).unresolved
            + ResolveGuidance(policy.guidanceImports, declared, guidance).unresolved == ImportIds(policy)
  {
    hide Found, ResolveCatalogs, ResolveGuidance, IsFilter;
    CatalogsAre(policy.catalogImports, policy, catalogs);
    GuidanceIs(policy.guidanceImports, policy, guidance);
    JoinSingles(policy.catalogImports, (imp: CatalogImport) => imp.referenceId,
                (imp: CatalogImport) => LeftBy(imp.referenceId, policy, catalogs));
    JoinSingles(policy.guidanceImports, (imp: GuidanceImport) => imp.referenceId,
                (imp: GuidanceImport) => LeftBy(imp.referenceId, policy, guidance));
  }

  lemma {:induction false} JoinSingles<S, T>(s: seq<S>, f: S -> T, parts: S -> seq<T>)
    requires forall x <- s :: parts(x) == [f(x)]
    ensures Flatten(Images(s, parts)) == Images(s, f)
  {
    if s != [] {
      JoinSingles(s[1..], f, parts);
      JoinCons(s[0], s[1..], parts);
      assert s == [s[0]] + s[1..];
    }
  }
}
