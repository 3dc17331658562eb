/** Resolving policies against one shared set of artifacts. No method here may modify anything that
    existed before it was called: the pool keeps showing what it showed, and every object a resolved
    catalog is made of is new. */
module Resolver {
  import opened DeepCopy
  import opened ExtendsGraph
  import opened ExtendsWalk
  import opened Gemara
  import opened GuidanceCopy
  import opened OverlayPass
  import opened Overlays
  import opened PolicyIndex
  import opened Resolution
  import opened Sequences

  // ----- one catalog -----

  /** The entries of one catalog whose ids are wanted, each copied. */
  method CopyWanted(controls: array?<HControl>, wanted: set<string>) returns (result: seq<HControl>)
    ensures ControlViews(result) == Keep(ControlViews(Controls(controls)), ControlId, wanted)
    ensures fresh(ControlsCells(result))
  {
    hide ControlView, ControlCells, Keep;
    result := [];
    var source := Controls(controls);
    KeepNone(ControlViews(source), ControlId, wanted);
    for i := 0 to |source|
      invariant Controls(controls) == source
      invariant Keep(ControlViews(source), ControlId, wanted) ==
          ControlViews(result) + Keep(ControlViews(source)[i..], ControlId, wanted)
      invariant fresh(ControlsCells(result))
    {
      KeepNext(ControlViews(source), i, ControlId, wanted);
      ViewKeepsId(source[i]);
      if source[i].id in wanted {
        var c := CopyControl(source[i]);
        ControlsAppend(result, [c]);
        result := result + [c];
      }
    }
    KeepNone(ControlViews(source)[|source|..], ControlId, wanted);
  }

  lemma {:induction false} ViewKeepsId(c: HControl)
    ensures ControlView(c).id == c.id
    ensures ControlViews([c]) == [ControlView(c)]
  {
  }

  lemma {:induction false} KeepNone<T>(items: seq<T>, id: T -> string, wanted: set<string>)
    ensures items[0..] == items
    ensures items == [] ==> Keep(items, id, wanted) == []
  {
  }

  lemma {:induction false} KeepNext<T>(items: seq<T>, i: nat, id: T -> string, wanted: set<string>)
    requires i < |items|
    ensures Keep(items[i..], id, wanted) ==
        (if id(items[i]) in wanted then [items[i]] else []) + Keep(items[i + 1..], id, wanted)
  {
    assert items[i..][1..] == items[i + 1..];
  }

  /** One entry of the import list. */
  method ImportFrom(m: HMapping, pool: HPool) returns (result: seq<HControl>, unresolved: seq<string>)
    ensures var mapping := Mapping(m.referenceId, Items(m.entries));
            && ControlViews(result) == Imported(mapping, PoolView(pool), ControlId)
            && unresolved == ImportAbsent(mapping, PoolView(pool))
    ensures fresh(ControlsCells(result))
  {
    hide ControlView, ControlCells, Keep;
    result, unresolved := [], [];
    if m.referenceId == "" {
      return;
    }
    if m.referenceId !in pool {
      unresolved := [m.referenceId];
      return;
    }
    label Before:
    var cat := pool[m.referenceId];
    if |Items(m.entries)| == 0 {
      var all := DeepCopyControls(cat.controls);
      PoolKept@Before(pool);
      result := Controls(all);
    } else {
      result := CopyWanted(cat.controls, Wanted(Items(m.entries)));
      PoolKept@Before(pool);
    }
  }

  lemma {:induction false} ImportsNone<T>(imports: seq<Mapping>, pool: Pool<T>, id: T -> string)
    ensures imports[0..] == imports
    ensures imports == [] ==> ImportItems(imports, pool, id) == [] && ImportMissing(imports, pool) == []
  {
  }

  lemma {:induction false} ImportsNext<T>(imports: seq<Mapping>, i: nat, pool: Pool<T>, id: T -> string)
    requires i < |imports|
    ensures ImportItems(imports[i..], pool, id) ==
        Imported(imports[i], pool, id) + ImportItems(imports[i + 1..], pool, id)
    ensures ImportMissing(imports[i..], pool) == ImportAbsent(imports[i], pool) + ImportMissing(imports[i + 1..], pool)
  {
    hide Imported, ImportAbsent;
    assert imports[i..][1..] == imports[i + 1..];
  }

  method ResolveControlImports(imports: Slice?<HMapping>, pool: HPool)
    returns (result: seq<HControl>, unresolved: seq<string>)
    ensures var mappings := MappingViews(Items(imports));
            && ControlViews(result) == ImportItems(mappings, PoolView(pool), ControlId)
            && unresolved == ImportMissing(mappings, PoolView(pool))
    ensures fresh(ControlsCells(result))
  {
    hide ControlViews, ControlsCells, PoolView, Imported, ImportAbsent, ImportItems, ImportMissing;
    ControlsOfNone();
    result, unresolved := [], [];
    ghost var view, mappings := PoolView(pool), MappingViews(Items(imports));
    ImportsNone(mappings, view, ControlId);
    for i := 0 to |Items(imports)|
      invariant PoolView(pool) == view
      invariant ImportItems(mappings, view, ControlId) ==
          ControlViews(result) + ImportItems(mappings[i..], view, ControlId)
      invariant ImportMissing(mappings, view) == unresolved + ImportMissing(mappings[i..], view)
      invariant fresh(ControlsCells(result))
    {
      label Before:
      ImportsNext(mappings, i, view, ControlId);
      var found, miss := ImportFrom(Items(imports)[i], pool);
      PoolKept@Before(pool);
      ControlsAppend(result, found);
      result, unresolved := result + found, unresolved + miss;
    }
    ImportsNone(mappings[|mappings|..], view, ControlId);
  }

  method ResolveControlCatalog(primary: HCatalog, pool: HPool) returns (r: HCatalog, unresolved: seq<string>)
    ensures CatalogView(r) == FlattenedControls(CatalogView(primary), PoolView(pool))
    ensures unresolved == Leftover(CatalogView(primary), PoolView(pool))
    ensures fresh(CatalogCells(r))
  {
    hide ControlViews, ControlsCells, MappingsCells, MetadataCells, MetadataView, PoolView, Collect, Missing, Walk,
      ImportItems, ImportMissing;
    label Before:
    var controls, missing := FlattenControlExtends(primary, pool);
    PoolKept@Before(pool);
    var imported, missingImports := ResolveControlImports(primary.imports, pool);
    PoolKept@Before(pool);
    ControlsAppend(controls, imported);
    controls, unresolved := controls + imported, missing + missingImports;
    var slice := new HControl[|controls|](i requires 0 <= i < |controls| => controls[i]);
    assert slice[..] == controls;
    var metadata := DeepCopyMetadata(primary.metadata);
    var groups := CopySlice(primary.groups);
    var imports := CopyMappings(primary.imports);
    PoolKept@Before(pool);
    r := HCatalog(primary.id, primary.title, slice, [], imports, groups, metadata, "");
  }

  /** applyCatalogOverlays: another deep copy, filtered, then overwritten in place. */
  method ApplyCatalogOverlays(c: HCatalog, imp: CatalogImport) returns (r: HCatalog)
    ensures CatalogView(r) == OverlaidCatalog(old(CatalogView(c)), imp)
    ensures forall o <- CatalogCells(r) :: o in old(CatalogCells(c)) || fresh(o)
  {
    hide ControlViews, ControlsCells, MappingViews, MappingsCells, MetadataView, MetadataCells, ModifyControls, Exclude;
    var copied := DeepCopyControls(c.controls);
    var controls := ApplyControlExclusions(copied, imp.exclusions);
    ApplyModifications(controls, imp.modifiers);
    var metadata := DeepCopyMetadata(c.metadata);
    var groups := CopySlice(c.groups);
    r := c.(controls := controls, metadata := metadata, groups := groups);
  }

  // ----- one policy -----

  /** checkDuplicateImportRefs: catalogs and guidance share one namespace. */
  method CheckDuplicateImportRefs(policy: Policy) returns (repeated: Option<string>)
    ensures repeated == FirstRepeat(ImportRefs(policy), {})
  {
    var refs := ImportRefs(policy);
    var seen: set<string> := {};
    assert refs[0..] == refs;
    for i := 0 to |refs|
      invariant FirstRepeat(refs, {}) == FirstRepeat(refs[i..], seen)
    {
      assert refs[i..][1..] == refs[i + 1..];
      if refs[i] in seen {
        return Some(refs[i]);
      }
      seen := seen + {refs[i]};
    }
    return None;
  }

  /** buildRefIndex: each non-blank mapping-reference id, mapped to the metadata id it must equal. */
  method BuildRefIndex(refs: seq<MappingReference>) returns (index: Result<map<string, string>, string>)
    ensures match FirstRepeat(ReferenceIds(refs), {})
            case Some(id) => index == Failure(id)
            case None =>
              && index.Success? && index.value.Keys == Declared(refs)
              && forall id <- index.value :: index.value[id] == id
  {
    var idx: map<string, string> := map[];
    assert idx.Keys == {};
    assert refs[0..] == refs;
    for i := 0 to |refs|
      invariant FirstRepeat(ReferenceIds(refs), {}) == FirstRepeat(ReferenceIds(refs[i..]), idx.Keys)
      invariant idx.Keys == Declared(refs[..i])
      invariant forall id <- idx :: idx[id] == id
    {
      var ref := refs[i];
      assert refs[i..][1..] == refs[i + 1..];
      DeclaredNext(refs, i);
      assert ref.id == "" ==> ReferenceIds(refs[i..]) == ReferenceIds(refs[i + 1..]);
      if ref.id != "" {
        assert ReferenceIds(refs[i..])[1..] == ReferenceIds(refs[i + 1..]);
        if ref.id in idx {
          return Failure(ref.id);
        }
        ghost var before := idx.Keys;
        idx := idx[ref.id := ref.id];
        assert idx.Keys == before + {ref.id};
      }
    }
    assert refs[..|refs|] == refs;
    return Success(idx);
  }

  lemma {:induction false} DeclaredNext(refs: seq<MappingReference>, i: nat)
    requires i < |refs|
    ensures Declared(refs[..i + 1]) == Declared(refs[..i]) + if refs[i].id == "" then {} else {refs[i].id}
  {
    assert refs[..i + 1] == refs[..i] + [refs[i]];
    assert forall r :: r in refs[..i + 1] <==> r in refs[..i] || r == refs[i];
  }

  /** The arrays a run of resolved catalogs keeps its controls in. */
  ghost function CatalogArrays(cs: seq<HCatalog>): set<array<HControl>> {
    set c | c in cs && c.controls != null :: c.controls
  }

  function CatalogViews(cs: seq<HCatalog>): (s: seq<Catalog<Control>>)
    reads CatalogArrays(cs)
    ensures |s| == |cs|
    ensures forall i :: 0 <= i < |cs| ==> s[i] == CatalogView(cs[i])
  {
    seq(|cs|, i requires 0 <= i < |cs| reads CatalogArrays(cs) =>
      assert cs[i].controls != null ==> cs[i].controls in CatalogArrays(cs);
      CatalogView(cs[i]))
  }

  twostate lemma {:induction false} CatalogsKept(cs: seq<HCatalog>)
    requires unchanged(CatalogArrays(cs))
    ensures CatalogViews(cs) == old(CatalogViews(cs))
    ensures forall c <- cs :: CatalogCells(c) == old(CatalogCells(c))
  {
    forall c | c in cs
      ensures CatalogView(c) == old(CatalogView(c)) && CatalogCells(c) == old(CatalogCells(c))
    {
      assert c.controls != null ==> c.controls in CatalogArrays(cs);
    }
  }

  /** The catalog loop of ResolvePolicy. */
  method ResolveCatalogImports(imports: seq<CatalogImport>, index: map<string, string>, pool: HPool)
    returns (catalogs: seq<HCatalog>, unresolved: seq<string>)
    requires forall id <- index :: index[id] == id
    ensures ResolveCatalogs(imports, index.Keys, PoolView(pool)) == Part(CatalogViews(catalogs), unresolved)
    ensures forall c <- catalogs :: fresh(CatalogCells(c))
  {
    hide CatalogView, CatalogCells, Flattened, FlattenedControls, Leftover, OverlaidCatalog;
    catalogs, unresolved := [], [];
    ghost var view := PoolView(pool);
    ghost var whole := ResolveCatalogs(imports, index.Keys, view);
    assert imports[0..] == imports;
    for i := 0 to |imports|
      invariant PoolView(pool) == view
      invariant forall c <- catalogs :: fresh(CatalogCells(c))
      invariant var tail := ResolveCatalogs(imports[i..], index.Keys, view);
                whole == Part(CatalogViews(catalogs) + tail.catalogs, unresolved + tail.unresolved)
    {
      var imp := imports[i];
      assert imports[i..][1..] == imports[i + 1..];
      if imp.referenceId !in index || index[imp.referenceId] !in pool {
        unresolved := unresolved + [imp.referenceId];
        continue;
      }
      label Before:
      var resolved, missing := ResolveImport(pool[index[imp.referenceId]], imp, pool);
      PoolKept@Before(pool);
      CatalogsKept@Before(catalogs);
      CatalogsAppend(catalogs, resolved);
      PartNext(CatalogViews(catalogs), unresolved, imports[i..], index.Keys, view);
      catalogs, unresolved := catalogs + [resolved], unresolved + missing;
    }
    assert imports[|imports|..] == [];
  }

  /** An import that is declared and loaded: flatten, then overlay. */
  method ResolveImport(primary: HCatalog, imp: CatalogImport, pool: HPool)
    returns (r: HCatalog, unresolved: seq<string>)
    ensures CatalogView(r) == OverlaidCatalog(FlattenedControls(old(CatalogView(primary)), old(PoolView(pool))), imp)
    ensures unresolved == Leftover(old(CatalogView(primary)), old(PoolView(pool)))
    ensures fresh(CatalogCells(r))
  {
    hide CatalogView, CatalogCells, Flattened, FlattenedControls, Leftover, OverlaidCatalog;
    label Before:
    ghost var flat := FlattenedControls(CatalogView(primary), PoolView(pool));
    ghost var left := Leftover(CatalogView(primary), PoolView(pool));
    var resolved;
    resolved, unresolved := ResolveControlCatalog(primary, pool);
    PoolKept@Before(pool);
    CatalogsKept@Before([primary]);
    assert primary in [primary];
    assert CatalogView(resolved) == flat && unresolved == left;
    r := ApplyCatalogOverlays(resolved, imp);
  }

  lemma {:induction false} CatalogsAppend(cs: seq<HCatalog>, c: HCatalog)
    ensures CatalogViews(cs + [c]) == CatalogViews(cs) + [CatalogView(c)]
  {
  }

  lemma {:induction false} PartNext(done: seq<Catalog<Control>>, missing: seq<string>, imports: seq<CatalogImport>,
                                    declared: set<string>, pool: Pool<Control>)
    requires imports != [] && imports[0].referenceId in declared && imports[0].referenceId in pool
    ensures var primary := pool[imports[0].referenceId];
            var whole, tail := ResolveCatalogs(imports, declared, pool), ResolveCatalogs(imports[1..], declared, pool);
            && done + whole.catalogs ==
                done + [OverlaidCatalog(FlattenedControls(primary, pool), imports[0])] + tail.catalogs
            && missing + whole.unresolved == missing + Leftover(primary, pool) + tail.unresolved
  {
    hide Flattened, FlattenedControls, Leftover, OverlaidCatalog;
  }

  // ----- guidance -----

  method CopyWantedGuidelines(guidelines: seq<HGuideline>, wanted: set<string>) returns (result: seq<HGuideline>)
    ensures GuidelineViews(result) == Keep(GuidelineViews(guidelines), GuidelineId, wanted)
    ensures fresh(GuidelinesCells(result))
  {
    hide GuidelineView, GuidelineCells, Keep;
    result := [];
    ghost var views := GuidelineViews(guidelines);
    KeepNone(views, GuidelineId, wanted);
    for i := 0 to |guidelines|
      invariant Keep(views, GuidelineId, wanted) == GuidelineViews(result) + Keep(views[i..], GuidelineId, wanted)
      invariant fresh(GuidelinesCells(result))
    {
      KeepNext(views, i, GuidelineId, wanted);
      ViewKeepsGuidelineId(guidelines[i]);
      if guidelines[i].id in wanted {
        var g := CopyGuideline(guidelines[i]);
        GuidelinesAppend(result, [g]);
        result := result + [g];
      }
    }
    KeepNone(views[|guidelines|..], GuidelineId, wanted);
  }

  lemma {:induction false} ViewKeepsGuidelineId(g: HGuideline)
    ensures GuidelineView(g).id == g.id
    ensures GuidelineViews([g]) == [GuidelineView(g)]
  {
  }

  method ImportGuidelines(m: HMapping, pool: GuidancePool) returns (result: seq<HGuideline>, unresolved: seq<string>)
    ensures var mapping := Mapping(m.referenceId, Items(m.entries));
            && GuidelineViews(result) == Imported(mapping, GuidancePoolView(pool), GuidelineId)
            && unresolved == ImportAbsent(mapping, GuidancePoolView(pool))
    ensures fresh(GuidelinesCells(result))
  {
    hide GuidelineView, GuidelineCells, Keep;
    result, unresolved := [], [];
    if m.referenceId == "" {
      return;
    }
    if m.referenceId !in pool {
      unresolved := [m.referenceId];
      return;
    }
    var gc := pool[m.referenceId];
    if |Items(m.entries)| == 0 {
      var all := DeepCopyGuidelines(gc.guidelines);
      result := Items(all);
    } else {
      result := CopyWantedGuidelines(Items(gc.guidelines), Wanted(Items(m.entries)));
    }
  }

  method ResolveGuidanceEntries(imports: Slice?<HMapping>, pool: GuidancePool)
    returns (result: seq<HGuideline>, unresolved: seq<string>)
    ensures var mappings := MappingViews(Items(imports));
            && GuidelineViews(result) == ImportItems(mappings, GuidancePoolView(pool), GuidelineId)
            && unresolved == ImportMissing(mappings, GuidancePoolView(pool))
    ensures fresh(GuidelinesCells(result))
  {
    hide GuidelineViews, GuidelinesCells, GuidancePoolView, Imported, ImportAbsent, ImportItems, ImportMissing;
    GuidelinesOfNone();
    result, unresolved := [], [];
    ghost var view, mappings := GuidancePoolView(pool), MappingViews(Items(imports));
    ImportsNone(mappings, view, GuidelineId);
    for i := 0 to |Items(imports)|
      invariant ImportItems(mappings, view, GuidelineId) ==
          GuidelineViews(result) + ImportItems(mappings[i..], view, GuidelineId)
      invariant ImportMissing(mappings, view) == unresolved + ImportMissing(mappings[i..], view)
      invariant fresh(GuidelinesCells(result))
    {
      ImportsNext(mappings, i, view, GuidelineId);
      var found, miss := ImportGuidelines(Items(imports)[i], pool);
      GuidelinesAppend(result, found);
      result, unresolved := result + found, unresolved + miss;
    }
    ImportsNone(mappings[|mappings|..], view, GuidelineId);
  }

  method ResolveGuidanceCatalog(primary: HGuidance, pool: GuidancePool) returns (r: HGuidance, unresolved: seq<string>)
    ensures GuidanceView(r) == Flattened(GuidanceView(primary), GuidancePoolView(pool), GuidelineId)
    ensures unresolved == Leftover(GuidanceView(primary), GuidancePoolView(pool))
    ensures fresh(GuidanceCells(r))
  {
    hide GuidelineViews, GuidelinesCells, ExemptionsCells, MappingsCells, MetadataCells, MetadataView, GuidancePoolView,
      Collect, Missing, Walk, ImportItems, ImportMissing;
    var guidelines, missing := FlattenGuidanceExtends(primary, pool);
    var imported, missingImports := ResolveGuidanceEntries(primary.imports, pool);
    GuidelinesAppend(guidelines, imported);
    guidelines, unresolved := guidelines + imported, missing + missingImports;
    var slice := new Slice(guidelines);
    var metadata := DeepCopyMetadata(primary.metadata);
    var groups := CopySlice(primary.groups);
    var imports := CopyMappings(primary.imports);
    var exemptions := DeepCopyExemptions(primary.exemptions);
    r := HGuidance(primary.id, primary.title, slice, [], imports, groups, metadata, exemptions, primary.rest);
  }

  method ExcludeGuidelines(guidelines: Slice?<HGuideline>, exclusions: seq<string>) returns (kept: Slice?<HGuideline>)
    ensures kept == guidelines || fresh(Cell(kept))
    ensures GuidelineViews(Items(kept)) == Exclude(GuidelineViews(Items(guidelines)), GuidelineId, Elements(exclusions))
    ensures GuidelinesCells(Items(kept)) <= GuidelinesCells(Items(guidelines))
  {
    hide GuidelineView, GuidelineCells, Exclude;
    if |exclusions| == 0 {
      ExcludeNothing(GuidelineViews(Items(guidelines)), GuidelineId);
      assert Elements(exclusions) == {};
      return guidelines;
    }
    var filtered := FilterGuidelines(Items(guidelines), Elements(exclusions));
    kept := new Slice(filtered);
  }

  method FilterGuidelines(guidelines: seq<HGuideline>, excluded: set<string>) returns (filtered: seq<HGuideline>)
    ensures GuidelineViews(filtered) == Exclude(GuidelineViews(guidelines), GuidelineId, excluded)
    ensures GuidelinesCells(filtered) <= GuidelinesCells(guidelines)
  {
    hide GuidelineView, GuidelineCells, Exclude;
    filtered := [];
    ghost var views := GuidelineViews(guidelines);
    ExcludeNoGuidelines(views, excluded);
    for i := 0 to |guidelines|
      invariant Exclude(views, GuidelineId, excluded) ==
          GuidelineViews(filtered) + Exclude(views[i..], GuidelineId, excluded)
      invariant forall g <- filtered :: g in guidelines
    {
      ExcludeNextGuideline(views, i, excluded);
      ViewKeepsGuidelineId(guidelines[i]);
      if guidelines[i].id !in excluded {
        GuidelinesAppend(filtered, [guidelines[i]]);
        filtered := filtered + [guidelines[i]];
      }
    }
    ExcludeNoGuidelines(views[|guidelines|..], excluded);
  }

  lemma {:induction false} ExcludeNoGuidelines(guidelines: seq<Guideline>, excluded: set<string>)
    ensures guidelines[0..] == guidelines
    ensures guidelines == [] ==> Exclude(guidelines, GuidelineId, excluded) == []
  {
  }

  lemma {:induction false} ExcludeNextGuideline(guidelines: seq<Guideline>, i: nat, excluded: set<string>)
    requires i < |guidelines|
    ensures Exclude(guidelines[i..], GuidelineId, excluded)
         == (if guidelines[i].id in excluded then [] else [guidelines[i]]) +
             Exclude(guidelines[i + 1..], GuidelineId, excluded)
  {
    assert guidelines[i..][1..] == guidelines[i + 1..];
  }

  /** applyGuidanceOverlays: another deep copy, filtered. */
  method ApplyGuidanceOverlays(g: HGuidance, imp: GuidanceImport) returns (r: HGuidance)
    ensures GuidanceView(r) == OverlaidGuidance(GuidanceView(g), imp)
    ensures forall o <- GuidanceCells(r) :: o in GuidanceCells(g) || fresh(o)
  {
    hide GuidelineView, GuidelineCells, ExemptionsCells, MappingsCells, MetadataCells, Exclude;
    var copied := DeepCopyGuidelines(g.guidelines);
    var guidelines := ExcludeGuidelines(copied, imp.exclusions);
    var metadata := DeepCopyMetadata(g.metadata);
    var groups := CopySlice(g.groups);
    var exemptions := DeepCopyExemptions(g.exemptions);
    r := g.(guidelines := guidelines, metadata := metadata, groups := groups, exemptions := exemptions);
  }

  /** An import that is declared and loaded: flatten, then overlay. */
  method ResolveGuidanceImport(primary: HGuidance, imp: GuidanceImport, pool: GuidancePool)
    returns (r: HGuidance, unresolved: seq<string>)
    ensures GuidanceView(r) ==
        OverlaidGuidance(Flattened(GuidanceView(primary), GuidancePoolView(pool), GuidelineId), imp)
    ensures unresolved == Leftover(GuidanceView(primary), GuidancePoolView(pool))
    ensures fresh(GuidanceCells(r))
  {
    hide GuidanceView, GuidanceCells, GuidancePoolView, Flattened, FlattenedControls, Leftover, OverlaidGuidance;
    var resolved;
    resolved, unresolved := ResolveGuidanceCatalog(primary, pool);
    r := ApplyGuidanceOverlays(resolved, imp);
  }

  lemma {:induction false} GuidancePartNext(done: seq<Catalog<Guideline>>, missing: seq<string>,
                                            imports: seq<GuidanceImport>, declared: set<string>, pool: Pool<Guideline>)
    requires imports != [] && imports[0].referenceId in declared && imports[0].referenceId in pool
    ensures var primary := pool[imports[0].referenceId];
            var whole, tail := ResolveGuidance(imports, declared, pool), ResolveGuidance(imports[1..], declared, pool);
            && done + whole.catalogs ==
                done + [OverlaidGuidance(Flattened(primary, pool, GuidelineId), imports[0])] + tail.catalogs
            && missing + whole.unresolved == missing + Leftover(primary, pool) + tail.unresolved
  {
    hide Flattened, FlattenedControls, Leftover, OverlaidGuidance;
  }

  lemma {:induction false} GuidanceAppend(gs: seq<HGuidance>, g: HGuidance)
    ensures GuidanceViews(gs + [g]) == GuidanceViews(gs) + [GuidanceView(g)]
  {
    hide GuidanceView;
  }

  /** The guidance loop of ResolvePolicy. */
  method ResolveGuidanceImports(imports: seq<GuidanceImport>, index: map<string, string>, pool: GuidancePool)
    returns (guidance: seq<HGuidance>, unresolved: seq<string>)
    requires forall id <- index :: index[id] == id
    ensures ResolveGuidance(imports, index.Keys, GuidancePoolView(pool)) == Part(GuidanceViews(guidance), unresolved)
    ensures forall g <- guidance :: fresh(GuidanceCells(g))
  {
    hide GuidanceView, GuidanceCells, Flattened, FlattenedControls, Leftover, OverlaidGuidance;
    guidance, unresolved := [], [];
    ghost var view := GuidancePoolView(pool);
    ghost var whole := ResolveGuidance(imports, index.Keys, view);
    assert imports[0..] == imports;
    for i := 0 to |imports|
      invariant forall g <- guidance :: fresh(GuidanceCells(g))
      invariant var tail := ResolveGuidance(imports[i..], index.Keys, view);
                whole == Part(GuidanceViews(guidance) + tail.catalogs, unresolved + tail.unresolved)
    {
      var imp := imports[i];
      assert imports[i..][1..] == imports[i + 1..];
      if imp.referenceId !in index || index[imp.referenceId] !in pool {
        unresolved := unresolved + [imp.referenceId];
        continue;
      }
      var resolved, missing := ResolveGuidanceImport(pool[index[imp.referenceId]], imp, pool);
      GuidanceAppend(guidance, resolved);
      GuidancePartNext(GuidanceViews(guidance), unresolved, imports[i..], index.Keys, view);
      guidance, unresolved := guidance + [resolved], unresolved + missing;
    }
    assert imports[|imports|..] == [];
  }

  // ----- policies -----

  /** A resolved policy: what it is made of, and the indexes built over that. */
  datatype HResolved = HResolved(
    catalogs: seq<HCatalog>,
    guidance: seq<HGuidance>,
    unresolved: seq<string>,
    index: ResolvedPolicy)

  function ResolvedView(r: HResolved): Resolved
    reads CatalogArrays(r.catalogs)
  {
    Resolved(CatalogViews(r.catalogs), GuidanceViews(r.guidance), r.unresolved)
  }

  /** The indexes belong to the policy and agree with what it resolved to. */
  ghost predicate Indexed(r: HResolved, policy: Policy)
    reads r.index, CatalogArrays(r.catalogs)
  {
    && r.index.Valid()
    && r.index.policy == policy
    && ResolvedView(r) == Resolved(r.index.controlCatalogs, r.index.guidanceCatalogs, r.index.unresolved)
  }

  ghost function PartCells(catalogs: seq<HCatalog>, guidance: seq<HGuidance>): set<object>
    reads CatalogArrays(catalogs)
  {
    (set c, o | c in catalogs && o in CatalogCells(c) :: o) + (set g, o | g in guidance && o in GuidanceCells(g) :: o)
  }

  /** The objects a resolved policy is made of. */
  ghost function ResolvedCells(r: HResolved): set<object>
    reads CatalogArrays(r.catalogs)
  {
    PartCells(r.catalogs, r.guidance) + {r.index}
  }

  method NewResolvedPolicy(policy: Policy, catalogs: seq<HCatalog>, guidance: seq<HGuidance>, unresolved: seq<string>)
    returns (r: HResolved)
    ensures r.catalogs == catalogs && r.guidance == guidance && r.unresolved == unresolved
    ensures fresh(r.index) && Indexed(r, policy)
    ensures ResolvedView(r) == old(Resolved(CatalogViews(catalogs), GuidanceViews(guidance), unresolved))
    ensures ResolvedCells(r) == old(PartCells(catalogs, guidance)) + {r.index}
  {
    hide ResolvedPolicy.Valid, CatalogCells, CatalogView, GuidanceCells;
    label Before:
    var index := new ResolvedPolicy(policy, CatalogViews(catalogs), GuidanceViews(guidance), unresolved);
    CatalogsKept@Before(catalogs);
    r := HResolved(catalogs, guidance, unresolved, index);
  }

  /** The outcome is the one the values call for, and it shares no object with what existed before. */
  method ResolvePolicy(policy: Policy, catalogs: HPool, guidance: GuidancePool)
    returns (r: Result<HResolved, ResolveError>)
    ensures match Resolve(policy, old(PoolView(catalogs)), GuidancePoolView(guidance))
            case Success(v) => r.Success? && ResolvedView(r.value) == v
            case Failure(e) => r == Failure(e)
    ensures r.Success? ==> fresh(ResolvedCells(r.value)) && Indexed(r.value, policy)
    ensures PoolView(catalogs) == old(PoolView(catalogs))
  {
    hide Indexed, ResolvedView, ResolvedCells, PoolView, ResolveCatalogs, ResolveGuidance, FirstRepeat;
    label Before:
    var repeated := CheckDuplicateImportRefs(policy);
    PoolKept@Before(catalogs);
    if repeated.Some? {
      return Failure(DuplicateImport(repeated.value));
    }
    var refIndex := BuildRefIndex(policy.mappingReferences);
    PoolKept@Before(catalogs);
    if refIndex.Failure? {
      return Failure(DuplicateReference(refIndex.error));
    }
    r := ResolveIndexed(policy, refIndex.value, catalogs, guidance);
  }

  /** ResolvePolicy once its references are known to be distinct: the two loops and the final check. */
  method ResolveIndexed(policy: Policy, refIndex: map<string, string>, catalogs: HPool, guidance: GuidancePool)
    returns (r: Result<HResolved, ResolveError>)
    requires forall id <- refIndex :: refIndex[id] == id
    ensures var c := ResolveCatalogs(policy.catalogImports, refIndex.Keys, old(PoolView(catalogs)));
            var g := ResolveGuidance(policy.guidanceImports, refIndex.Keys, GuidancePoolView(guidance));
            if ImportRefs(policy) != [] && c.catalogs == [] && g.catalogs == []
            then r == Failure(NothingResolved(c.unresolved + g.unresolved))
            else r.Success? && ResolvedView(r.value) == Resolved(c.catalogs, g.catalogs, c.unresolved + g.unresolved)
    ensures r.Success? ==> fresh(ResolvedCells(r.value)) && Indexed(r.value, policy)
    ensures PoolView(catalogs) == old(PoolView(catalogs))
  {
    hide Indexed, ResolvedView, ResolvedCells, PoolView, ResolveCatalogs, ResolveGuidance, CatalogView, CatalogCells,
      GuidanceView, GuidanceCells;
    label Before:
    var resolvedCatalogs, unresolved := ResolveCatalogImports(policy.catalogImports, refIndex, catalogs);
    PoolKept@Before(catalogs);
    label After:
    var resolvedGuidance, missing := ResolveGuidanceImports(policy.guidanceImports, refIndex, guidance);
    PoolKept@Before(catalogs);
    CatalogsKept@After(resolvedCatalogs);
    assert fresh(PartCells(resolvedCatalogs, resolvedGuidance));
    unresolved := unresolved + missing;
    var hasImports := |policy.catalogImports| > 0 || |policy.guidanceImports| > 0;
    if hasImports && |resolvedCatalogs| == 0 && |resolvedGuidance| == 0 {
      return Failure(NothingResolved(unresolved));
    }
    var resolved := NewResolvedPolicy(policy, resolvedCatalogs, resolvedGuidance, unresolved);
    PoolKept@Before(catalogs);
    return Success(resolved);
  }
}
