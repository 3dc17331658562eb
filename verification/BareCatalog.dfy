/** A bare catalog resolved through a synthetic policy that imports only it. */
module BareCatalog {
  import opened DeepCopy
  import opened ExtendsGraph
  import opened ExtendsWalk
  import opened Gemara
  import opened Overlays
  import opened PolicyIndex
  import opened Resolution
  import opened Resolver
  import opened Sequences

  function SyntheticPolicy(name: string): Policy {
    Policy(name + "-synthetic", [MappingReference(name, "", "")], [CatalogImport(name, [], [])], [], [])
  }

  lemma {:induction false} NoOverlays(c: Catalog<Control>, imp: CatalogImport)
    requires imp.exclusions == [] && imp.modifiers == []
    ensures OverlaidCatalog(c, imp) == c
  {
    ExcludeNothing(c.items, ControlId);
    ModifyNothing(c.items);
    assert Elements<string>([]) == {};
  }

  lemma {:induction false} OnlyImport(imp: CatalogImport, declared: set<string>, pool: Pool<Control>)
    ensures ResolveCatalogs([imp], declared, pool) ==
              if imp.referenceId !in declared || imp.referenceId !in pool then Part([], [imp.referenceId])
              else var primary := pool[imp.referenceId];
                   Part([OverlaidCatalog(FlattenedControls(primary, pool), imp)], Leftover(primary, pool))
  {
    hide OverlaidCatalog, FlattenedControls, Leftover;
    assert [imp][1..] == [];
    assert ResolveCatalogs([], declared, pool) == Part([], []);
  }

  /** Wrapping a catalog resolves it exactly when its name is not blank, whatever it extends. */
  lemma {:induction false} SyntheticOutcome(name: string, cat: Catalog<Control>)
    ensures var pool := map[name := cat];
            Resolve(SyntheticPolicy(name), pool, map[]) ==
              if name == "" then Failure(NothingResolved([""]))
              else Success(Resolved([FlattenedControls(cat, pool)], [], Leftover(cat, pool)))
  {
    hide OverlaidCatalog, FlattenedControls, Leftover, ResolveCatalogs, FirstRepeat, Declared, ReferenceIds, ImportRefs;
    var policy, pool := SyntheticPolicy(name), map[name := cat];
    SyntheticIds(name);
    OnlyImport(CatalogImport(name, [], []), Declared(policy.mappingReferences), pool);
    NoOverlays(FlattenedControls(cat, pool), CatalogImport(name, [], []));
    var c := ResolveCatalogs(policy.catalogImports, Declared(policy.mappingReferences), pool);
    assert c.unresolved + [] == c.unresolved;
  }

  lemma {:induction false} SyntheticIds(name: string)
    ensures var policy := SyntheticPolicy(name);
            && ImportRefs(policy) == [name]
            && FirstRepeat(ImportRefs(policy), {}) == None
            && FirstRepeat(ReferenceIds(policy.mappingReferences), {}) == None
            && Declared(policy.mappingReferences) == if name == "" then {} else {name}
  {
    var policy := SyntheticPolicy(name);
    assert policy.mappingReferences[0] in policy.mappingReferences;
    assert ReferenceIds(policy.mappingReferences) == if name == "" then [] else [name];
  }

  // ----- what a catalog alone flattens to -----

  /** The ids not seen before, each once, in order. */
  function NewIds(ids: seq<string>, seen: set<string>): seq<string> {
    if ids == [] then []
    else if ids[0] in seen then NewIds(ids[1..], seen)
    else [ids[0]] + NewIds(ids[1..], seen + {ids[0]})
  }

  lemma {:induction false} NewIdsMeaning(ids: seq<string>, seen: set<string>)
    ensures Distinct(NewIds(ids, seen))
    ensures forall id :: id in NewIds(ids, seen) <==> id in ids && id !in seen
  {
    if ids != [] {
      assert forall id :: id in ids <==> id == ids[0] || id in ids[1..];
      NewIdsMeaning(ids[1..], if ids[0] in seen then seen else seen + {ids[0]});
    }
  }

  /** Ids seen already may be left out in front. */
  lemma {:induction false} NewIdsSkip(front: seq<string>, ids: seq<string>, seen: set<string>)
    requires forall id <- front :: id in seen
    ensures NewIds(front + ids, seen) == NewIds(ids, seen)
  {
    if front == [] {
      assert front + ids == ids;
    } else {
      assert front[0] in front && forall id <- front[1..] :: id in front;
      assert (front + ids)[1..] == front[1..] + ids;
      NewIdsSkip(front[1..], ids, seen);
    }
  }

  /** A walk that has seen every catalog of the pool meets only ids the pool lacks. */
  lemma {:induction false} WalkBeyond(bases: seq<string>, pool: Pool<Control>, seen: set<string>)
    requires pool.Keys <= seen
    ensures Walk(bases, pool, seen) == NewIds(bases, seen + {""})
  {
    if bases != [] {
      var id := bases[0];
      if id == "" || id in seen {
        WalkBeyond(bases[1..], pool, seen);
      } else {
        WalkBeyond(bases[1..], pool, seen + {id});
        assert seen + {id} + {""} == seen + {""} + {id};
      }
    }
  }

  lemma {:induction false} BeyondThePool(order: seq<string>, pool: Pool<Control>)
    requires forall id <- order :: id !in pool
    ensures Missing(order, pool) == order && Collect(order, pool) == []
  {
    if order != [] {
      assert order[0] in order && forall id <- order[1..] :: id in order;
      BeyondThePool(order[1..], pool);
    }
  }

  /** The catalog meets itself once more when it extends its own name and that is not its id. */
  lemma {:induction false} WalkBare(bases: seq<string>, name: string, cat: Catalog<Control>, seen: set<string>)
    requires name != "" && name !in seen
    requires exists done :: cat.bases == done + bases && forall id <- done :: id in seen + {""}
    ensures var pool := map[name := cat];
            && Missing(Walk(bases, pool, seen), pool) == NewIds(bases, seen + {"", name})
            && Collect(Walk(bases, pool, seen), pool) == if name in bases then cat.items else []
  {
    hide Walk, Collect, Missing;
    var pool := map[name := cat];
    if bases == [] {
      NothingVisited(pool, seen);
    } else {
      var id, rest := bases[0], bases[1..];
      var done :| cat.bases == done + bases && forall x <- done :: x in seen + {""};
      assert cat.bases == (done + [id]) + rest;
      assert name in bases <==> name == id || name in rest;
      if id == "" || id in seen {
        WalkSkip(bases, pool, seen);
        WalkBare(rest, name, cat, seen);
      } else if id != name {
        WalkAbsent(bases, pool, seen);
        assert forall x <- done + [id] :: x in seen + {id} + {""};
        WalkBare(rest, name, cat, seen + {id});
        assert seen + {id} + {"", name} == seen + {"", name} + {id};
      } else {
        WalkItself(bases, name, cat, seen, done);
      }
    }
  }

  lemma {:induction false} WalkAbsent(bases: seq<string>, pool: Pool<Control>, seen: set<string>)
    requires bases != [] && bases[0] != "" && bases[0] !in seen && bases[0] !in pool
    ensures var rest := Walk(bases[1..], pool, seen + {bases[0]});
            && Missing(Walk(bases, pool, seen), pool) == [bases[0]] + Missing(rest, pool)
            && Collect(Walk(bases, pool, seen), pool) == Collect(rest, pool)
  {
    var rest := Walk(bases[1..], pool, seen + {bases[0]});
    assert ([bases[0]] + rest)[1..] == rest;
  }

  /** Meeting itself, it walks its own entries again, which leaves nothing new among the remaining. */
  lemma {:induction false} WalkItself(bases: seq<string>, name: string, cat: Catalog<Control>, seen: set<string>,
                                      done: seq<string>)
    requires bases != [] && bases[0] == name && name != "" && name !in seen
    requires cat.bases == done + bases && forall id <- done :: id in seen + {""}
    ensures var pool := map[name := cat];
            && Missing(Walk(bases, pool, seen), pool) == NewIds(bases, seen + {"", name})
            && Collect(Walk(bases, pool, seen), pool) == cat.items
  {
    hide Walk, Collect, Missing, NewIds;
    var pool, again := map[name := cat], seen + {name};
    var below := NewIds(cat.bases, again + {""});
    WalkVisit([], bases, pool, seen);
    WalkBeyond(cat.bases, pool, again);
    WalkBeyond(bases[1..], pool, again + Elements(below));
    NewIdsMeaning(cat.bases, again + {""});
    NewIdsMeaning(bases[1..], again + Elements(below) + {""});
    assert forall id <- bases[1..] :: id in bases && id in cat.bases;
    var after := NewIds(bases[1..], again + Elements(below) + {""});
    SomeElement(after);
    assert Extends(pool, name) == cat.bases;
    JustOnce(Walk(bases, pool, seen), [name] + below, after);
    JustOnce([name] + below, [name] + below, []);
    VisitContribution([], name, below, pool);
    BeyondThePool(below, pool);
    NewIdsSkip(done, bases, again + {""});
    assert again + {""} == seen + {"", name};
    VisitNothing(pool);
  }

  lemma {:induction false} JustOnce(order: seq<string>, found: seq<string>, after: seq<string>)
    requires [] + order == [] + found + after && after == []
    ensures order == found && [] + found == found
  {
    var none: seq<string> := [];
    assert none + order == order && none + found == found && found + none == found;
  }

  lemma {:induction false} VisitNothing(pool: Pool<Control>)
    ensures Collect([], pool) == [] && Missing([], pool) == []
  {
  }

  /** What the catalog imports from itself. */
  function OwnImports(imports: seq<Mapping>, name: string, cat: Catalog<Control>): seq<Control> {
    if imports == [] then []
    else
      var m, rest := imports[0], OwnImports(imports[1..], name, cat);
      if m.referenceId != name then rest
      else if m.entries == [] then cat.items + rest
      else Keep(cat.items, ControlId, Wanted(m.entries)) + rest
  }

  /** The references to any other catalog, in order. */
  function OtherImports(imports: seq<Mapping>, name: string): seq<string> {
    if imports == [] then []
    else
      var ref, rest := imports[0].referenceId, OtherImports(imports[1..], name);
      if ref == "" || ref == name then rest else [ref] + rest
  }

  lemma {:induction false} ImportsOfBare(imports: seq<Mapping>, name: string, cat: Catalog<Control>)
    requires name != ""
    ensures var pool := map[name := cat];
            && ImportItems(imports, pool, ControlId) == OwnImports(imports, name, cat)
            && ImportMissing(imports, pool) == OtherImports(imports, name)
  {
    if imports != [] {
      hide Keep;
      ImportsOfBare(imports[1..], name, cat);
    }
  }

  /** What a catalog alone resolves to under a non-blank name, whatever it extends and imports. Its own
      controls come again if it extends its name and that is not its id, then those it imports from
      itself; unresolved are its other bases, each once, and its other imports. */
  lemma {:induction false} BareOutcome(name: string, cat: Catalog<Control>)
    requires name != ""
    ensures var again := if name != cat.id && name in cat.bases then cat.items else [];
            var controls := cat.items + again + OwnImports(cat.imports, name, cat);
            var unresolved := NewIds(cat.bases, {"", cat.id, name}) + OtherImports(cat.imports, name);
            Resolve(SyntheticPolicy(name), map[name := cat], map[]) ==
              Success(Resolved([cat.(items := controls, bases := [], rest := "")], [], unresolved))
  {
    hide Resolve, Walk, Collect, Missing, ImportItems, ImportMissing, NewIds, OwnImports, OtherImports;
    var pool := map[name := cat];
    SyntheticOutcome(name, cat);
    ImportsOfBare(cat.imports, name, cat);
    FlattenedBare(name, cat);
  }

  lemma {:induction false} FlattenedBare(name: string, cat: Catalog<Control>)
    requires name != ""
    ensures var pool := map[name := cat];
            && Missing(Visited(cat, pool), pool) == NewIds(cat.bases, {"", cat.id, name})
            && Collect(Visited(cat, pool), pool) == if name != cat.id && name in cat.bases then cat.items else []
  {
    hide Walk, Collect, Missing, NewIds;
    var pool := map[name := cat];
    if name == cat.id {
      WalkBeyond(cat.bases, pool, {cat.id});
      NewIdsMeaning(cat.bases, {cat.id} + {""});
      BeyondThePool(NewIds(cat.bases, {cat.id} + {""}), pool);
      assert {cat.id} + {""} == {"", cat.id, name};
    } else {
      assert cat.bases == [] + cat.bases;
      WalkBare(cat.bases, name, cat, {cat.id});
      assert {cat.id} + {"", name} == {"", cat.id, name};
    }
  }

  /** A catalog that extends at most itself and imports nothing comes back with its own controls. */
  lemma {:induction false} SelfContained(name: string, cat: Catalog<Control>)
    requires name != ""
    requires forall id <- cat.bases :: id == "" || id == cat.id
    requires forall m <- cat.imports :: m.referenceId == ""
    ensures Resolve(SyntheticPolicy(name), map[name := cat], map[]) ==
              Success(Resolved([cat.(bases := [], rest := "")], [], []))
  {
    hide Resolve, NewIds, OwnImports, OtherImports;
    BareOutcome(name, cat);
    NewIdsMeaning(cat.bases, {"", cat.id, name});
    SomeElement(NewIds(cat.bases, {"", cat.id, name}));
    NoImports(cat.imports, name, cat);
    assert forall id <- cat.bases :: id in {"", cat.id, name};
    assert NewIds(cat.bases, {"", cat.id, name}) == [];
    assert cat.items + [] + [] == cat.items;
    var none: seq<string> := [];
    assert none + none == none;
  }

  lemma {:induction false} NoImports(imports: seq<Mapping>, name: string, cat: Catalog<Control>)
    requires name != "" && forall m <- imports :: m.referenceId == ""
    ensures OwnImports(imports, name, cat) == [] && OtherImports(imports, name) == []
  {
    if imports != [] {
      assert imports[0] in imports && forall m <- imports[1..] :: m in imports;
      NoImports(imports[1..], name, cat);
    }
  }

  /** Resolves and indexes one catalog; the indexes agree with what the catalog flattens to. */
  method ResolveFromCatalog(name: string, cat: HCatalog) returns (r: Result<ResolvedPolicy, ResolveError>)
    ensures r.Success? <==> name != ""
    ensures r.Failure? ==> r.error == NothingResolved([""])
    ensures r.Success? ==>
              var pool := map[name := old(CatalogView(cat))];
              && fresh(r.value) && r.value.Valid()
              && r.value.policy ==
                   Policy(name + "-synthetic", [MappingReference(name, "", "")], [CatalogImport(name, [], [])], [], [])
              && r.value.controlCatalogs == [FlattenedControls(pool[name], pool)]
              && r.value.guidanceCatalogs == []
              && r.value.unresolved == Leftover(pool[name], pool)
    ensures CatalogView(cat) == old(CatalogView(cat))
  {
    hide Resolve, CatalogView, CatalogViews, FlattenedControls, Leftover, PoolView;
    var policy := SyntheticPolicy(name);
    var pool := map[name := cat];
    OnlyCatalog(name, cat);
    SyntheticOutcome(name, CatalogView(cat));
    var one := ResolvePolicy(policy, pool, map[]);
    OnlyCatalog(name, cat);
    if one.Failure? {
      return Failure(one.error);
    }
    return Success(one.value.index);
  }

  lemma {:induction false} OnlyCatalog(name: string, cat: HCatalog)
    ensures PoolView(map[name := cat]) == map[name := CatalogView(cat)]
    ensures PoolView(map[name := cat])[name] == CatalogView(cat)
  {
    hide CatalogView;
  }
}
