/** The extends walk in the program's own steps: loops over entries, one `seen` set shared and
    mutated by every level of the recursion, and a deep copy of each catalog it visits. Nothing
    that existed before a call is modified except the `seen` set of the walk in progress. */
module ExtendsWalk {
  import opened DeepCopy
  import opened ExtendsGraph
  import opened Gemara
  import opened GuidanceCopy
  import opened Sequences

  /** The map from ids to true that the walk mutates. */
  class SeenSet {
    var ids: set<string>

    constructor (id: string)
      ensures ids == {id}
    {
      ids := {id};
    }

    method Add(id: string)
      modifies this
      ensures ids == old(ids) + {id}
    {
      ids := ids + {id};
    }
  }

  type HPool = map<string, HCatalog>

  /** The arrays the pool's controls live in. */
  ghost function PoolArrays(pool: HPool): set<array<HControl>> {
    set id | id in pool && pool[id].controls != null :: pool[id].controls
  }

  function PoolView(pool: HPool): Pool<Control>
    reads PoolArrays(pool)
  {
    map id | id in pool ::
      assert pool[id].controls != null ==> pool[id].controls in PoolArrays(pool);
      CatalogView(pool[id])
  }

  /** The pool shows what it showed as long as its arrays are left alone. */
  twostate lemma {:induction false} PoolKept(pool: HPool)
    requires unchanged(PoolArrays(pool))
    ensures PoolView(pool) == old(PoolView(pool))
  {
    forall id | id in pool
      ensures CatalogView(pool[id]) == old(CatalogView(pool[id]))
    {
      assert pool[id].controls != null ==> pool[id].controls in PoolArrays(pool);
    }
  }

  // ----- the extends walk -----

  method WalkControlExtends(bases: seq<string>, pool: HPool, seen: SeenSet)
    returns (result: seq<HControl>, unresolved: seq<string>)
    modifies seen
    ensures var order := Walk(bases, PoolView(pool), old(seen.ids));
            && seen.ids == old(seen.ids) + Elements(order)
            && ControlViews(result) == Collect(order, PoolView(pool))
            && unresolved == Missing(order, PoolView(pool))
    ensures fresh(ControlsCells(result))
    decreases pool.Keys - seen.ids, |bases|
  {
    hide ControlViews, ControlsCells, PoolView, Walk, Collect, Missing;
    result, unresolved := [], [];
    ControlsOfNone();
    NothingVisited(PoolView(pool), seen.ids);
    ghost var view, start := PoolView(pool), seen.ids;
    ghost var order: seq<string> := [];
    for i := 0 to |bases|
      invariant PoolView(pool) == view
      invariant seen.ids == start + Elements(order)
      invariant Walk(bases, view, start) == order + Walk(bases[i..], view, seen.ids)
      invariant ControlViews(result) == Collect(order, view)
      invariant unresolved == Missing(order, view)
      invariant fresh(ControlsCells(result))
    {
      var id := bases[i];
      assert bases[i..][1..] == bases[i + 1..];
      if id == "" || id in seen.ids {
        WalkSkip(bases[i..], view, seen.ids);
        continue;
      }
      label Before:
      WalkVisit(order, bases[i..], view, seen.ids);
      ghost var below := Walk(Extends(view, id), view, seen.ids + {id});
      VisitContribution(order, id, below, view);
      var found, miss := VisitControlCatalog(id, pool, seen);
      PoolKept@Before(pool);
      ControlsAppend(result, found);
      result, unresolved, order := result + found, unresolved + miss, order + ([id] + below);
    }
    NothingVisited(view, seen.ids);
    assert bases[|bases|..] == [] && order + [] == order;
  }

  /** One turn of the walk's loop, for an entry that is neither blank nor seen. */
  method VisitControlCatalog(id: string, pool: HPool, seen: SeenSet)
    returns (result: seq<HControl>, unresolved: seq<string>)
    requires id !in seen.ids
    modifies seen
    ensures var view := PoolView(pool);
            var below := Walk(Extends(view, id), view, old(seen.ids) + {id});
            && seen.ids == old(seen.ids) + {id} + Elements(below)
            && ControlViews(result) == OwnItems(view, id) + Collect(below, view)
            && unresolved == Absent(view, id) + Missing(below, view)
    ensures fresh(ControlsCells(result))
    decreases pool.Keys - seen.ids, 0
  {
    hide ControlsCells, ControlViews, PoolView, Extends, OwnItems, Absent, Walk, Collect, Missing;
    NothingVisited(PoolView(pool), seen.ids + {id});
    ControlsOfNone();
    InPool(id, pool);
    label Before:
    seen.Add(id);
    PoolKept@Before(pool);
    if id !in pool {
      return [], [id];
    }
    var own := DeepCopyControls(pool[id].controls);
    result, unresolved := Controls(own), [];
    if |pool[id].bases| > 0 {
      var sub, miss := WalkControlExtends(pool[id].bases, pool, seen);
      PoolKept@Before(pool);
      ControlsAppend(result, sub);
      result, unresolved := result + sub, miss;
    }
  }

  /** What the value-level functions say of one id, in terms of the pool itself. */
  lemma {:induction false} InPool(id: string, pool: HPool)
    ensures var view := PoolView(pool);
            if id in pool then
              && OwnItems(view, id) == ControlViews(Controls(pool[id].controls))
              && Extends(view, id) == pool[id].bases && Absent(view, id) == []
            else OwnItems(view, id) == [] && Extends(view, id) == [] && Absent(view, id) == [id]
  {
    hide ControlViews;
  }

  lemma {:induction false} NothingVisited<T>(pool: Pool<T>, seen: set<string>)
    ensures Walk([], pool, seen) == [] && Collect([], pool) == [] && Missing([], pool) == []
  {
  }

  lemma {:induction false} WalkSkip<T>(bases: seq<string>, pool: Pool<T>, seen: set<string>)
    requires bases != [] && (bases[0] == "" || bases[0] in seen)
    ensures Walk(bases, pool, seen) == Walk(bases[1..], pool, seen)
  {
  }

  /** The walk of a list whose head is new visits the head, then everything below it, then the rest. */
  lemma {:induction false} WalkVisit<T>(order: seq<string>, bases: seq<string>, pool: Pool<T>, seen: set<string>)
    requires bases != [] && bases[0] != "" && bases[0] !in seen
    ensures var id := bases[0];
            var below := Walk(Extends(pool, id), pool, seen + {id});
            order + Walk(bases, pool, seen) ==
                order + ([id] + below) + Walk(bases[1..], pool, seen + {id} + Elements(below))
  {
    var id := bases[0];
    if id !in pool {
      assert Walk(Extends(pool, id), pool, seen + {id}) == [];
      assert seen + {id} + Elements([]) == seen + {id};
      assert [id] + [] == [id];
    }
  }

  lemma {:induction false} ControlsOfNone()
    ensures ControlViews([]) == [] && ControlsCells([]) == {}
  {
  }

  /** What visiting `id` and then everything below it adds to a walk that visited `order`. */
  lemma {:induction false} VisitContribution<T>(order: seq<string>, id: string, below: seq<string>, pool: Pool<T>)
    ensures Collect(order + ([id] + below), pool) == Collect(order, pool) + (OwnItems(pool, id) + Collect(below, pool))
    ensures Missing(order + ([id] + below), pool) == Missing(order, pool) + (Absent(pool, id) + Missing(below, pool))
    ensures Elements(order + ([id] + below)) == Elements(order) + {id} + Elements(below)
  {
    CollectAppend(order, [id] + below, pool);
    MissingAppend(order, [id] + below, pool);
    ElementsAppend(order, [id] + below);
    ElementsAppend([id], below);
    assert ([id] + below)[1..] == below;
  }

  /** flattenControlExtends: the catalog's own controls, then those of the catalogs it visits. */
  method FlattenControlExtends(primary: HCatalog, pool: HPool) returns (entries: seq<HControl>, unresolved: seq<string>)
    ensures var order := Visited(CatalogView(primary), PoolView(pool));
            && ControlViews(entries) == CatalogView(primary).items + Collect(order, PoolView(pool))
            && unresolved == Missing(order, PoolView(pool))
    ensures fresh(ControlsCells(entries))
  {
    hide ControlCells, ControlView, Walk, Collect, Missing;
    NothingVisited(PoolView(pool), {primary.id});
    label Before:
    var own := DeepCopyControls(primary.controls);
    PoolKept@Before(pool);
    assert CatalogView(primary).bases == primary.bases;
    entries, unresolved := Controls(own), [];
    if |primary.bases| == 0 {
      return;
    }
    var seen := new SeenSet(primary.id);
    PoolKept@Before(pool);
    label Start:
    var more, miss := WalkControlExtends(primary.bases, pool, seen);
    PoolKept@Start(pool);
    ControlsAppend(entries, more);
    entries, unresolved := entries + more, miss;
  }

  // ----- the guidance walk -----

  method WalkGuidanceExtends(bases: seq<string>, pool: GuidancePool, seen: SeenSet)
    returns (result: seq<HGuideline>, unresolved: seq<string>)
    modifies seen
    ensures var order := Walk(bases, GuidancePoolView(pool), old(seen.ids));
            && seen.ids == old(seen.ids) + Elements(order)
            && GuidelineViews(result) == Collect(order, GuidancePoolView(pool))
            && unresolved == Missing(order, GuidancePoolView(pool))
    ensures fresh(GuidelinesCells(result))
    decreases pool.Keys - seen.ids, |bases|
  {
    hide GuidelineViews, GuidelinesCells, GuidancePoolView, Walk, Collect, Missing;
    result, unresolved := [], [];
    GuidelinesOfNone();
    ghost var view, start := GuidancePoolView(pool), seen.ids;
    NothingVisited(view, start);
    ghost var order: seq<string> := [];
    for i := 0 to |bases|
      invariant seen.ids == start + Elements(order)
      invariant Walk(bases, view, start) == order + Walk(bases[i..], view, seen.ids)
      invariant GuidelineViews(result) == Collect(order, view)
      invariant unresolved == Missing(order, view)
      invariant fresh(GuidelinesCells(result))
    {
      var id := bases[i];
      assert bases[i..][1..] == bases[i + 1..];
      if id == "" || id in seen.ids {
        WalkSkip(bases[i..], view, seen.ids);
        continue;
      }
      WalkVisit(order, bases[i..], view, seen.ids);
      ghost var below := Walk(Extends(view, id), view, seen.ids + {id});
      VisitContribution(order, id, below, view);
      var found, miss := VisitGuidanceCatalog(id, pool, seen);
      GuidelinesAppend(result, found);
      result, unresolved, order := result + found, unresolved + miss, order + ([id] + below);
    }
    NothingVisited(view, seen.ids);
    assert bases[|bases|..] == [] && order + [] == order;
  }

  method VisitGuidanceCatalog(id: string, pool: GuidancePool, seen: SeenSet)
    returns (result: seq<HGuideline>, unresolved: seq<string>)
    requires id !in seen.ids
    modifies seen
    ensures var view := GuidancePoolView(pool);
            var below := Walk(Extends(view, id), view, old(seen.ids) + {id});
            && seen.ids == old(seen.ids) + {id} + Elements(below)
            && GuidelineViews(result) == OwnItems(view, id) + Collect(below, view)
            && unresolved == Absent(view, id) + Missing(below, view)
    ensures fresh(GuidelinesCells(result))
    decreases pool.Keys - seen.ids, 0
  {
    hide GuidelineCells, GuidelineView, Walk, Collect, Missing;
    NothingVisited(GuidancePoolView(pool), seen.ids + {id});
    seen.Add(id);
    if id !in pool {
      return [], [id];
    }
    var own := DeepCopyGuidelines(pool[id].guidelines);
    result, unresolved := Items(own), [];
    if |pool[id].bases| > 0 {
      var sub, miss := WalkGuidanceExtends(pool[id].bases, pool, seen);
      GuidelinesAppend(result, sub);
      result, unresolved := result + sub, miss;
    }
  }

  method FlattenGuidanceExtends(primary: HGuidance, pool: GuidancePool)
    returns (entries: seq<HGuideline>, unresolved: seq<string>)
    ensures var order := Visited(GuidanceView(primary), GuidancePoolView(pool));
            && GuidelineViews(entries) == GuidanceView(primary).items + Collect(order, GuidancePoolView(pool))
            && unresolved == Missing(order, GuidancePoolView(pool))
    ensures fresh(GuidelinesCells(entries))
  {
    hide GuidelineCells, GuidelineView, Walk, Collect, Missing;
    NothingVisited(GuidancePoolView(pool), {primary.id});
    var own := DeepCopyGuidelines(primary.guidelines);
    entries, unresolved := Items(own), [];
    if |primary.bases| == 0 {
      return;
    }
    var seen := new SeenSet(primary.id);
    var more, miss := WalkGuidanceExtends(primary.bases, pool, seen);
    GuidelinesAppend(entries, more);
    entries, unresolved := entries + more, miss;
  }
}
