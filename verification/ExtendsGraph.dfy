/** The `extends` graph of a pool of catalogs: the depth-first walk with one shared `seen` set,
    and what the order it visits ids in means in terms of the graph alone. */
module ExtendsGraph {
  import opened Gemara
  import opened Sequences

  /** What `id` extends; an id that is not in the pool extends nothing. */
  function Extends<T>(pool: Pool<T>, id: string): seq<string> {
    if id in pool then pool[id].bases else []
  }

  /** The ids the walk marks as seen, in the order it marks them. */
  function Walk<T>(bases: seq<string>, pool: Pool<T>, seen: set<string>): (order: seq<string>)
    decreases pool.Keys - seen, |bases|
  {
    if bases == [] then []
    else
      var id, rest := bases[0], bases[1..];
      if id == "" || id in seen then Walk(rest, pool, seen)
      else if id !in pool then [id] + Walk(rest, pool, seen + {id})
      else
        var sub := Walk(pool[id].bases, pool, seen + {id});
        [id] + sub + Walk(rest, pool, seen + {id} + Elements(sub))
  }

  // ----- depth-first order, without recursion over the graph -----

  /** The first entry that is neither blank nor seen. */
  function Pending(bases: seq<string>, seen: set<string>): Option<string> {
    if bases == [] then None
    else if bases[0] == "" || bases[0] in seen then Pending(bases[1..], seen)
    else Some(bases[0])
  }

  function OrElse<T>(x: Option<T>, y: Option<T>): Option<T> { if x.Some? then x else y }

  /** The pending entry of the most recently visited id that still has one; `start` comes last. */
  function Frontier<T>(start: seq<string>, order: seq<string>, pool: Pool<T>, seen: set<string>): Option<string>
    decreases |order|
  {
    if order == [] then Pending(start, seen)
    else OrElse(Pending(Extends(pool, order[|order| - 1]), seen), Frontier(start, order[..|order| - 1], pool, seen))
  }

  /** The id visited at `j` is the frontier of the ids visited before it; at the end of the order
      there is no frontier left. */
  ghost predicate FollowsFrontier<T>(start: seq<string>, order: seq<string>, j: nat, pool: Pool<T>, seen: set<string>)
    requires j <= |order|
  {
    Frontier(start, order[..j], pool, seen + Elements(order[..j])) == if j < |order| then Some(order[j]) else None
  }

  /** `order` is a depth-first preorder of the graph below `start`, outside `seen`. */
  ghost predicate IsDepthFirst<T>(start: seq<string>, order: seq<string>, pool: Pool<T>, seen: set<string>) {
    forall j: nat :: j <= |order| ==> FollowsFrontier(start, order, j, pool, seen)
  }

  lemma {:induction false} FrontierSplit<T>(start: seq<string>, front: seq<string>, back: seq<string>, pool: Pool<T>,
                                            seen: set<string>)
    ensures Frontier(start, front + back, pool, seen)
         == OrElse(Frontier([], back, pool, seen), Frontier(start, front, pool, seen))
    decreases |back|
  {
    if back == [] {
      assert front + back == front;
    } else {
      FrontierSplit(start, front, back[..|back| - 1], pool, seen);
      assert (front + back)[..|front + back| - 1] == front + back[..|back| - 1];
    }
  }

  lemma {:induction false} StaysExhausted(bases: seq<string>, seen: set<string>, more: set<string>)
    requires Pending(bases, seen) == None && seen <= more
    ensures Pending(bases, more) == None
  {
    if bases != [] {
      StaysExhausted(bases[1..], seen, more);
    }
  }

  lemma {:induction false} FrontierStaysExhausted<T>(start: seq<string>, order: seq<string>, pool: Pool<T>,
                                                     seen: set<string>, more: set<string>)
    requires Frontier(start, order, pool, seen) == None && seen <= more
    ensures Frontier(start, order, pool, more) == None
    decreases |order|
  {
    if order == [] {
      StaysExhausted(start, seen, more);
    } else {
      StaysExhausted(Extends(pool, order[|order| - 1]), seen, more);
      FrontierStaysExhausted(start, order[..|order| - 1], pool, seen, more);
    }
  }

  /** Positions inside the walk below `start[0]`. */
  lemma {:induction false} VisitBelow<T>(start: seq<string>, sub: seq<string>, rest: seq<string>, j: nat,
                                         pool: Pool<T>, seen: set<string>)
    requires start != [] && start[0] != "" && start[0] !in seen
    requires j < |sub|
    requires FollowsFrontier(Extends(pool, start[0]), sub, j, pool, seen + {start[0]})
    ensures FollowsFrontier(start, [start[0]] + sub + rest, j + 1, pool, seen)
  {
    var id := start[0];
    var order := [id] + sub + rest;
    var done := sub[..j];
    assert order[..j + 1] == [id] + done;
    var marked := seen + Elements(order[..j + 1]);
    assert marked == seen + {id} + Elements(done);
    FrontierSplit(start, [id], done, pool, marked);
    FrontierSplit(Extends(pool, id), [], done, pool, marked);
    assert [] + done == done;
  }

  lemma {:induction false} BelowIsExhausted<T>(start: seq<string>, sub: seq<string>, pool: Pool<T>, seen: set<string>)
    requires start != [] && start[0] in seen
    requires Frontier(Extends(pool, start[0]), sub, pool, seen) == None
    ensures Frontier(start, [start[0]] + sub, pool, seen) == Pending(start[1..], seen)
  {
    var id := start[0];
    FrontierSplit(start, [id], sub, pool, seen);
    FrontierSplit(Extends(pool, id), [], sub, pool, seen);
    assert [] + sub == sub;
    assert [id][..0] == [];
  }

  /** Once everything below `start[0]` is exhausted, it plays no further part. */
  lemma {:induction false} FrontierAfter<T>(start: seq<string>, sub: seq<string>, done: seq<string>, pool: Pool<T>,
                                            seen: set<string>)
    requires start != []
    requires Frontier(Extends(pool, start[0]), sub, pool, seen + {start[0]} + Elements(sub)) == None
    ensures var marked := seen + {start[0]} + Elements(sub) + Elements(done);
            && seen + Elements([start[0]] + sub + done) == marked
            && Frontier(start, [start[0]] + sub + done, pool, marked) == Frontier(start[1..], done, pool, marked)
  {
    var marked := seen + {start[0]} + Elements(sub) + Elements(done);
    SeenAfter(seen, start[0], sub, done);
    FrontierStaysExhausted(Extends(pool, start[0]), sub, pool, seen + {start[0]} + Elements(sub), marked);
    BelowIsExhausted(start, sub, pool, marked);
    FrontierSplit(start, [start[0]] + sub, done, pool, marked);
    FrontierSplit(start[1..], [], done, pool, marked);
    assert [] + done == done;
  }

  lemma {:induction false} SeenAfter(seen: set<string>, id: string, sub: seq<string>, done: seq<string>)
    ensures seen + Elements([id] + sub + done) == seen + {id} + Elements(sub) + Elements(done)
  {
    ElementsAppend([id], sub);
    ElementsAppend([id] + sub, done);
    assert Elements([id]) == {id};
  }

  /** Positions in the walk of the remaining entries. */
  lemma {:induction false} VisitAfter<T>(start: seq<string>, sub: seq<string>, rest: seq<string>, order: seq<string>,
                                         j: nat, pool: Pool<T>, seen: set<string>)
    requires start != [] && j <= |rest| && 1 + |sub| + j <= |order|
    requires order[..1 + |sub| + j] == [start[0]] + sub + rest[..j]
    requires j < |rest| <==> 1 + |sub| + j < |order|
    requires j < |rest| ==> order[1 + |sub| + j] == rest[j]
    requires Frontier(Extends(pool, start[0]), sub, pool, seen + {start[0]} + Elements(sub)) == None
    requires FollowsFrontier(start[1..], rest, j, pool, seen + {start[0]} + Elements(sub))
    ensures FollowsFrontier(start, order, 1 + |sub| + j, pool, seen)
  {
    FrontierAfter(start, sub, rest[..j], pool, seen);
  }

  /** A walk below the first entry followed by a walk of the remaining entries is one depth-first walk. */
  lemma {:induction false} VisitIsDepthFirst<T>(start: seq<string>, sub: seq<string>, rest: seq<string>, pool: Pool<T>,
                                                seen: set<string>)
    requires start != [] && start[0] != "" && start[0] !in seen
    requires IsDepthFirst(Extends(pool, start[0]), sub, pool, seen + {start[0]})
    requires IsDepthFirst(start[1..], rest, pool, seen + {start[0]} + Elements(sub))
    ensures IsDepthFirst(start, [start[0]] + sub + rest, pool, seen)
  {
    var order := [start[0]] + sub + rest;
    forall j: nat | j <= |order|
      ensures FollowsFrontier(start, order, j, pool, seen)
    {
      if j == 0 {
        assert order[..0] == [];
        assert seen + Elements(order[..0]) == seen;
      } else if j <= |sub| {
        VisitBelow(start, sub, rest, j - 1, pool, seen);
      } else {
        assert FollowsFrontier(Extends(pool, start[0]), sub, |sub|, pool, seen + {start[0]});
        assert sub[..|sub|] == sub;
        assert order[..j] == [start[0]] + sub + rest[..j - 1 - |sub|];
        VisitAfter(start, sub, rest, order, j - 1 - |sub|, pool, seen);
      }
    }
  }

  /** The walk visits ids in depth-first preorder, on every graph. */
  lemma {:induction false} WalkIsDepthFirst<T>(bases: seq<string>, pool: Pool<T>, seen: set<string>)
    ensures IsDepthFirst(bases, Walk(bases, pool, seen), pool, seen)
    decreases pool.Keys - seen, |bases|
  {
    if bases != [] {
      var id, rest := bases[0], bases[1..];
      if id == "" || id in seen {
        WalkIsDepthFirst(rest, pool, seen);
        SkipIsDepthFirst(bases, Walk(rest, pool, seen), pool, seen);
      } else {
        var sub := if id in pool then Walk(pool[id].bases, pool, seen + {id}) else [];
        if id in pool {
          WalkIsDepthFirst(pool[id].bases, pool, seen + {id});
        }
        var marked := seen + {id} + Elements(sub);
        WalkIsDepthFirst(rest, pool, marked);
        VisitIsDepthFirst(bases, sub, Walk(rest, pool, marked), pool, seen);
        if id !in pool {
          assert marked == seen + {id};
          assert [id] + sub == [id];
        }
      }
    }
  }

  lemma {:induction false} SkipIsDepthFirst<T>(start: seq<string>, order: seq<string>, pool: Pool<T>, seen: set<string>)
    requires start != [] && (start[0] == "" || start[0] in seen)
    requires IsDepthFirst(start[1..], order, pool, seen)
    ensures IsDepthFirst(start, order, pool, seen)
  {
    forall j: nat | j <= |order|
      ensures FollowsFrontier(start, order, j, pool, seen)
    {
      assert FollowsFrontier(start[1..], order, j, pool, seen);
      var done, marked := order[..j], seen + Elements(order[..j]);
      FrontierSplit(start, [], done, pool, marked);
      FrontierSplit(start[1..], [], done, pool, marked);
      assert [] + done == done;
    }
  }

  /** The graph, the starting entries and the excluded ids admit one depth-first preorder only. */
  lemma {:induction false} DepthFirstIsUnique<T>(start: seq<string>, order: seq<string>, other: seq<string>,
                                                 pool: Pool<T>, seen: set<string>)
    requires IsDepthFirst(start, order, pool, seen)
    requires IsDepthFirst(start, other, pool, seen)
    ensures order == other
  {
    var n := 0;
    while n < |order| && n < |other|
      invariant n <= |order| && n <= |other| && order[..n] == other[..n]
    {
      assert FollowsFrontier(start, order, n, pool, seen) && FollowsFrontier(start, other, n, pool, seen);
      assert order[..n + 1] == order[..n] + [order[n]];
      assert other[..n + 1] == other[..n] + [other[n]];
      n := n + 1;
    }
    assert FollowsFrontier(start, order, n, pool, seen) && FollowsFrontier(start, other, n, pool, seen);
  }

  // ----- reachability -----

  /** A path of non-blank `extends` entries out of `start` that stays clear of `avoid`. */
  ghost predicate IsPath<T>(start: seq<string>, path: seq<string>, pool: Pool<T>, avoid: set<string>) {
    && path != [] && path[0] in start
    && (forall i :: 0 <= i < |path| - 1 ==> path[i + 1] in Extends(pool, path[i]))
    && (forall i :: 0 <= i < |path| ==> path[i] != "" && path[i] !in avoid)
  }

  ghost predicate Reachable<T>(start: seq<string>, id: string, pool: Pool<T>, avoid: set<string>) {
    exists path :: IsPath(start, path, pool, avoid) && path[|path| - 1] == id
  }

  lemma {:induction false} PendingSource(bases: seq<string>, seen: set<string>)
    ensures match Pending(bases, seen)
            case Some(id) => id in bases && id != "" && id !in seen
            case None => forall id <- bases :: id == "" || id in seen
  {
    if bases != [] {
      PendingSource(bases[1..], seen);
    }
  }

  /** Where a frontier comes from, and what its absence says about every entry visited. */
  lemma {:induction false} FrontierSource<T>(start: seq<string>, order: seq<string>, pool: Pool<T>, seen: set<string>)
    ensures match Frontier(start, order, pool, seen)
            case Some(id) =>
              && id != "" && id !in seen
              && (id in start || exists i :: 0 <= i < |order| && id in Extends(pool, order[i]))
            case None =>
              && (forall id <- start :: id == "" || id in seen)
              && (forall i, id :: 0 <= i < |order| && id in Extends(pool, order[i]) ==> id == "" || id in seen)
    decreases |order|
  {
    if order == [] {
      PendingSource(start, seen);
    } else {
      PendingSource(Extends(pool, order[|order| - 1]), seen);
      FrontierSource(start, order[..|order| - 1], pool, seen);
    }
  }

  lemma {:induction false} PathExtends<T>(start: seq<string>, path: seq<string>, id: string, pool: Pool<T>,
                                          avoid: set<string>)
    requires IsPath(start, path, pool, avoid) && id in Extends(pool, path[|path| - 1])
    requires id != "" && id !in avoid
    ensures Reachable(start, id, pool, avoid)
  {
    var longer := path + [id];
    assert IsPath(start, longer, pool, avoid) && longer[|longer| - 1] == id;
  }

  lemma {:induction false} VisitedIsReachable<T>(start: seq<string>, order: seq<string>, pool: Pool<T>,
                                                 seen: set<string>, j: nat)
    requires IsDepthFirst(start, order, pool, seen) && j < |order|
    ensures Reachable(start, order[j], pool, seen)
    decreases j
  {
    assert FollowsFrontier(start, order, j, pool, seen);
    var before := order[..j];
    FrontierSource(start, before, pool, seen + Elements(before));
    var id := order[j];
    if id in start {
      assert IsPath(start, [id], pool, seen) && [id][|[id]| - 1] == id;
    } else {
      var i :| 0 <= i < |before| && id in Extends(pool, before[i]);
      VisitedIsReachable(start, order, pool, seen, i);
      var path :| IsPath(start, path, pool, seen) && path[|path| - 1] == order[i];
      PathExtends(start, path, id, pool, seen);
    }
  }

  lemma {:induction false} PathIsVisited<T>(start: seq<string>, order: seq<string>, pool: Pool<T>, seen: set<string>,
                                            path: seq<string>, k: nat)
    requires IsDepthFirst(start, order, pool, seen)
    requires IsPath(start, path, pool, seen) && k < |path|
    ensures path[k] in order
    decreases k
  {
    assert FollowsFrontier(start, order, |order|, pool, seen);
    var marked := seen + Elements(order);
    assert order[..|order|] == order;
    assert Frontier(start, order, pool, marked) == None;
    FrontierSource(start, order, pool, marked);
    if k > 0 {
      PathIsVisited(start, order, pool, seen, path, k - 1);
      var i :| 0 <= i < |order| && order[i] == path[k - 1];
      var id := path[k];
      assert path[k - 1 + 1] == id && id in Extends(pool, order[i]);
      assert id in marked;
    } else {
      assert path[0] in Elements(order);
    }
  }

  /** A depth-first preorder lists exactly the reachable ids, each once. */
  lemma {:induction false} DepthFirstIsReachability<T>(start: seq<string>, order: seq<string>, pool: Pool<T>,
                                                       seen: set<string>)
    requires IsDepthFirst(start, order, pool, seen)
    ensures Distinct(order)
    ensures forall id :: id in order <==> Reachable(start, id, pool, seen)
  {
    forall j | 0 <= j < |order|
      ensures order[j] !in order[..j] && Reachable(start, order[j], pool, seen)
    {
      assert FollowsFrontier(start, order, j, pool, seen);
      FrontierSource(start, order[..j], pool, seen + Elements(order[..j]));
      VisitedIsReachable(start, order, pool, seen, j);
    }
    forall i, j | 0 <= i < j < |order|
      ensures order[i] != order[j]
    {
      assert order[..j][i] == order[i];
    }
    forall id | Reachable(start, id, pool, seen)
      ensures id in order
    {
      var path :| IsPath(start, path, pool, seen) && path[|path| - 1] == id;
      PathIsVisited(start, order, pool, seen, path, |path| - 1);
    }
  }

  // ----- flattening one catalog -----

  function Visited<T>(primary: Catalog<T>, pool: Pool<T>): seq<string> {
    Walk(primary.bases, pool, {primary.id})
  }

  function OwnItems<T>(pool: Pool<T>, id: string): seq<T> {
    if id in pool then pool[id].items else []
  }

  /** The items of the visited catalogs, in visiting order. */
  function Collect<T>(order: seq<string>, pool: Pool<T>): seq<T> {
    if order == [] then [] else OwnItems(pool, order[0]) + Collect(order[1..], pool)
  }

  function Absent<T>(pool: Pool<T>, id: string): seq<string> {
    if id in pool then [] else [id]
  }

  /** The visited ids that name no catalog of the pool. */
  function Missing<T>(order: seq<string>, pool: Pool<T>): seq<string> {
    if order == [] then [] else Absent(pool, order[0]) + Missing(order[1..], pool)
  }

  lemma {:induction false} CollectAppend<T>(xs: seq<string>, ys: seq<string>, pool: Pool<T>)
    ensures Collect(xs + ys, pool) == Collect(xs, pool) + Collect(ys, pool)
  {
    if xs == [] {
      assert xs + ys == ys;
    } else {
      calc {
        Collect(xs + ys, pool);
        { assert (xs + ys)[1..] == xs[1..] + ys; }
        OwnItems(pool, xs[0]) + Collect(xs[1..] + ys, pool);
        { CollectAppend(xs[1..], ys, pool); }
        OwnItems(pool, xs[0]) + (Collect(xs[1..], pool) + Collect(ys, pool));
        Collect(xs, pool) + Collect(ys, pool);
      }
    }
  }

  lemma {:induction false} MissingAppend<T>(xs: seq<string>, ys: seq<string>, pool: Pool<T>)
    ensures Missing(xs + ys, pool) == Missing(xs, pool) + Missing(ys, pool)
  {
    if xs == [] {
      assert xs + ys == ys;
    } else {
      calc {
        Missing(xs + ys, pool);
        { assert (xs + ys)[1..] == xs[1..] + ys; }
        Absent(pool, xs[0]) + Missing(xs[1..] + ys, pool);
        { MissingAppend(xs[1..], ys, pool); }
        Absent(pool, xs[0]) + (Missing(xs[1..], pool) + Missing(ys, pool));
        Missing(xs, pool) + Missing(ys, pool);
      }
    }
  }

  lemma {:induction false} MissingSubset<T>(order: seq<string>, pool: Pool<T>)
    requires Distinct(order)
    ensures Distinct(Missing(order, pool))
    ensures forall id :: id in Missing(order, pool) <==> id in order && id !in pool
  {
    if order != [] {
      MissingSubset(order[1..], pool);
    }
  }

  /** A cycle back to the primary catalog adds nothing that is not reachable without it. */
  lemma {:induction false} ShortcutPrimary<T>(primary: Catalog<T>, pool: Pool<T>, path: seq<string>)
    requires primary.id in pool ==> pool[primary.id].bases == primary.bases
    requires IsPath(primary.bases, path, pool, {}) && path[|path| - 1] != primary.id
    ensures Reachable(primary.bases, path[|path| - 1], pool, {primary.id})
    decreases |path|
  {
    if primary.id in path {
      var i :| 0 <= i < |path| && path[i] == primary.id;
      assert path[i + 1] in Extends(pool, path[i]);
      ShortcutPrimary(primary, pool, path[i + 1..]);
    } else {
      assert IsPath(primary.bases, path, pool, {primary.id});
    }
  }

  /** Flattening a catalog of a pool keyed by metadata id visits, in the one depth-first preorder,
      exactly the ids reachable from it other than itself, each once, and reports as unresolved
      exactly those of them that the pool lacks, each once. */
  lemma {:induction false} FlattenVisitsReachable<T>(primary: Catalog<T>, pool: Pool<T>)
    requires primary.id in pool ==> pool[primary.id].bases == primary.bases
    ensures IsDepthFirst(primary.bases, Visited(primary, pool), pool, {primary.id})
    ensures Distinct(Visited(primary, pool))
    ensures forall id :: id in Visited(primary, pool) <==> id != primary.id && Reachable(primary.bases, id, pool, {})
    ensures Distinct(Missing(Visited(primary, pool), pool))
    ensures forall id :: id in Missing(Visited(primary, pool), pool) <==>
              id != primary.id && id !in pool && Reachable(primary.bases, id, pool, {})
  {
    var order := Visited(primary, pool);
    WalkIsDepthFirst(primary.bases, pool, {primary.id});
    DepthFirstIsReachability(primary.bases, order, pool, {primary.id});
    MissingSubset(order, pool);
    forall id
      ensures id in order <==> id != primary.id && Reachable(primary.bases, id, pool, {})
    {
      if id in order {
        var path :| IsPath(primary.bases, path, pool, {primary.id}) && path[|path| - 1] == id;
        assert IsPath(primary.bases, path, pool, {});
      } else if id != primary.id && Reachable(primary.bases, id, pool, {}) {
        var path :| IsPath(primary.bases, path, pool, {}) && path[|path| - 1] == id;
        ShortcutPrimary(primary, pool, path);
      }
    }
  }
}
