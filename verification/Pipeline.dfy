/** Loading the configured sources into a single set, and resolving every loaded policy against it. */
module Pipeline {
  import opened ArtifactSets
  import opened DeepCopy
  import opened ExtendsWalk
  import opened Gemara
  import opened GuidanceCopy
  import opened LoadReport
  import opened PolicyIndex
  import opened Resolution
  import opened Resolver
  import opened Sequences
  import opened Sources

  /** The load loop: it reports no error exactly when every source loads and no two conflict; then
      the set holds exactly what the sources hold and every policy is mapped to its only source. */
  method LoadSources(sources: seq<Source>)
    returns (loaded: ArtifactSet, policySources: map<string, string>, errors: seq<LoadError>)
    ensures fresh(loaded)
    ensures errors == [] <==> AllLoaded(sources) && !Conflict(sources)
    ensures Reports(errors, sources)
    ensures errors == [] ==> Merged(loaded.View(), sources) && loaded.View() == UnionOf(sources)
    ensures errors == [] ==> IsUnion(policySources, NamedParts(sources)) && policySources.Keys == loaded.policies.Keys
    ensures errors == [] ==> Holds(loaded.View(), sources) && Traces(policySources, sources)
  {
    hide Merged, IsUnion, Disjoint, Clash, Conflict, UnionOf, Accounts, Holds, Traces;
    loaded := new ArtifactSet();
    policySources, errors := map[], [];
    NothingMerged();
    NothingReported();
    for i := 0 to |sources|
      invariant fresh(loaded)
      invariant errors == [] <==> AllLoaded(sources[..i]) && !Conflict(sources[..i])
      invariant errors == [] ==> Merged(loaded.View(), sources[..i]) && loaded.View() == UnionOf(sources[..i])
      invariant errors == [] ==> IsUnion(policySources, NamedParts(sources[..i]))
      invariant errors == [] ==> policySources.Keys == loaded.policies.Keys
      invariant Accounts(errors, loaded.View(), sources[..i])
    {
      var s := sources[i];
      assert sources[..i + 1] == sources[..i] + [s];
      assert AllLoaded(sources[..i + 1]) <==> AllLoaded(sources[..i]) && s.loaded.Some?;
      ConflictNext(sources[..i], s);
      if s.loaded.None? {
        ReportUnloadable(errors, loaded.View(), sources[..i], s);
        errors := errors + [Unloadable(s.name)];
        continue;
      }
      ghost var before := loaded.View();
      var clash := loaded.Merge(s.loaded.value);
      MergedIds(before, loaded.View(), s.loaded.value);
      if errors == [] {
        ClashWithMerged(before, sources[..i], s);
      }
      if clash.Some? {
        ReportDuplicate(errors, before, loaded.View(), sources[..i], s, clash.value);
        errors := errors + [Duplicate(s.name, clash.value)];
        continue;
      }
      ReportNothing(errors, before, sources[..i], s);
      if errors == [] {
        MergedNext(before, sources[..i], s);
        UnionOfNext(sources[..i], s);
        PoliciesApart(before, s);
        NamedNext(policySources, sources[..i], s);
      }
      policySources := policySources + Named(s);
    }
    assert sources[..|sources|] == sources;
    ReportOf(errors, loaded.View(), sources);
    if errors == [] {
      MergedHolds(loaded.View(), sources);
      NamedTraces(policySources, sources);
    }
  }

  // ----- resolving every policy against the one set -----

  ghost function ResolvedArrays(resolved: map<string, HResolved>): set<array<HControl>> {
    set id, a | id in resolved && a in CatalogArrays(resolved[id].catalogs) :: a
  }

  ghost function Indexes(resolved: map<string, HResolved>): set<ResolvedPolicy> {
    set id | id in resolved :: resolved[id].index
  }

  twostate lemma {:induction false} ResolvedKept(resolved: map<string, HResolved>)
    requires unchanged(ResolvedArrays(resolved)) && unchanged(Indexes(resolved))
    ensures forall id <- resolved, p: Policy :: Indexed(resolved[id], p) <==> old(Indexed(resolved[id], p))
    ensures forall id <- resolved :: ResolvedView(resolved[id]) == old(ResolvedView(resolved[id]))
    ensures forall id <- resolved :: ResolvedCells(resolved[id]) == old(ResolvedCells(resolved[id]))
  {
    forall id | id in resolved
      ensures ResolvedView(resolved[id]) == old(ResolvedView(resolved[id]))
      ensures ResolvedCells(resolved[id]) == old(ResolvedCells(resolved[id]))
    {
      var cs := resolved[id].catalogs;
      assert CatalogArrays(cs) <= ResolvedArrays(resolved);
      CatalogsKept(cs);
    }
  }

  /** One more policy beside those already resolved, which keep all they show. */
  method ResolveBeside(policy: Policy, catalogs: HPool, guidance: GuidancePool, ghost resolved: map<string, HResolved>)
    returns (r: Result<HResolved, ResolveError>)
    ensures match Resolve(policy, old(PoolView(catalogs)), GuidancePoolView(guidance))
            case Success(v) => r.Success? && ResolvedView(r.value) == v
            case Failure(e) => r == Failure(e)
    ensures r.Success? ==> fresh(ResolvedCells(r.value)) && Indexed(r.value, policy)
    ensures PoolView(catalogs) == old(PoolView(catalogs))
    ensures forall id <- resolved, p: Policy :: Indexed(resolved[id], p) <==> old(Indexed(resolved[id], p))
    ensures forall id <- resolved :: ResolvedView(resolved[id]) == old(ResolvedView(resolved[id]))
    ensures forall id <- resolved :: ResolvedCells(resolved[id]) == old(ResolvedCells(resolved[id]))
  {
    hide Resolve, ResolvedView, ResolvedCells, PoolView, Indexed;
    label Before:
    r := ResolvePolicy(policy, catalogs, guidance);
    ResolvedKept@Before(resolved);
  }

  /** Policies are taken in any order. Each one that resolves gives exactly what it gives alone, made
      of new objects that no other policy's result shares, and the shared pool is left as it was. */
  method ResolveAll(policies: map<string, Policy>, catalogs: HPool, guidance: GuidancePool)
    returns (r: Result<map<string, HResolved>, (string, ResolveError)>)
    ensures PoolView(catalogs) == old(PoolView(catalogs))
    ensures r.Success? <==> forall id <- policies ::
        Resolve(policies[id], old(PoolView(catalogs)), GuidancePoolView(guidance)).Success?
    ensures r.Success? ==> r.value.Keys == policies.Keys
    ensures r.Success? ==> forall id <- policies ::
              Resolve(policies[id], old(PoolView(catalogs)), GuidancePoolView(guidance)) ==
                  Success(ResolvedView(r.value[id]))
    ensures r.Success? ==> forall id <- policies :: Indexed(r.value[id], policies[id])
    ensures r.Success? ==> forall id <- r.value :: fresh(ResolvedCells(r.value[id]))
    ensures r.Success? ==> forall i, j :: i in r.value && j in r.value && i != j ==>
        ResolvedCells(r.value[i]) !! ResolvedCells(r.value[j])
    ensures r.Failure? ==>
              && r.error.0 in policies
              && Resolve(policies[r.error.0], old(PoolView(catalogs)), GuidancePoolView(guidance)) == Failure(r.error.1)
  {
    hide Resolve, ResolvedView, ResolvedCells, PoolView, Indexed;
    var resolved: map<string, HResolved> := map[];
    ghost var view := PoolView(catalogs);
    ghost var used: set<object> := {};
    var pending := policies.Keys;
    while pending != {}
      invariant forall id <- resolved :: ResolvedCells(resolved[id]) <= used
      invariant pending <= policies.Keys && resolved.Keys == policies.Keys - pending
      invariant PoolView(catalogs) == view
      invariant forall id <- resolved ::
                  Resolve(policies[id], view, GuidancePoolView(guidance)) == Success(ResolvedView(resolved[id]))
      invariant forall id <- resolved :: Indexed(resolved[id], policies[id])
      invariant forall id <- resolved :: fresh(ResolvedCells(resolved[id]))
      invariant forall i, j :: i in resolved && j in resolved && i != j ==>
          ResolvedCells(resolved[i]) !! ResolvedCells(resolved[j])
      decreases pending
    {
      var id :| id in pending;
      var one := ResolveBeside(policies[id], catalogs, guidance, resolved);
      if one.Failure? {
        return Failure((id, one.error));
      }
      used := used + ResolvedCells(one.value);
      resolved := resolved[id := one.value];
      pending := pending - {id};
    }
    return Success(resolved);
  }

  // ----- loading and resolving -----

  datatype LoadResult = LoadResult(
    artifacts: ArtifactSet,
    resolved: map<string, HResolved>,
    policySources: map<string, string>)

  datatype LoadFailure = LoadErrors(errors: seq<LoadError>) | PolicyError(id: string, error: ResolveError)

  /** What a policy of the set resolves to against the set. */
  function Outcome(c: Contents, id: string): Result<Resolved, ResolveError>
    requires id in c.policies
    reads PoolArrays(c.catalogs)
  {
    Resolve(c.policies[id], PoolView(c.catalogs), GuidancePoolView(c.guidance))
  }

  ghost predicate AllResolve(c: Contents)
    reads PoolArrays(c.catalogs)
  {
    forall id <- c.policies :: Outcome(c, id).Success?
  }

  ghost function Views(resolved: map<string, HResolved>): map<string, Resolved>
    reads ResolvedArrays(resolved)
  {
    map id | id in resolved ::
      assert CatalogArrays(resolved[id].catalogs) <= ResolvedArrays(resolved);
      ResolvedView(resolved[id])
  }

  /** The values a successful run shows: what each policy resolves to, and where it comes from. */
  ghost predicate Shows(sources: seq<Source>, views: map<string, Resolved>, policySources: map<string, string>)
    reads PoolArrays(UnionOf(sources).catalogs)
  {
    var c := UnionOf(sources);
    && views.Keys == policySources.Keys == c.policies.Keys
    && IsUnion(policySources, NamedParts(sources))
    && forall id <- c.policies :: Outcome(c, id) == Success(views[id])
  }

  /** A load or merge failure aborts before any policy is resolved, and the first policy that does not
      resolve ends the run; otherwise it succeeds. */
  method LoadAndResolve(sources: seq<Source>) returns (r: Result<LoadResult, LoadFailure>)
    ensures r.Success? <==> AllLoaded(sources) && !Conflict(sources) && old(AllResolve(UnionOf(sources)))
    ensures r.Failure? ==>
              match r.error
              case LoadErrors(errors) =>
                errors != [] && Reports(errors, sources) && !(AllLoaded(sources) && !Conflict(sources))
              case PolicyError(id, error) =>
                && AllLoaded(sources) && !Conflict(sources)
                && id in UnionOf(sources).policies && old(Outcome(UnionOf(sources), id)) == Failure(error)
    ensures r.Success? ==>
              && fresh(r.value.artifacts) && r.value.artifacts.View() == UnionOf(sources)
              && Merged(UnionOf(sources), sources)
              && Holds(UnionOf(sources), sources) && Traces(r.value.policySources, sources)
              && Shows(sources, Views(r.value.resolved), r.value.policySources)
    ensures r.Success? ==> forall id <- r.value.resolved ::
              fresh(ResolvedCells(r.value.resolved[id])) && Indexed(r.value.resolved[id], UnionOf(sources).policies[id])
    ensures r.Success? ==> var resolved := r.value.resolved; forall i, j :: i in resolved && j in resolved && i != j ==>
              ResolvedCells(resolved[i]) !! ResolvedCells(resolved[j])
    ensures PoolView(UnionOf(sources).catalogs) == old(PoolView(UnionOf(sources).catalogs))
  {
    hide Resolve, ResolvedView, ResolvedCells, Indexed, PoolView, Merged, IsUnion, Conflict, UnionOf, Reports,
      Holds, Traces;
    label Before:
    var loaded, policySources, errors := LoadSources(sources);
    PoolKept@Before(UnionOf(sources).catalogs);
    if |errors| > 0 {
      return Failure(LoadErrors(errors));
    }
    var resolved := ResolveAll(loaded.policies, loaded.catalogs, loaded.guidance);
    if resolved.Failure? {
      return Failure(PolicyError(resolved.error.0, resolved.error.1));
    }
    return Success(LoadResult(loaded, resolved.value, policySources));
  }

  /** Sources in another order make the same union. */
  lemma {:induction false} UnionIsOrderFree(sources: seq<Source>, shuffled: seq<Source>)
    requires multiset(sources) == multiset(shuffled) && !Conflict(sources)
    ensures UnionOf(sources) == UnionOf(shuffled)
  {
    hide Conflict, Merged, UnionOf;
    ConflictsAreOrderFree(sources, shuffled);
    UnionIsMerged(sources);
    UnionIsMerged(shuffled);
    ContentsAreOrderFree(sources, shuffled, UnionOf(sources), UnionOf(shuffled));
  }

  /** Shuffling the sources changes neither whether a run succeeds nor what it shows. */
  lemma {:induction false} RunsAreOrderFree(sources: seq<Source>, shuffled: seq<Source>)
    requires multiset(sources) == multiset(shuffled)
    ensures AllLoaded(sources) && !Conflict(sources) && AllResolve(UnionOf(sources)) <==>
            AllLoaded(shuffled) && !Conflict(shuffled) && AllResolve(UnionOf(shuffled))
    ensures !Conflict(sources) ==> forall views, policySources, others, otherSources ::
              Shows(sources, views, policySources) && Shows(shuffled, others, otherSources) ==>
                views == others && policySources == otherSources
  {
    hide AllLoaded, Conflict, AllResolve, UnionOf, Shows;
    LoadingIsOrderFree(sources, shuffled);
    ConflictsAreOrderFree(sources, shuffled);
    if !Conflict(sources) {
      UnionIsOrderFree(sources, shuffled);
      forall views, policySources, others, otherSources
        | Shows(sources, views, policySources) && Shows(shuffled, others, otherSources)
        ensures views == others && policySources == otherSources
      {
        SameShown(sources, shuffled, views, policySources, others, otherSources);
      }
    }
  }

  lemma {:induction false} SameShown(sources: seq<Source>, shuffled: seq<Source>, views: map<string, Resolved>,
                                     policySources: map<string, string>, others: map<string, Resolved>,
                                     otherSources: map<string, string>)
    requires multiset(sources) == multiset(shuffled) && UnionOf(sources) == UnionOf(shuffled)
    requires Shows(sources, views, policySources) && Shows(shuffled, others, otherSources)
    ensures views == others && policySources == otherSources
  {
    hide IsUnion, UnionOf, Outcome;
    NamesAreOrderFree(sources, shuffled, policySources, otherSources);
    forall id | id in views
      ensures views[id] == others[id]
    {
      assert Outcome(UnionOf(sources), id) == Success(views[id]);
    }
  }
}
