/** The provenance a packed configuration carries: everything from the configured sources to the records. */
module PackProvenance {
  import opened ArtifactSets
  import opened ExtendsWalk
  import opened Gemara
  import opened GuidanceCopy
  import opened Pipeline
  import opened PolicyIndex
  import opened Provenance
  import opened Resolution
  import opened Resolver
  import opened Sequences
  import opened Sorting
  import opened Sources

  /** Each source keys its policies by their own ids. */
  ghost predicate KeyedSources(sources: seq<Source>) {
    forall s <- sources :: Keyed(ContentsOf(s).policies, PolicyId)
  }

  lemma {:induction false} UnionIsKeyed(sources: seq<Source>)
    requires KeyedSources(sources)
    ensures Keyed(UnionOf(sources).policies, PolicyId)
  {
    if sources != [] {
      var front, last := sources[..|sources| - 1], sources[|sources| - 1];
      assert last in sources && forall s <- front :: s in sources;
      UnionIsKeyed(front);
    }
  }

  /** Provenance of the policies the sources hold together, each traced to the source that holds it. */
  ghost predicate IsPublished(records: seq<Record>, sources: seq<Source>, san: Sanitizer) {
    exists policySources ::
      && IsUnion(policySources, NamedParts(sources)) && Traces(policySources, sources)
      && IsProvenance(records, UnionOf(sources).policies, policySources, san)
  }

  /** Records exist exactly when everything loads and resolves; each is strictly ordered. */
  method ResolveProvenance(sources: seq<Source>, san: Sanitizer) returns (r: Result<seq<Record>, LoadFailure>)
    requires KeyedSources(sources)
    ensures r.Success? <==> AllLoaded(sources) && !Conflict(sources) && old(AllResolve(UnionOf(sources)))
    ensures r.Success? ==> IsPublished(r.value, sources, san)
    ensures r.Success? ==> forall record <- r.value :: StrictlySorted(record.gemaraContent, RefKey)
  {
    hide AllLoaded, Conflict, AllResolve, UnionOf, Merged, Holds, Traces, IsUnion, Shows, IsProvenance, Indexed,
      ResolvedCells, StrictlySorted, Distinct;
    NothingPublished(san);
    if |sources| == 0 {
      return Success([]);
    }
    var loaded := LoadAndResolve(sources);
    if loaded.Failure? {
      return Failure(loaded.error);
    }
    var resolved := loaded.value.resolved;
    var policies := map id | id in resolved :: resolved[id].index.policy;
    ShownPolicies(sources, resolved, loaded.value.policySources);
    UnionIsKeyed(sources);
    var records := BuildProvenance(policies, loaded.value.policySources, san);
    RecordsAreStrict(records, policies, loaded.value.policySources, san);
    return Success(records);
  }

  lemma {:induction false} ShownPolicies(sources: seq<Source>, resolved: map<string, HResolved>,
                                         policySources: map<string, string>)
    requires Shows(sources, Views(resolved), policySources)
    requires forall id <- resolved ::
               id in UnionOf(sources).policies ==> Indexed(resolved[id], UnionOf(sources).policies[id])
    ensures IsUnion(policySources, NamedParts(sources))
    ensures (map id | id in resolved :: resolved[id].index.policy) == UnionOf(sources).policies
    ensures forall id <- UnionOf(sources).policies :: Distinct(ImportRefs(UnionOf(sources).policies[id]))
  {
    hide UnionOf, IsUnion, Indexed, Distinct;
    ImportsAreDistinct(sources, Views(resolved), policySources);
    assert Views(resolved).Keys == resolved.Keys;
    PoliciesOfResolved(resolved, UnionOf(sources));
  }

  lemma {:induction false} NothingPublished(san: Sanitizer)
    ensures IsPublished([], [], san) && AllLoaded([]) && !Conflict([]) && AllResolve(UnionOf([]))
  {
    NothingMerged();
    NamedTraces(map[], []);
    assert IsProvenance([], UnionOf([]).policies, map[], san);
  }

  /** What the indexes keep of the policies are the policies. */
  lemma {:induction false} PoliciesOfResolved(resolved: map<string, HResolved>, c: Contents)
    requires resolved.Keys == c.policies.Keys
    requires forall id <- resolved :: Indexed(resolved[id], c.policies[id])
    ensures (map id | id in resolved :: resolved[id].index.policy) == c.policies
  {
    hide ResolvedPolicy.Valid, ResolvedView;
  }

  /** A policy that resolves imports no reference twice. */
  lemma {:induction false} ImportsAreDistinct(sources: seq<Source>, views: map<string, Resolved>,
                                              policySources: map<string, string>)
    requires Shows(sources, views, policySources)
    ensures forall id <- UnionOf(sources).policies :: Distinct(ImportRefs(UnionOf(sources).policies[id]))
  {
    hide Resolve, UnionOf, ImportRefs, IsUnion, Distinct;
    var c := UnionOf(sources);
    forall id | id in c.policies
      ensures Distinct(ImportRefs(c.policies[id]))
    {
      assert Outcome(c, id) == Success(views[id]);
      ResolveSucceedsIff(c.policies[id], PoolView(c.catalogs), GuidancePoolView(c.guidance));
    }
  }

  lemma {:induction false} RecordsAreStrict(records: seq<Record>, policies: map<string, Policy>,
                                            policySources: map<string, string>, san: Sanitizer)
    requires IsProvenance(records, policies, policySources, san)
    requires forall id <- policies :: Distinct(ImportRefs(policies[id]))
    ensures forall record <- records :: StrictlySorted(record.gemaraContent, RefKey)
  {
    hide StrictlySorted, IsRecord, Distinct, ImportRefs;
    forall record | record in records
      ensures StrictlySorted(record.gemaraContent, RefKey)
    {
      RecordIsStrict(record, policies[record.policyID], policySources, san);
    }
  }

  /** A published record says of the policy, as the source holding it has it, where each import came from;
      and every policy of a source that imports anything has a record. */
  lemma {:induction false} PublishedSays(records: seq<Record>, sources: seq<Source>, san: Sanitizer, s: Source,
                                         id: string)
    requires IsPublished(records, sources, san) && KeyedSources(sources) && !Conflict(sources)
    requires s in sources && s.loaded.Some? && id in s.loaded.value.policies
    ensures forall r <- records :: r.policyID == id ==> RecordSays(r, s.loaded.value.policies[id], s.name, san)
    ensures (exists r <- records :: r.policyID == id) <==>
              var p := s.loaded.value.policies[id]; p.catalogImports != [] || p.guidanceImports != []
  {
    hide Conflict, UnionOf, IsUnion, RecordSays, IsRecord, Merged, Holds, Traces, KeyedSources, StrictlySorted;
    var policySources :| IsUnion(policySources, NamedParts(sources)) && Traces(policySources, sources)
      && IsProvenance(records, UnionOf(sources).policies, policySources, san);
    UnionIsMerged(sources);
    MergedHolds(UnionOf(sources), sources);
    HeldPolicy(UnionOf(sources), policySources, sources, s, id);
    var p := s.loaded.value.policies[id];
    forall r | r in records && r.policyID == id
      ensures RecordSays(r, p, s.name, san)
    {
      IsRecordSays(r, p, policySources, san);
    }
  }

  lemma {:induction false} HeldPolicy(c: Contents, policySources: map<string, string>, sources: seq<Source>, s: Source,
                                      id: string)
    requires Holds(c, sources) && Traces(policySources, sources) && KeyedSources(sources)
    requires s in sources && s.loaded.Some? && id in s.loaded.value.policies
    ensures id in c.policies && c.policies[id] == s.loaded.value.policies[id] && c.policies[id].id == id
    ensures id in policySources && policySources[id] == s.name
  {
    hide Holds, Traces, KeyedSources;
    HeldEntry(c, sources, s, id);
    TracedTo(policySources, sources, s, id);
    KeyedEntry(sources, s, id);
  }

  lemma {:induction false} HeldEntry(c: Contents, sources: seq<Source>, s: Source, id: string)
    requires Holds(c, sources) && s in sources && s.loaded.Some? && id in s.loaded.value.policies
    ensures id in c.policies && c.policies[id] == s.loaded.value.policies[id]
  {
    hide HoldsPart;
    EntryOf(c.policies, sources, (d: Contents) => d.policies, s, id);
  }

  lemma {:induction false} EntryOf<V>(m: map<string, V>, sources: seq<Source>, part: Contents -> map<string, V>,
                                      s: Source, id: string)
    requires HoldsPart(m, sources, part) && s in sources && s.loaded.Some? && id in part(s.loaded.value)
    ensures id in m && m[id] == part(s.loaded.value)[id]
  {
  }

  lemma {:induction false} TracedTo(policySources: map<string, string>, sources: seq<Source>, s: Source, id: string)
    requires Traces(policySources, sources) && s in sources && s.loaded.Some? && id in s.loaded.value.policies
    ensures id in policySources && policySources[id] == s.name
  {
  }

  lemma {:induction false} KeyedEntry(sources: seq<Source>, s: Source, id: string)
    requires KeyedSources(sources) && s in sources && s.loaded.Some? && id in s.loaded.value.policies
    ensures s.loaded.value.policies[id].id == id
  {
    assert Keyed(ContentsOf(s).policies, PolicyId);
  }

  /** Shuffled sources give one provenance. */
  lemma {:induction false} PublishedIsOrderFree(sources: seq<Source>, shuffled: seq<Source>, records: seq<Record>,
                                                others: seq<Record>, san: Sanitizer)
    requires multiset(sources) == multiset(shuffled) && !Conflict(sources) && KeyedSources(sources)
    requires IsPublished(records, sources, san) && IsPublished(others, shuffled, san)
    ensures records == others
  {
    hide Conflict, UnionOf, IsUnion, Traces, IsProvenance, Keyed, KeyedSources;
    var policySources :| IsUnion(policySources, NamedParts(sources)) && Traces(policySources, sources)
      && IsProvenance(records, UnionOf(sources).policies, policySources, san);
    var otherSources :| IsUnion(otherSources, NamedParts(shuffled)) && Traces(otherSources, shuffled)
      && IsProvenance(others, UnionOf(shuffled).policies, otherSources, san);
    UnionIsOrderFree(sources, shuffled);
    NamesAreOrderFree(sources, shuffled, policySources, otherSources);
    UnionIsKeyed(sources);
    ProvenanceIsUnique(records, others, UnionOf(sources).policies, policySources, san);
  }
}
