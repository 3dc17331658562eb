/** Configured sources, the union of what they hold, and when two of them conflict. */
module Sources {
  import opened ArtifactSets
  import opened DeepCopy
  import opened Gemara
  import opened GuidanceCopy
  import opened Sequences

  /** A configured source and what loading it gave: artifacts, or an error. */
  datatype Source = Source(name: string, loaded: Option<Contents>)

  ghost predicate AllLoaded(sources: seq<Source>) {
    forall i :: 0 <= i < |sources| ==> sources[i].loaded.Some?
  }

  function ContentsOf(s: Source): Contents {
    match s.loaded case Some(c) => c case None => Contents(map[], map[], map[], map[])
  }

  ghost predicate Clash(s: Source, t: Source) { !Disjoint(ContentsOf(s), ContentsOf(t)) }

  /** Two sources hold the same id within the same kind. */
  ghost predicate Conflict(sources: seq<Source>) {
    exists i, j :: 0 <= i < j < |sources| && Clash(sources[i], sources[j])
  }

  ghost function CatalogParts(sources: seq<Source>): seq<map<string, HCatalog>> {
    seq(|sources|, i requires 0 <= i < |sources| => ContentsOf(sources[i]).catalogs)
  }

  ghost function PolicyParts(sources: seq<Source>): seq<map<string, Policy>> {
    seq(|sources|, i requires 0 <= i < |sources| => ContentsOf(sources[i]).policies)
  }

  ghost function GuidanceParts(sources: seq<Source>): seq<map<string, HGuidance>> {
    seq(|sources|, i requires 0 <= i < |sources| => ContentsOf(sources[i]).guidance)
  }

  ghost function MappingParts(sources: seq<Source>): seq<map<string, string>> {
    seq(|sources|, i requires 0 <= i < |sources| => ContentsOf(sources[i]).mappings)
  }

  /** The policies of a source, each mapped to the source's name. */
  function Named(s: Source): map<string, string> { map id | id in ContentsOf(s).policies :: s.name }

  ghost function NamedParts(sources: seq<Source>): seq<map<string, string>> {
    seq(|sources|, i requires 0 <= i < |sources| => Named(sources[i]))
  }

  /** The set holds exactly what the sources hold. */
  ghost predicate Merged(c: Contents, sources: seq<Source>) {
    && IsUnion(c.catalogs, CatalogParts(sources))
    && IsUnion(c.policies, PolicyParts(sources))
    && IsUnion(c.guidance, GuidanceParts(sources))
    && IsUnion(c.mappings, MappingParts(sources))
  }

  lemma {:induction false} MergedNext(c: Contents, sources: seq<Source>, s: Source)
    requires Merged(c, sources) && Disjoint(c, ContentsOf(s))
    ensures Merged(Union(c, ContentsOf(s)), sources + [s])
  {
    hide IsUnion;
    var part := ContentsOf(s);
    UnionNext(c.catalogs, CatalogParts(sources), part.catalogs);
    UnionNext(c.policies, PolicyParts(sources), part.policies);
    UnionNext(c.guidance, GuidanceParts(sources), part.guidance);
    UnionNext(c.mappings, MappingParts(sources), part.mappings);
    assert CatalogParts(sources + [s]) == CatalogParts(sources) + [part.catalogs];
    assert PolicyParts(sources + [s]) == PolicyParts(sources) + [part.policies];
    assert GuidanceParts(sources + [s]) == GuidanceParts(sources) + [part.guidance];
    assert MappingParts(sources + [s]) == MappingParts(sources) + [part.mappings];
  }

  lemma {:induction false} NamedNext(policySources: map<string, string>, sources: seq<Source>, s: Source)
    requires IsUnion(policySources, NamedParts(sources)) && policySources.Keys !! ContentsOf(s).policies.Keys
    ensures IsUnion(policySources + Named(s), NamedParts(sources + [s]))
  {
    hide IsUnion;
    assert Named(s).Keys == ContentsOf(s).policies.Keys;
    UnionNext(policySources, NamedParts(sources), Named(s));
    assert NamedParts(sources + [s]) == NamedParts(sources) + [Named(s)];
  }

  lemma {:induction false} ConflictNext(sources: seq<Source>, s: Source)
    ensures Conflict(sources + [s]) <==> Conflict(sources) || exists i :: 0 <= i < |sources| && Clash(sources[i], s)
  {
    hide Clash;
    var all := sources + [s];
    if Conflict(sources) {
      var i, j :| 0 <= i < j < |sources| && Clash(sources[i], sources[j]);
      assert Clash(all[i], all[j]);
    } else if i :| 0 <= i < |sources| && Clash(sources[i], s) {
      assert Clash(all[i], all[|sources|]);
    }
  }

  /** Against the union of earlier sources, a merge clashes exactly when it clashes with one of them. */
  lemma {:induction false} ClashWithMerged(c: Contents, sources: seq<Source>, s: Source)
    requires Merged(c, sources)
    ensures Disjoint(c, ContentsOf(s)) <==> forall i :: 0 <= i < |sources| ==> !Clash(sources[i], s)
  {
    hide IsUnion;
    var part := ContentsOf(s);
    DisjointFromUnion(c.catalogs, CatalogParts(sources), part.catalogs);
    DisjointFromUnion(c.policies, PolicyParts(sources), part.policies);
    DisjointFromUnion(c.guidance, GuidanceParts(sources), part.guidance);
    DisjointFromUnion(c.mappings, MappingParts(sources), part.mappings);
    forall i | 0 <= i < |sources|
      ensures !Clash(sources[i], s) <==>
        && CatalogParts(sources)[i].Keys !! part.catalogs.Keys && PolicyParts(sources)[i].Keys !! part.policies.Keys
        && GuidanceParts(sources)[i].Keys !! part.guidance.Keys && MappingParts(sources)[i].Keys !! part.mappings.Keys
    {
    }
  }

  /** Everything the sources hold; of two entries with one id the later source's. */
  ghost function UnionOf(sources: seq<Source>): Contents {
    if sources == [] then Contents(map[], map[], map[], map[])
    else Union(UnionOf(sources[..|sources| - 1]), ContentsOf(sources[|sources| - 1]))
  }

  lemma {:induction false} NothingMerged()
    ensures Merged(UnionOf([]), []) && UnionOf([]) == Contents(map[], map[], map[], map[])
    ensures IsUnion(map[], NamedParts([])) && !Conflict([])
  {
  }

  lemma {:induction false} PoliciesApart(c: Contents, s: Source)
    requires Disjoint(c, ContentsOf(s))
    ensures c.policies.Keys !! ContentsOf(s).policies.Keys
    ensures Named(s).Keys == ContentsOf(s).policies.Keys
  {
  }

  lemma {:induction false} UnionOfNext(sources: seq<Source>, s: Source)
    ensures UnionOf(sources + [s]) == Union(UnionOf(sources), ContentsOf(s))
  {
    assert (sources + [s])[..|sources|] == sources;
  }

  /** Without conflicts no entry hides another. */
  lemma {:induction false} UnionIsMerged(sources: seq<Source>)
    requires !Conflict(sources)
    ensures Merged(UnionOf(sources), sources)
  {
    hide Merged, Conflict, Clash;
    if sources == [] {
      NothingMerged();
    } else {
      var front, last := sources[..|sources| - 1], sources[|sources| - 1];
      assert sources == front + [last];
      ConflictNext(front, last);
      UnionIsMerged(front);
      ClashWithMerged(UnionOf(front), front, last);
      MergedNext(UnionOf(front), front, last);
    }
  }

  // ----- what was loaded, entry by entry -----

  /** The map has exactly the entries that the loaded sources have in this part of their contents. */
  ghost predicate HoldsPart<V>(m: map<string, V>, sources: seq<Source>, part: Contents -> map<string, V>) {
    && (forall s <- sources :: s.loaded.Some? ==>
          forall id <- part(s.loaded.value) :: id in m && m[id] == part(s.loaded.value)[id])
    && (forall id <- m :: exists s <- sources :: s.loaded.Some? && id in part(s.loaded.value))
  }

  ghost predicate Holds(c: Contents, sources: seq<Source>) {
    && HoldsPart(c.catalogs, sources, (d: Contents) => d.catalogs)
    && HoldsPart(c.policies, sources, (d: Contents) => d.policies)
    && HoldsPart(c.guidance, sources, (d: Contents) => d.guidance)
    && HoldsPart(c.mappings, sources, (d: Contents) => d.mappings)
  }

  /** Every loaded policy is mapped to the name of each source that holds it, and nothing else is mapped. */
  ghost predicate Traces(policySources: map<string, string>, sources: seq<Source>) {
    && (forall s <- sources :: s.loaded.Some? ==>
          forall id <- s.loaded.value.policies :: id in policySources && policySources[id] == s.name)
    && (forall id <- policySources :: exists s <- sources :: s.loaded.Some? && id in s.loaded.value.policies)
  }

  lemma {:induction false} UnionHolds<V>(m: map<string, V>, parts: seq<map<string, V>>, i: nat)
    requires IsUnion(m, parts) && i < |parts|
    ensures forall id <- parts[i] :: id in m && m[id] == parts[i][id]
  {
    assert Agrees(m, parts[i]);
  }

  lemma {:induction false} FromSome<V>(m: map<string, V>, parts: seq<map<string, V>>, id: string) returns (i: nat)
    requires IsUnion(m, parts) && id in m
    ensures i < |parts| && id in parts[i]
  {
    assert Somewhere(id, parts);
    i :| 0 <= i < |parts| && id in parts[i];
  }

  lemma {:induction false} PartHolds<V>(m: map<string, V>, parts: seq<map<string, V>>, sources: seq<Source>,
                                         part: Contents -> map<string, V>)
    requires IsUnion(m, parts) && |parts| == |sources|
    requires forall i :: 0 <= i < |sources| ==>
               parts[i] == if sources[i].loaded.Some? then part(sources[i].loaded.value) else map[]
    ensures HoldsPart(m, sources, part)
  {
    hide IsUnion;
    forall s | s in sources && s.loaded.Some?
      ensures forall id <- part(s.loaded.value) :: id in m && m[id] == part(s.loaded.value)[id]
    {
      var i :| 0 <= i < |sources| && sources[i] == s;
      UnionHolds(m, parts, i);
    }
    forall id | id in m
      ensures exists s <- sources :: s.loaded.Some? && id in part(s.loaded.value)
    {
      var i := FromSome(m, parts, id);
      assert sources[i] in sources;
    }
  }

  lemma {:induction false} MergedHolds(c: Contents, sources: seq<Source>)
    requires Merged(c, sources)
    ensures Holds(c, sources)
  {
    hide IsUnion, HoldsPart;
    PartHolds(c.catalogs, CatalogParts(sources), sources, (d: Contents) => d.catalogs);
    PartHolds(c.policies, PolicyParts(sources), sources, (d: Contents) => d.policies);
    PartHolds(c.guidance, GuidanceParts(sources), sources, (d: Contents) => d.guidance);
    PartHolds(c.mappings, MappingParts(sources), sources, (d: Contents) => d.mappings);
  }

  lemma {:induction false} NamedTraces(policySources: map<string, string>, sources: seq<Source>)
    requires IsUnion(policySources, NamedParts(sources))
    ensures Traces(policySources, sources)
  {
    hide IsUnion;
    forall s | s in sources && s.loaded.Some?
      ensures forall id <- s.loaded.value.policies :: id in policySources && policySources[id] == s.name
    {
      var i :| 0 <= i < |sources| && sources[i] == s;
      UnionHolds(policySources, NamedParts(sources), i);
      assert NamedParts(sources)[i] == Named(s);
    }
    forall id | id in policySources ensures exists s <- sources :: s.loaded.Some? && id in s.loaded.value.policies {
      var i := FromSome(policySources, NamedParts(sources), id);
      assert NamedParts(sources)[i] == Named(sources[i]) && sources[i] in sources;
    }
  }

  /** Two loaded sources, one before the other, hold an id in common within one kind. */
  ghost predicate ShareId(s: Source, t: Source, id: string) {
    && s.loaded.Some? && t.loaded.Some?
    && (|| (id in s.loaded.value.catalogs && id in t.loaded.value.catalogs)
        || (id in s.loaded.value.policies && id in t.loaded.value.policies)
        || (id in s.loaded.value.guidance && id in t.loaded.value.guidance)
        || (id in s.loaded.value.mappings && id in t.loaded.value.mappings))
  }

  lemma {:induction false} ConflictIs(sources: seq<Source>)
    ensures Conflict(sources) <==> exists i, j, id :: 0 <= i < j < |sources| && ShareId(sources[i], sources[j], id)
  {
    hide Clash, ShareId;
    forall s: Source, t: Source
      ensures Clash(s, t) <==> exists id :: ShareId(s, t, id)
    {
      ClashIs(s, t);
    }
  }

  lemma {:induction false} ClashIs(s: Source, t: Source)
    ensures Clash(s, t) <==> exists id :: ShareId(s, t, id)
  {
    if id :| ShareId(s, t, id) {
      assert !Disjoint(ContentsOf(s), ContentsOf(t));
    }
    var a, b := ContentsOf(s), ContentsOf(t);
    if !(a.catalogs.Keys !! b.catalogs.Keys) {
      var id :| id in a.catalogs && id in b.catalogs;
      assert ShareId(s, t, id);
    }
    if !(a.policies.Keys !! b.policies.Keys) {
      var id :| id in a.policies && id in b.policies;
      assert ShareId(s, t, id);
    }
    if !(a.guidance.Keys !! b.guidance.Keys) {
      var id :| id in a.guidance && id in b.guidance;
      assert ShareId(s, t, id);
    }
    if !(a.mappings.Keys !! b.mappings.Keys) {
      var id :| id in a.mappings && id in b.mappings;
      assert ShareId(s, t, id);
    }
  }

  // ----- order independence -----

  lemma {:induction false} TwoPlaces<T>(s: seq<T>, x: T)
    requires multiset(s)[x] >= 2
    ensures exists i, j :: 0 <= i < j < |s| && s[i] == x && s[j] == x
  {
    var i :| 0 <= i < |s| && s[i] == x;
    var rest := s[..i] + s[i + 1..];
    assert s == s[..i] + [x] + s[i + 1..];
    assert multiset(rest)[x] >= 1;
    var k :| 0 <= k < |rest| && rest[k] == x;
    var j := if k < i then k else k + 1;
    assert s[j] == x && j != i;
    if i < j {
      assert 0 <= i < j < |s| && s[i] == x && s[j] == x;
    } else {
      assert 0 <= j < i < |s| && s[j] == x && s[i] == x;
    }
  }

  lemma {:induction false} ClashIsMutual(s: Source, t: Source)
    ensures Clash(s, t) <==> Clash(t, s)
  {
  }

  lemma {:induction false} ConflictIsOrderFree(sources: seq<Source>, shuffled: seq<Source>)
    requires multiset(sources) == multiset(shuffled) && Conflict(sources)
    ensures Conflict(shuffled)
  {
    hide Clash;
    var i, j :| 0 <= i < j < |sources| && Clash(sources[i], sources[j]);
    var s, t := sources[i], sources[j];
    if s == t {
      TwoCopies(sources, i, j);
      TwoPlaces(shuffled, s);
      var k, l :| 0 <= k < l < |shuffled| && shuffled[k] == s && shuffled[l] == s;
      assert Clash(shuffled[k], shuffled[l]);
    } else {
      assert s in multiset(shuffled) && t in multiset(shuffled);
      var k :| 0 <= k < |shuffled| && shuffled[k] == s;
      var l :| 0 <= l < |shuffled| && shuffled[l] == t;
      ClashIsMutual(s, t);
      assert Clash(shuffled[k], shuffled[l]) && Clash(shuffled[l], shuffled[k]);
    }
  }

  /** Two sources with one policy id conflict: neither of them wins. */
  lemma {:induction false} SharedPolicyConflicts(first: string, second: string, p: Policy, q: Policy)
    requires p.id == q.id
    ensures Conflict([Source(first, Some(Contents(map[], map[p.id := p], map[], map[]))),
                      Source(second, Some(Contents(map[], map[q.id := q], map[], map[])))])
  {
    var s := Source(first, Some(Contents(map[], map[p.id := p], map[], map[])));
    var t := Source(second, Some(Contents(map[], map[q.id := q], map[], map[])));
    assert p.id in ContentsOf(s).policies && p.id in ContentsOf(t).policies;
    var both := [s, t];
    assert Clash(both[0], both[1]);
  }

  lemma {:induction false} ConflictsAreOrderFree(sources: seq<Source>, shuffled: seq<Source>)
    requires multiset(sources) == multiset(shuffled)
    ensures Conflict(sources) <==> Conflict(shuffled)
  {
    hide Conflict;
    if Conflict(sources) {
      ConflictIsOrderFree(sources, shuffled);
    }
    if Conflict(shuffled) {
      ConflictIsOrderFree(shuffled, sources);
    }
  }

  lemma {:induction false} SamePlaces(sources: seq<Source>, shuffled: seq<Source>)
    requires multiset(sources) == multiset(shuffled)
    ensures forall i :: 0 <= i < |sources| ==> sources[i] in shuffled
  {
    forall i | 0 <= i < |sources|
      ensures sources[i] in shuffled
    {
      assert sources[i] in multiset(sources);
    }
  }

  lemma {:induction false} MergedIsWithin(sources: seq<Source>, shuffled: seq<Source>, c: Contents, d: Contents)
    requires forall i :: 0 <= i < |sources| ==> sources[i] in shuffled
    requires Merged(c, sources) && Merged(d, shuffled)
    ensures Agrees(d.catalogs, c.catalogs) && Agrees(d.policies, c.policies)
    ensures Agrees(d.guidance, c.guidance) && Agrees(d.mappings, c.mappings)
  {
    hide IsUnion;
    forall i | 0 <= i < |sources|
      ensures CatalogParts(sources)[i] in CatalogParts(shuffled) && PolicyParts(sources)[i] in PolicyParts(shuffled)
      ensures GuidanceParts(sources)[i] in GuidanceParts(shuffled) && MappingParts(sources)[i] in MappingParts(shuffled)
    {
      var j :| 0 <= j < |shuffled| && shuffled[j] == sources[i];
      assert CatalogParts(shuffled)[j] == CatalogParts(sources)[i]
          && PolicyParts(shuffled)[j] == PolicyParts(sources)[i];
      assert GuidanceParts(shuffled)[j] == GuidanceParts(sources)[i]
          && MappingParts(shuffled)[j] == MappingParts(sources)[i];
    }
    UnionIsUnique(c.catalogs, d.catalogs, CatalogParts(sources), CatalogParts(shuffled));
    UnionIsUnique(c.policies, d.policies, PolicyParts(sources), PolicyParts(shuffled));
    UnionIsUnique(c.guidance, d.guidance, GuidanceParts(sources), GuidanceParts(shuffled));
    UnionIsUnique(c.mappings, d.mappings, MappingParts(sources), MappingParts(shuffled));
  }

  /** Shuffling the sources does not change whether loading succeeds. */
  lemma {:induction false} LoadingIsOrderFree(sources: seq<Source>, shuffled: seq<Source>)
    requires multiset(sources) == multiset(shuffled)
    ensures AllLoaded(sources) && !Conflict(sources) <==> AllLoaded(shuffled) && !Conflict(shuffled)
  {
    hide Conflict;
    SamePlaces(sources, shuffled);
    SamePlaces(shuffled, sources);
    ConflictsAreOrderFree(sources, shuffled);
    if AllLoaded(shuffled) {
      forall i | 0 <= i < |sources| ensures sources[i].loaded.Some? { assert sources[i] in shuffled; }
    }
    if AllLoaded(sources) {
      forall i | 0 <= i < |shuffled| ensures shuffled[i].loaded.Some? { assert shuffled[i] in sources; }
    }
  }

  lemma {:induction false} NamedWithin(sources: seq<Source>, shuffled: seq<Source>, m: map<string, string>,
                                       n: map<string, string>)
    requires forall i :: 0 <= i < |sources| ==> sources[i] in shuffled
    requires IsUnion(m, NamedParts(sources)) && IsUnion(n, NamedParts(shuffled))
    ensures Agrees(n, m)
  {
    hide IsUnion;
    forall i | 0 <= i < |sources|
      ensures NamedParts(sources)[i] in NamedParts(shuffled)
    {
      var j :| 0 <= j < |shuffled| && shuffled[j] == sources[i];
      assert NamedParts(shuffled)[j] == NamedParts(sources)[i];
    }
    UnionIsUnique(m, n, NamedParts(sources), NamedParts(shuffled));
  }

  lemma {:induction false} NamesAreOrderFree(sources: seq<Source>, shuffled: seq<Source>,
                                             policySources: map<string, string>, others: map<string, string>)
    requires multiset(sources) == multiset(shuffled)
    requires IsUnion(policySources, NamedParts(sources)) && IsUnion(others, NamedParts(shuffled))
    ensures policySources == others
  {
    hide IsUnion;
    SamePlaces(sources, shuffled);
    SamePlaces(shuffled, sources);
    NamedWithin(sources, shuffled, policySources, others);
    NamedWithin(shuffled, sources, others, policySources);
  }

  /** Nor does it change what is loaded, or which source each policy is mapped to. */
  lemma {:induction false} LoadedIsOrderFree(sources: seq<Source>, shuffled: seq<Source>, c: Contents, d: Contents,
                                             policySources: map<string, string>, others: map<string, string>)
    requires multiset(sources) == multiset(shuffled)
    requires Merged(c, sources) && Merged(d, shuffled)
    requires IsUnion(policySources, NamedParts(sources)) && IsUnion(others, NamedParts(shuffled))
    ensures c == d && policySources == others
  {
    hide Merged, IsUnion;
    ContentsAreOrderFree(sources, shuffled, c, d);
    NamesAreOrderFree(sources, shuffled, policySources, others);
  }

  lemma {:induction false} ContentsAreOrderFree(sources: seq<Source>, shuffled: seq<Source>, c: Contents, d: Contents)
    requires multiset(sources) == multiset(shuffled)
    requires Merged(c, sources) && Merged(d, shuffled)
    ensures c == d
  {
    hide Merged;
    SamePlaces(sources, shuffled);
    SamePlaces(shuffled, sources);
    MergedIsWithin(sources, shuffled, c, d);
    MergedIsWithin(shuffled, sources, d, c);
  }
}
