/** Sets of artifacts and their merging, kind by kind, which can stop partway. */
module ArtifactSets {
  import opened DeepCopy
  import opened Gemara
  import opened GuidanceCopy
  import opened Sequences

  /** Artifacts of the four kinds, keyed by metadata id. Mapping documents stay opaque. */
  datatype Contents = Contents(
    catalogs: map<string, HCatalog>,
    policies: map<string, Policy>,
    guidance: map<string, HGuidance>,
    mappings: map<string, string>)

  /** No id occurs in both within the same kind. */
  ghost predicate Disjoint(a: Contents, b: Contents) {
    && a.catalogs.Keys !! b.catalogs.Keys
    && a.policies.Keys !! b.policies.Keys
    && a.guidance.Keys !! b.guidance.Keys
    && a.mappings.Keys !! b.mappings.Keys
  }

  datatype Kind = CatalogKind | PolicyKind | GuidanceKind | MappingKind

  function Ids(c: Contents, kind: Kind): set<string> {
    match kind
    case CatalogKind => c.catalogs.Keys
    case PolicyKind => c.policies.Keys
    case GuidanceKind => c.guidance.Keys
    case MappingKind => c.mappings.Keys
  }

  ghost predicate InBoth(id: string, a: Contents, b: Contents) { exists k :: id in Ids(a, k) && id in Ids(b, k) }

  lemma {:induction false} InBothKinds(id: string, a: Contents, b: Contents)
    ensures InBoth(id, a, b) <==>
              || (id in a.catalogs && id in b.catalogs) || (id in a.policies && id in b.policies)
              || (id in a.guidance && id in b.guidance) || (id in a.mappings && id in b.mappings)
  {
    assert Ids(a, CatalogKind) == a.catalogs.Keys && Ids(b, CatalogKind) == b.catalogs.Keys;
    assert Ids(a, PolicyKind) == a.policies.Keys && Ids(b, PolicyKind) == b.policies.Keys;
    assert Ids(a, GuidanceKind) == a.guidance.Keys && Ids(b, GuidanceKind) == b.guidance.Keys;
    assert Ids(a, MappingKind) == a.mappings.Keys && Ids(b, MappingKind) == b.mappings.Keys;
  }

  lemma {:induction false} DisjointKinds(a: Contents, b: Contents)
    ensures Disjoint(a, b) <==> forall k :: Ids(a, k) !! Ids(b, k)
  {
    assert Ids(a, CatalogKind) == a.catalogs.Keys && Ids(b, CatalogKind) == b.catalogs.Keys;
    assert Ids(a, PolicyKind) == a.policies.Keys && Ids(b, PolicyKind) == b.policies.Keys;
    assert Ids(a, GuidanceKind) == a.guidance.Keys && Ids(b, GuidanceKind) == b.guidance.Keys;
    assert Ids(a, MappingKind) == a.mappings.Keys && Ids(b, MappingKind) == b.mappings.Keys;
  }

  function Union(a: Contents, b: Contents): Contents {
    Contents(a.catalogs + b.catalogs, a.policies + b.policies, a.guidance + b.guidance, a.mappings + b.mappings)
  }

  /** `m` lies between `into` and `into + from`, and agrees with them. */
  ghost predicate Between<V>(m: map<string, V>, into: map<string, V>, from: map<string, V>) {
    && into.Keys <= m.Keys <= into.Keys + from.Keys
    && forall id <- m :: m[id] == if id in into then into[id] else from[id]
  }

  lemma {:induction false} NothingAdded<V>(m: map<string, V>, from: map<string, V>)
    ensures Between(m, m, from)
  {
  }

  /** One of Merge's four loops, in any iteration order; it stops at the first id already present. */
  method MergeKind<V>(into: map<string, V>, from: map<string, V>)
    returns (merged: map<string, V>, clash: Option<string>)
    ensures clash == None <==> into.Keys !! from.Keys
    ensures clash == None ==> merged == into + from
    ensures clash.Some? ==> clash.value in into && clash.value in from
    ensures Between(merged, into, from)
  {
    merged := into;
    var pending := from.Keys;
    while pending != {}
      invariant pending <= from.Keys
      invariant merged == into + (from - pending)
      invariant (from - pending).Keys !! into.Keys
      decreases pending
    {
      var id :| id in pending;
      if id in merged {
        return merged, Some(id);
      }
      MergeNext(into, from, pending, id);
      merged := merged[id := from[id]];
      pending := pending - {id};
    }
    assert from - pending == from;
    assert merged == into + from;
    return merged, None;
  }

  lemma {:induction false} MergeNext<V>(into: map<string, V>, from: map<string, V>, pending: set<string>, id: string)
    requires id in pending && pending <= from.Keys && id !in into
    ensures (into + (from - pending))[id := from[id]] == into + (from - (pending - {id}))
    ensures (from - (pending - {id})).Keys == (from - pending).Keys + {id}
  {
  }

  class ArtifactSet {
    var catalogs: map<string, HCatalog>
    var policies: map<string, Policy>
    var guidance: map<string, HGuidance>
    var mappings: map<string, string>

    constructor ()
      ensures View() == Contents(map[], map[], map[], map[])
    {
      catalogs, policies, guidance, mappings := map[], map[], map[], map[];
    }

    function View(): Contents
      reads this
    {
      Contents(catalogs, policies, guidance, mappings)
    }

    /** Merges everything or reports an id present in both within one kind; a failed merge may leave part of `other`
        behind, but never loses or replaces an artifact. */
    method Merge(other: Contents) returns (clash: Option<string>)
      modifies this
      ensures clash == None <==> Disjoint(old(View()), other)
      ensures clash == None ==> View() == Union(old(View()), other)
      ensures clash.Some? ==> InBoth(clash.value, old(View()), other)
      ensures Between(catalogs, old(catalogs), other.catalogs) && Between(policies, old(policies), other.policies)
      ensures Between(guidance, old(guidance), other.guidance) && Between(mappings, old(mappings), other.mappings)
    {
      hide InBoth, Between;
      ghost var before := View();
      NothingAdded(policies, other.policies);
      NothingAdded(guidance, other.guidance);
      NothingAdded(mappings, other.mappings);
      catalogs, clash := MergeKind(catalogs, other.catalogs);
      if clash.Some? { InBothKinds(clash.value, before, other); return; }
      policies, clash := MergeKind(policies, other.policies);
      if clash.Some? { InBothKinds(clash.value, before, other); return; }
      guidance, clash := MergeKind(guidance, other.guidance);
      if clash.Some? { InBothKinds(clash.value, before, other); return; }
      mappings, clash := MergeKind(mappings, other.mappings);
      if clash.Some? { InBothKinds(clash.value, before, other); }
    }
  }

  // ----- unions of disjoint parts -----

  ghost predicate Agrees<V>(m: map<string, V>, part: map<string, V>) {
    part.Keys <= m.Keys && forall id <- part :: m[id] == part[id]
  }

  ghost predicate Somewhere<V>(id: string, parts: seq<map<string, V>>) {
    exists i :: 0 <= i < |parts| && id in parts[i]
  }

  /** Exactly what the parts hold, each entry as every part holding it has it. */
  ghost predicate IsUnion<V>(m: map<string, V>, parts: seq<map<string, V>>) {
    && (forall id <- m :: Somewhere(id, parts))
    && (forall i :: 0 <= i < |parts| ==> Agrees(m, parts[i]))
  }

  lemma {:induction false} UnionNext<V>(m: map<string, V>, parts: seq<map<string, V>>, part: map<string, V>)
    requires IsUnion(m, parts) && m.Keys !! part.Keys
    ensures IsUnion(m + part, parts + [part])
  {
    var all := parts + [part];
    forall id | id in m + part
      ensures Somewhere(id, all)
    {
      if id in part {
        assert id in all[|parts|];
      } else {
        var i :| 0 <= i < |parts| && id in parts[i];
        assert id in all[i];
      }
    }
    forall i | 0 <= i < |all|
      ensures Agrees(m + part, all[i])
    {
      if i < |parts| {
        assert Agrees(m, parts[i]);
      }
    }
  }

  /** A new part is disjoint from the union exactly when it is disjoint from every part. */
  lemma {:induction false} DisjointFromUnion<V>(m: map<string, V>, parts: seq<map<string, V>>, part: map<string, V>)
    requires IsUnion(m, parts)
    ensures m.Keys !! part.Keys <==> forall i :: 0 <= i < |parts| ==> parts[i].Keys !! part.Keys
  {
    if id :| id in m && id in part {
      assert Somewhere(id, parts);
      var i :| 0 <= i < |parts| && id in parts[i];
      assert !(parts[i].Keys !! part.Keys);
    }
  }

  lemma {:induction false} UnionIsUnique<V>(m: map<string, V>, n: map<string, V>, parts: seq<map<string, V>>,
                                            others: seq<map<string, V>>)
    requires IsUnion(m, parts) && IsUnion(n, others)
    requires forall i :: 0 <= i < |parts| ==> parts[i] in others
    ensures m.Keys <= n.Keys && forall id <- m :: m[id] == n[id]
  {
    forall id | id in m
      ensures id in n && m[id] == n[id]
    {
      assert Somewhere(id, parts);
      var i :| 0 <= i < |parts| && id in parts[i];
      var j :| 0 <= j < |others| && others[j] == parts[i];
      assert Agrees(m, parts[i]) && Agrees(n, others[j]);
    }
  }
}
