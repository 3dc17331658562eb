/** Provenance records for resolved policies: built from unordered maps with an unstable sort, yet
    one output for given contents. */
module Provenance {
  import opened Filters
  import opened Gemara
  import opened Resolution
  import opened Sequences
  import opened Sorting

  datatype GemaraRef = GemaraRef(referenceID: string, uri: string, version: string)

  datatype Record = Record(policyID: string, gemaraContent: seq<GemaraRef>)

  function RefKey(r: GemaraRef): string { r.referenceID }

  function RecordKey(p: Record): string { p.policyID }

  /** Classification and cleaning of source strings and URLs, decided elsewhere. */
  datatype Sanitizer = Sanitizer(isOCI: string -> bool, ociURI: string -> string, url: string -> string)

  // ----- what is recorded -----

  /** The last mapping reference with the id. */
  function LastReference(refs: seq<MappingReference>, id: string): Option<MappingReference> {
    if refs == [] then None
    else if refs[|refs| - 1].id == id then Some(refs[|refs| - 1])
    else LastReference(refs[..|refs| - 1], id)
  }

  function OciURI(policySources: map<string, string>, policyID: string, san: Sanitizer): string {
    var src := if policyID in policySources then policySources[policyID] else "";
    if san.isOCI(src) then san.ociURI(src) else ""
  }

  /** The reference recorded for an import id: always one, with a URI and version when declared. */
  function RecordedRef(id: string, refs: seq<MappingReference>, ociURI: string, san: Sanitizer): GemaraRef {
    match LastReference(refs, id)
    case None => GemaraRef(id, "", "")
    case Some(mr) => GemaraRef(id, if ociURI != "" then ociURI else san.url(mr.url), mr.version)
  }

  function RecordedRefs(ids: seq<string>, refs: seq<MappingReference>, ociURI: string,
                        san: Sanitizer): (rs: seq<GemaraRef>)
    ensures |rs| == |ids|
    ensures forall i :: 0 <= i < |ids| ==> rs[i] == RecordedRef(ids[i], refs, ociURI, san)
  {
    seq(|ids|, i requires 0 <= i < |ids| => RecordedRef(ids[i], refs, ociURI, san))
  }

  /** One policy's references, in import order. */
  function Content(policy: Policy, policySources: map<string, string>, san: Sanitizer): seq<GemaraRef> {
    RecordedRefs(ImportRefs(policy), policy.mappingReferences, OciURI(policySources, policy.id, san), san)
  }

  /** A record for the policy: its references, rearranged into id order. */
  ghost predicate IsRecord(record: Record, policy: Policy, policySources: map<string, string>, san: Sanitizer) {
    && record.policyID == policy.id
    && Sorted(record.gemaraContent, RefKey)
    && multiset(record.gemaraContent) == multiset(Content(policy, policySources, san))
  }

  predicate Importing(policy: Policy) { policy.catalogImports != [] || policy.guidanceImports != [] }

  /** One record per importing policy, strictly ordered by policy id. */
  ghost predicate IsProvenance(records: seq<Record>, policies: map<string, Policy>, policySources: map<string, string>,
                               san: Sanitizer) {
    && StrictlySorted(records, RecordKey)
    && (forall r <- records :: r.policyID in policies && Importing(policies[r.policyID])
          && IsRecord(r, policies[r.policyID], policySources, san))
    && (forall id <- policies :: Importing(policies[id]) ==> exists r <- records :: r.policyID == id)
  }

  // ----- the loops -----

  method IndexMappingReferences(refs: seq<MappingReference>) returns (idx: map<string, MappingReference>)
    ensures forall id :: if id in idx then LastReference(refs, id) == Some(idx[id]) else LastReference(refs, id) == None
  {
    idx := map[];
    for i := 0 to |refs|
      invariant forall id :: LastReference(refs[..i], id) == if id in idx then Some(idx[id]) else None
    {
      assert refs[..i + 1][..i] == refs[..i];
      idx := idx[refs[i].id := refs[i]];
    }
    assert refs[..|refs|] == refs;
  }

  method BuildRefWithSource(id: string, idx: map<string, MappingReference>, ociURI: string, san: Sanitizer)
    returns (ref: GemaraRef)
    ensures ref ==
              if id in idx then GemaraRef(id, if ociURI != "" then ociURI else san.url(idx[id].url), idx[id].version)
              else GemaraRef(id, "", "")
  {
    ref := GemaraRef(id, "", "");
    if id in idx {
      ref := ref.(uri := if ociURI != "" then ociURI else san.url(idx[id].url), version := idx[id].version);
    }
  }

  /** One policy's turn of the loop. */
  method BuildRecord(policy: Policy, policySources: map<string, string>, san: Sanitizer) returns (record: Record)
    ensures IsRecord(record, policy, policySources, san)
  {
    hide Sorted;
    var idx := IndexMappingReferences(policy.mappingReferences);
    var src := if policy.id in policySources then policySources[policy.id] else "";
    var ociURI := if san.isOCI(src) then san.ociURI(src) else "";
    var ids := ImportRefs(policy);
    var refs: seq<GemaraRef> := [];
    for i := 0 to |ids|
      invariant refs == RecordedRefs(ids[..i], policy.mappingReferences, ociURI, san)
    {
      var ref := BuildRefWithSource(ids[i], idx, ociURI, san);
      assert ref == RecordedRef(ids[i], policy.mappingReferences, ociURI, san);
      refs := refs + [ref];
    }
    assert ids[..|ids|] == ids;
    var sorted := Sort(refs, RefKey);
    record := Record(policy.id, sorted);
  }

  /** Policies are visited in any order. */
  method BuildProvenance(policies: map<string, Policy>, policySources: map<string, string>, san: Sanitizer)
    returns (records: seq<Record>)
    requires Keyed(policies, PolicyId)
    ensures IsProvenance(records, policies, policySources, san)
  {
    hide IsRecord, Sorted, Less;
    var out: seq<Record> := [];
    var pending := policies.Keys;
    while pending != {}
      invariant pending <= policies.Keys
      invariant forall r <- out :: r.policyID in policies && r.policyID !in pending && Importing(policies[r.policyID])
      invariant forall r <- out :: IsRecord(r, policies[r.policyID], policySources, san)
      invariant forall i, j :: 0 <= i < j < |out| ==> out[i].policyID != out[j].policyID
      invariant forall id <- policies ::
                  id in pending || !Importing(policies[id]) || exists r <- out :: r.policyID == id
      decreases pending
    {
      var id :| id in pending;
      pending := pending - {id};
      var record := BuildRecord(policies[id], policySources, san);
      RecordShape(record, policies[id], policySources, san);
      if |record.gemaraContent| == 0 {
        continue;
      }
      out := out + [record];
      assert record in out;
    }
    records := Sort(out, RecordKey);
    SortedDistinctKeys(out, records, RecordKey);
  }

  /** A record has as many references as the policy has imports. */
  lemma {:induction false} RecordShape(record: Record, policy: Policy, policySources: map<string, string>,
                                       san: Sanitizer)
    requires IsRecord(record, policy, policySources, san)
    ensures record.policyID == policy.id
    ensures |record.gemaraContent| == |policy.catalogImports| + |policy.guidanceImports|
  {
    assert |multiset(record.gemaraContent)| == |record.gemaraContent|;
    assert |multiset(Content(policy, policySources, san))| == |Content(policy, policySources, san)|;
  }

  /** `refs[i]` is the last mapping reference with this id. */
  ghost predicate IsLast(refs: seq<MappingReference>, i: nat, id: string) {
    i < |refs| && refs[i].id == id && forall j :: i < j < |refs| ==> refs[j].id != id
  }

  /** What one entry says: without a mapping reference nothing but its id; with one, its version, and as URI
      the bundle the policy came from or else the reference's cleaned URL. */
  ghost predicate EntrySays(entry: GemaraRef, refs: seq<MappingReference>, source: string, san: Sanitizer) {
    && ((forall r <- refs :: r.id != entry.referenceID) ==> entry.uri == "" && entry.version == "")
    && forall i: nat :: IsLast(refs, i, entry.referenceID) ==>
         && entry.version == refs[i].version
         && entry.uri ==
              if san.isOCI(source) && san.ociURI(source) != "" then san.ociURI(source) else san.url(refs[i].url)
  }

  /** What a record says: one entry for each catalog and guidance import, ordered by reference id. */
  ghost predicate RecordSays(record: Record, policy: Policy, source: string, san: Sanitizer) {
    && record.policyID == policy.id
    && multiset(Images(record.gemaraContent, (e: GemaraRef) => e.referenceID)) ==
         multiset(Images(policy.catalogImports, (imp: CatalogImport) => imp.referenceId)
                  + Images(policy.guidanceImports, (imp: GuidanceImport) => imp.referenceId))
    && (forall i, j :: 0 <= i < j < |record.gemaraContent| ==>
          !Less(record.gemaraContent[j].referenceID, record.gemaraContent[i].referenceID))
    && forall e <- record.gemaraContent :: EntrySays(e, policy.mappingReferences, source, san)
  }

  lemma {:induction false} LastReferenceIs(refs: seq<MappingReference>, id: string)
    ensures match LastReference(refs, id)
            case Some(r) => exists i: nat :: IsLast(refs, i, id) && refs[i] == r
            case None => forall r <- refs :: r.id != id
  {
    if refs != [] {
      var n := |refs| - 1;
      LastReferenceIs(refs[..n], id);
      if refs[n].id == id {
        assert IsLast(refs, n, id);
      } else if i: nat :| IsLast(refs[..n], i, id) {
        assert IsLast(refs, i, id) && refs[i] == refs[..n][i];
        assert forall j: nat :: IsLast(refs[..n], j, id) ==> j == i;
      } else {
        assert refs == refs[..n] + [refs[n]];
      }
    }
  }

  lemma {:induction false} RecordedSays(id: string, refs: seq<MappingReference>, source: string, san: Sanitizer)
    ensures var entry := RecordedRef(id, refs, if san.isOCI(source) then san.ociURI(source) else "", san);
            entry.referenceID == id && EntrySays(entry, refs, source, san)
  {
    hide LastReference;
    LastReferenceIs(refs, id);
    match LastReference(refs, id)
    case None => {}
    case Some(r) =>
      var i: nat :| IsLast(refs, i, id) && refs[i] == r;
      assert refs[i] in refs;
      assert forall j: nat :: IsLast(refs, j, id) ==> j == i;
  }

  lemma {:induction false} IsRecordSays(record: Record, policy: Policy, policySources: map<string, string>,
                                        san: Sanitizer)
    requires IsRecord(record, policy, policySources, san)
    ensures RecordSays(record, policy, if policy.id in policySources then policySources[policy.id] else "", san)
  {
    hide LastReference, EntrySays, RecordedRef, Less;
    var source := if policy.id in policySources then policySources[policy.id] else "";
    var content, ids := Content(policy, policySources, san), ImportRefs(policy);
    forall id
      ensures var entry := RecordedRef(id, policy.mappingReferences, OciURI(policySources, policy.id, san), san);
              entry.referenceID == id && EntrySays(entry, policy.mappingReferences, source, san)
    {
      RecordedSays(id, policy.mappingReferences, source, san);
    }
    assert Images(content, (e: GemaraRef) => e.referenceID) == ids;
    SameImages(record.gemaraContent, content, (e: GemaraRef) => e.referenceID);
    assert ids == Images(policy.catalogImports, (imp: CatalogImport) => imp.referenceId)
                  + Images(policy.guidanceImports, (imp: GuidanceImport) => imp.referenceId);
    forall e | e in record.gemaraContent
      ensures EntrySays(e, policy.mappingReferences, source, san)
    {
      assert e in multiset(content);
      var i :| 0 <= i < |content| && content[i] == e;
    }
  }

  // ----- one output for given contents -----

  /** Equal reference ids within a policy mean equal references, so the record is determined. */
  lemma {:induction false} RecordIsUnique(a: Record, b: Record, policy: Policy, policySources: map<string, string>,
                                          san: Sanitizer)
    requires IsRecord(a, policy, policySources, san) && IsRecord(b, policy, policySources, san)
    ensures a == b
  {
    hide Sorted, LastReference, OciURI;
    var content := Content(policy, policySources, san);
    forall x, y | x in a.gemaraContent && y in a.gemaraContent && RefKey(x) == RefKey(y)
      ensures x == y
    {
      assert x in multiset(content) && y in multiset(content);
      assert x in content && y in content;
    }
    SortedIsUnique(a.gemaraContent, b.gemaraContent, RefKey);
  }

  /** With distinct import references, as a resolved policy has them, no tie arises at all. */
  lemma {:induction false} RecordIsStrict(record: Record, policy: Policy, policySources: map<string, string>,
                                          san: Sanitizer)
    requires IsRecord(record, policy, policySources, san) && Distinct(ImportRefs(policy))
    ensures StrictlySorted(record.gemaraContent, RefKey)
  {
    hide Sorted, StrictlySorted, LastReference, OciURI;
    var content := Content(policy, policySources, san);
    forall i, j | 0 <= i < j < |content|
      ensures RefKey(content[i]) != RefKey(content[j])
    {
      assert RefKey(content[i]) == ImportRefs(policy)[i] && RefKey(content[j]) == ImportRefs(policy)[j];
    }
    SortedDistinctKeys(content, record.gemaraContent, RefKey);
  }

  /** Whatever the iteration order and however ties are sorted, the output is the same. */
  lemma {:induction false} ProvenanceIsUnique(xs: seq<Record>, ys: seq<Record>, policies: map<string, Policy>,
                                              policySources: map<string, string>, san: Sanitizer)
    requires Keyed(policies, PolicyId)
    requires IsProvenance(xs, policies, policySources, san) && IsProvenance(ys, policies, policySources, san)
    ensures xs == ys
  {
    hide IsRecord, Less;
    RecordsWithin(xs, ys, policies, policySources, san);
    RecordsWithin(ys, xs, policies, policySources, san);
    StrictlySortedIsUnique(xs, ys, RecordKey);
  }

  lemma {:induction false} RecordsWithin(xs: seq<Record>, ys: seq<Record>, policies: map<string, Policy>,
                                         policySources: map<string, string>, san: Sanitizer)
    requires IsProvenance(xs, policies, policySources, san) && IsProvenance(ys, policies, policySources, san)
    ensures forall r <- xs :: r in ys
  {
    hide IsRecord, StrictlySorted;
    forall r | r in xs
      ensures r in ys
    {
      var id := r.policyID;
      var s :| s in ys && s.policyID == id;
      RecordIsUnique(r, s, policies[id], policySources, san);
    }
  }

  // ----- validation of a published configuration -----

  /** What Config.Validate rejects in its source section. */
  datatype SourceError = NoPolicyID(i: nat) | NoContent(i: nat) | NoReferenceID(i: nat, j: nat)

  ghost predicate Acceptable(r: Record) {
    r.policyID != "" && r.gemaraContent != [] && forall ref <- r.gemaraContent :: ref.referenceID != ""
  }

  /** The source loop of Config.Validate. */
  method ValidateSource(records: seq<Record>) returns (error: Option<SourceError>)
    ensures error == None <==> forall r <- records :: Acceptable(r)
    ensures match error
            case None =>
              forall r <- records ::
                r.policyID != "" && r.gemaraContent != [] && forall e <- r.gemaraContent :: e.referenceID != ""
            case Some(NoPolicyID(i)) => i < |records| && records[i].policyID == ""
            case Some(NoContent(i)) => i < |records| && records[i].gemaraContent == []
            case Some(NoReferenceID(i, j)) =>
              i < |records| && j < |records[i].gemaraContent| && records[i].gemaraContent[j].referenceID == ""
  {
    for i := 0 to |records|
      invariant forall k :: 0 <= k < i ==> Acceptable(records[k])
    {
      var r := records[i];
      assert r in records;
      if r.policyID == "" {
        return Some(NoPolicyID(i));
      }
      if |r.gemaraContent| == 0 {
        return Some(NoContent(i));
      }
      for j := 0 to |r.gemaraContent|
        invariant forall k :: 0 <= k < j ==> r.gemaraContent[k].referenceID != ""
      {
        if r.gemaraContent[j].referenceID == "" {
          assert r.gemaraContent[j] in r.gemaraContent;
          return Some(NoReferenceID(i, j));
        }
      }
    }
    return None;
  }

  /** Provenance built from policies passes that loop exactly when no importing policy has a blank id
      and no import a blank reference id. */
  lemma {:induction false} ProvenancePassesIff(records: seq<Record>, policies: map<string, Policy>,
                                               policySources: map<string, string>, san: Sanitizer)
    requires Keyed(policies, PolicyId) && IsProvenance(records, policies, policySources, san)
    ensures (forall r <- records :: Acceptable(r)) <==>
            forall id <- policies :: Importing(policies[id]) ==>
                id != "" && forall ref <- ImportRefs(policies[id]) :: ref != ""
  {
    hide StrictlySorted, IsRecord, ImportRefs;
    forall r | r in records
      ensures Acceptable(r) <==> r.policyID != "" && forall ref <- ImportRefs(policies[r.policyID]) :: ref != ""
    {
      AcceptableIff(r, policies[r.policyID], policySources, san);
    }
  }

  lemma {:induction false} AcceptableIff(r: Record, policy: Policy, policySources: map<string, string>, san: Sanitizer)
    requires IsRecord(r, policy, policySources, san) && Importing(policy)
    ensures Acceptable(r) <==> policy.id != "" && forall ref <- ImportRefs(policy) :: ref != ""
  {
    hide Sorted, LastReference, OciURI;
    RecordShape(r, policy, policySources, san);
    var ids, content := ImportRefs(policy), Content(policy, policySources, san);
    assert forall ref :: ref in r.gemaraContent <==> ref in multiset(r.gemaraContent);
    assert forall ref :: ref in content <==> ref in multiset(content);
    forall i | 0 <= i < |ids|
      ensures content[i].referenceID == ids[i] && content[i] in r.gemaraContent && ids[i] in ids
    {
      assert content[i] in content;
    }
    if Acceptable(r) {
      forall ref | ref in ids
        ensures ref != ""
      {
        var i :| 0 <= i < |ids| && ids[i] == ref;
        assert content[i] in r.gemaraContent;
      }
    }
  }
}
