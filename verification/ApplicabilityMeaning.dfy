/** What collecting applicability groups returns, told from the resolved catalogs and the filter alone. */
module ApplicabilityMeaning {
  import opened Applicability
  import opened Filters
  import opened Gemara
  import opened PolicyIndex
  import opened Sequences
  import opened Sorting

  lemma {:induction false} KeptIsFilter(rs: seq<Requirement>, filter: set<string>, p: Requirement -> bool)
    requires forall r <- rs :: p(r) <==> filter == {} || r.id in filter
    ensures IsFilter(Kept(rs, filter), rs, p)
  {
    hide IsFilter;
    if rs == [] {
      FilterNone(p);
    } else {
      var n := |rs| - 1;
      KeptIsFilter(rs[..n], filter, p);
      FilterSnoc(Kept(rs[..n], filter), rs[..n], rs[n], p);
      assert rs == rs[..n] + [rs[n]];
    }
  }

  lemma {:induction false} UngroupedIs(rs: seq<Requirement>) returns (plain: seq<Requirement>)
    ensures IsFilter(plain, rs, (r: Requirement) => r.applicability == [])
    ensures Ungrouped(rs) == Images(plain, (r: Requirement) => r.id)
  {
    hide IsFilter;
    var ungrouped := (r: Requirement) => r.applicability == [];
    if rs == [] {
      plain := [];
      FilterNone(ungrouped);
    } else {
      var n := |rs| - 1;
      var front := UngroupedIs(rs[..n]);
      plain := if ungrouped(rs[n]) then front + [rs[n]] else front;
      FilterSnoc(front, rs[..n], rs[n], ungrouped);
      assert rs == rs[..n] + [rs[n]];
    }
  }

  function Repeated(id: string, times: nat): (r: seq<string>)
    ensures |r| == times && forall i :: 0 <= i < times ==> r[i] == id
  {
    seq(times, i requires 0 <= i < times => id)
  }

  lemma {:induction false} FiledOne(r: Requirement, n: nat, group: string)
    requires n <= |r.applicability|
    ensures Filed(MembershipsOf(r)[..n], group) == Repeated(r.id, multiset(r.applicability[..n])[group])
  {
    var ms := MembershipsOf(r);
    if n > 0 {
      FiledOne(r, n - 1, group);
      assert ms[..n] == ms[..n - 1] + [ms[n - 1]];
      assert r.applicability[..n] == r.applicability[..n - 1] + [r.applicability[n - 1]];
    }
  }

  /** A group's list: each requirement's id once for every time it lists the group, in order. */
  lemma {:induction false} FiledIs(rs: seq<Requirement>, group: string)
    ensures Filed(Memberships(rs), group) ==
              Flatten(Images(rs, (r: Requirement) => Repeated(r.id, multiset(r.applicability)[group])))
  {
    hide Filed, MembershipsOf, Repeated;
    var listed := (r: Requirement) => Repeated(r.id, multiset(r.applicability)[group]);
    if rs == [] {
      NothingFiled(group);
    } else {
      var n := |rs| - 1;
      FiledIs(rs[..n], group);
      FiledAppend(Memberships(rs[..n]), MembershipsOf(rs[n]), group);
      FiledOne(rs[n], |rs[n].applicability|, group);
      WholeMemberships(rs[n]);
      JoinSnoc(rs[..n], rs[n], listed);
      assert rs == rs[..n] + [rs[n]];
    }
  }

  lemma {:induction false} WholeMemberships(r: Requirement)
    ensures MembershipsOf(r)[..|r.applicability|] == MembershipsOf(r)
    ensures r.applicability[..|r.applicability|] == r.applicability
  {
  }

  lemma {:induction false} ListedIs(controls: seq<Control>, ids: seq<string>)
    ensures Listed(controls, ids) == Flatten(Images(ids, (id: string) => RequirementsOf(controls, id)))
  {
    hide RequirementsOf;
    if ids != [] {
      var n := |ids| - 1;
      ListedIs(controls, ids[..n]);
      JoinSnoc(ids[..n], ids[n], (id: string) => RequirementsOf(controls, id));
      assert ids == ids[..n] + [ids[n]];
    }
  }

  lemma {:induction false} DefinitionsAre(catalogs: seq<Catalog<Control>>)
    ensures Definitions(catalogs) == Flatten(Images(catalogs, (c: Catalog<Control>) => c.metadata.applicabilityGroups))
  {
    if catalogs != [] {
      var n := |catalogs| - 1;
      DefinitionsAre(catalogs[..n]);
      JoinSnoc(catalogs[..n], catalogs[n], (c: Catalog<Control>) => c.metadata.applicabilityGroups);
      assert catalogs == catalogs[..n] + [catalogs[n]];
    }
  }

  /** Title and description come from the first group with the id, and are blank when there is none. */
  ghost predicate Described(info: GroupInfo, groups: seq<Group>) {
    && (forall i: nat :: i < |groups| && groups[i].id == info.id && (forall j :: 0 <= j < i ==> groups[j].id != info.id)
          ==> info.title == groups[i].title && info.description == groups[i].description)
    && ((forall g <- groups :: g.id != info.id) ==> info.title == "" && info.description == "")
  }

  lemma {:induction false} DefinitionIs(groups: seq<Group>, id: string)
    ensures var g := Definition(groups, id); Described(GroupInfo(id, g.title, g.description, []), groups)
  {
    if groups != [] && groups[0].id != id {
      var g := Definition(groups, id);
      var info := GroupInfo(id, g.title, g.description, []);
      DefinitionIs(groups[1..], id);
      assert groups[0] in groups && forall x <- groups[1..] :: x in groups;
      forall i: nat | i < |groups| && groups[i].id == id && forall j :: 0 <= j < i ==> groups[j].id != id
        ensures info.title == groups[i].title && info.description == groups[i].description
      {
        assert groups[1..][i - 1] == groups[i] && forall j :: 0 <= j < i - 1 ==> groups[1..][j] == groups[j + 1];
      }
    } else if groups != [] {
      assert groups[0] in groups;
    }
  }

  /** What one group entry says. */
  ghost predicate GroupSays(info: GroupInfo, groups: seq<Group>, kept: seq<Requirement>) {
    && Described(info, groups)
    && info.requirementIDs ==
         Flatten(Images(kept, (r: Requirement) => Repeated(r.id, multiset(r.applicability)[info.id])))
  }

  /** The requirements of the policy, control id by control id in order of first occurrence. */
  ghost function AllListed(rp: ResolvedPolicy): seq<Requirement>
    reads rp
  {
    Flatten(Images(rp.controlIDs, (id: string) =>
      Flatten(Images(Flatten(Images(rp.controlCatalogs, (c: Catalog<Control>) => c.items)),
                     (c: Control) => if c.id == id then c.requirements else []))))
  }

  ghost predicate HasEntry(infos: seq<GroupInfo>, id: string) { exists info <- infos :: info.id == id }

  /** Some kept requirement lists the group, or it is defined and nothing is filtered. */
  ghost predicate IsGroup(id: string, groups: seq<Group>, kept: seq<Requirement>, filtered: bool) {
    (exists r <- kept :: id in r.applicability) || (!filtered && exists g <- groups :: g.id == id)
  }

  /** What a run returns: of the requirements that pass the filter, the ids of those listing no group, in
      order; and for each group that one of them lists, or that is defined when nothing is filtered, one
      entry, by ascending id. */
  ghost predicate CollectSays(infos: seq<GroupInfo>, ungrouped: seq<string>, rp: ResolvedPolicy,
                              filterReqIDs: seq<string>, kept: seq<Requirement>, plain: seq<Requirement>)
    reads rp
  {
    var groups := Flatten(Images(rp.controlCatalogs, (c: Catalog<Control>) => c.metadata.applicabilityGroups));
    && IsFilter(kept, AllListed(rp), (r: Requirement) => filterReqIDs == [] || r.id in filterReqIDs)
    && IsFilter(plain, kept, (r: Requirement) => r.applicability == [])
    && ungrouped == Images(plain, (r: Requirement) => r.id)
    && (forall i, j :: 0 <= i < j < |infos| ==> Less(infos[i].id, infos[j].id))
    && (forall info <- infos :: GroupSays(info, groups, kept))
    && (forall id :: HasEntry(infos, id) <==> IsGroup(id, groups, kept, filterReqIDs != []))
  }

  lemma {:induction false} AllListedIs(rp: ResolvedPolicy)
    ensures Listed(AllControls(rp.controlCatalogs), rp.controlIDs) == AllListed(rp)
  {
    hide RequirementsOf, Listed, AllControls;
    var controls := AllControls(rp.controlCatalogs);
    AllControlsJoin(rp.controlCatalogs);
    ListedIs(controls, rp.controlIDs);
    forall id
      ensures RequirementsOf(controls, id) ==
                Flatten(Images(controls, (c: Control) => if c.id == id then c.requirements else []))
    {
      RequirementsOfJoin(controls, id);
    }
    assert Images(rp.controlIDs, (id: string) => RequirementsOf(controls, id)) ==
           Images(rp.controlIDs, (id: string) =>
             Flatten(Images(controls, (c: Control) => if c.id == id then c.requirements else [])));
  }

  lemma {:induction false} AppearsIff(id: string, groups: seq<Group>, rs: seq<Requirement>, filtered: bool)
    ensures Appears(id, groups, rs, filtered) <==> IsGroup(id, groups, rs, filtered)
  {
    hide Filed, Memberships;
    FiledIs(rs, id);
    var listed := (r: Requirement) => Repeated(r.id, multiset(r.applicability)[id]);
    JoinHolds(rs, listed);
    var filed := Filed(Memberships(rs), id);
    if filed != [] {
      assert filed[0] in filed;
    }
    if r :| r in rs && id in r.applicability {
      assert multiset(r.applicability)[id] > 0 && listed(r)[0] == r.id;
      assert r.id in filed;
    }
  }

  lemma {:induction false} GroupingSays(infos: seq<GroupInfo>, groups: seq<Group>, kept: seq<Requirement>,
                                        filtered: bool)
    requires IsGrouping(infos, groups, kept, filtered)
    ensures forall i, j :: 0 <= i < j < |infos| ==> Less(infos[i].id, infos[j].id)
    ensures forall info <- infos :: GroupSays(info, groups, kept)
    ensures forall id :: HasEntry(infos, id) <==> IsGroup(id, groups, kept, filtered)
  {
    hide Appears, GroupSays, GroupEntry, Less, IsGroup;
    forall info | info in infos
      ensures GroupSays(info, groups, kept)
    {
      EntrySays(groups, kept, info.id);
    }
    forall id
      ensures HasEntry(infos, id) <==> IsGroup(id, groups, kept, filtered)
    {
      AppearsIff(id, groups, kept, filtered);
      EntrySays(groups, kept, id);
    }
    assert forall i, j :: 0 <= i < j < |infos| ==> Less(GroupKey(infos[i]), GroupKey(infos[j]));
  }

  lemma {:induction false} CollectedSays(infos: seq<GroupInfo>, ungrouped: seq<string>, rp: ResolvedPolicy,
                                         filterReqIDs: seq<string>)
    returns (kept: seq<Requirement>, plain: seq<Requirement>)
    requires IsCollected(infos, ungrouped, rp, filterReqIDs)
    ensures CollectSays(infos, ungrouped, rp, filterReqIDs, kept, plain)
  {
    hide IsFilter, Listed, Kept, Ungrouped, Definitions, AllListed, IsGrouping, GroupSays, HasEntry, IsGroup, Less,
      Images, Flatten;
    var groups := Definitions(rp.controlCatalogs);
    var all := Listed(AllControls(rp.controlCatalogs), rp.controlIDs);
    AllListedIs(rp);
    DefinitionsAre(rp.controlCatalogs);
    kept := Kept(all, Elements(filterReqIDs));
    assert filterReqIDs != [] ==> filterReqIDs[0] in Elements(filterReqIDs);
    KeptIsFilter(all, Elements(filterReqIDs), (r: Requirement) => filterReqIDs == [] || r.id in filterReqIDs);
    plain := UngroupedIs(kept);
    GroupingSays(infos, groups, kept, filterReqIDs != []);
  }

  lemma {:induction false} EntrySays(groups: seq<Group>, kept: seq<Requirement>, id: string)
    ensures GroupEntry(groups, kept, id).id == id && GroupSays(GroupEntry(groups, kept, id), groups, kept)
  {
    hide Filed, Memberships, Definition, Described;
    DefinitionIs(groups, id);
    FiledIs(kept, id);
    SameDescription(GroupInfo(id, Definition(groups, id).title, Definition(groups, id).description, []),
                    GroupEntry(groups, kept, id), groups);
  }

  lemma {:induction false} SameDescription(a: GroupInfo, b: GroupInfo, groups: seq<Group>)
    requires Described(a, groups) && a.id == b.id && a.title == b.title && a.description == b.description
    ensures Described(b, groups)
  {
  }
}
