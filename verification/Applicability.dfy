/** Applicability groups collected from a resolved policy, unfiltered or for chosen requirements. */
module Applicability {
  import opened Counting
  import opened Gemara
  import opened PolicyIndex
  import opened Sequences
  import opened Sorting

  datatype GroupInfo = GroupInfo(id: string, title: string, description: string, requirementIDs: seq<string>)

  function GroupKey(g: GroupInfo): string { g.id }

  /** One requirement's membership in one group. */
  datatype Member = Member(group: string, requirement: string)

  // ----- what the grouping should say -----

  /** The requirements reached control id by control id. */
  function Listed(controls: seq<Control>, ids: seq<string>): seq<Requirement> {
    if ids == [] then []
    else Listed(controls, ids[..|ids| - 1]) + RequirementsOf(controls, ids[|ids| - 1])
  }

  function Definitions(catalogs: seq<Catalog<Control>>): seq<Group> {
    if catalogs == [] then []
    else Definitions(catalogs[..|catalogs| - 1]) + catalogs[|catalogs| - 1].metadata.applicabilityGroups
  }

  /** The first definition of a group, or a bare one carrying just the id. */
  function Definition(groups: seq<Group>, id: string): Group {
    if groups == [] then Group(id, "", "")
    else if groups[0].id == id then groups[0]
    else Definition(groups[1..], id)
  }

  predicate Defined(groups: seq<Group>, id: string) { exists g <- groups :: g.id == id }

  /** An empty filter keeps everything. */
  predicate Selected(id: string, filter: set<string>) { filter == {} || id in filter }

  function Kept(rs: seq<Requirement>, filter: set<string>): seq<Requirement> {
    if rs == [] then []
    else
      var front, last := Kept(rs[..|rs| - 1], filter), rs[|rs| - 1];
      if Selected(last.id, filter) then front + [last] else front
  }

  function KeptIds(ids: seq<string>, filter: set<string>): seq<string> {
    if ids == [] then []
    else
      var front, last := KeptIds(ids[..|ids| - 1], filter), ids[|ids| - 1];
      if Selected(last, filter) then front + [last] else front
  }

  /** A requirement is a member once for every time it lists the group. */
  function MembershipsOf(r: Requirement): (ms: seq<Member>)
    ensures |ms| == |r.applicability|
  {
    seq(|r.applicability|, i requires 0 <= i < |r.applicability| => Member(r.applicability[i], r.id))
  }

  function Memberships(rs: seq<Requirement>): seq<Member> {
    if rs == [] then []
    else Memberships(rs[..|rs| - 1]) + MembershipsOf(rs[|rs| - 1])
  }

  /** The requirement ids filed under a group, in order. */
  function Filed(ms: seq<Member>, group: string): seq<string> {
    if ms == [] then []
    else
      var front, last := Filed(ms[..|ms| - 1], group), ms[|ms| - 1];
      if last.group == group then front + [last.requirement] else front
  }

  function Ungrouped(rs: seq<Requirement>): seq<string> {
    if rs == [] then []
    else
      var front, last := Ungrouped(rs[..|rs| - 1]), rs[|rs| - 1];
      if last.applicability == [] then front + [last.id] else front
  }

  function GroupEntry(groups: seq<Group>, rs: seq<Requirement>, id: string): GroupInfo {
    var g := Definition(groups, id);
    GroupInfo(id, g.title, g.description, Filed(Memberships(rs), id))
  }

  /** Groups that are listed: those defined or used, and under a filter only those used. */
  predicate Appears(id: string, groups: seq<Group>, rs: seq<Requirement>, filtered: bool) {
    Filed(Memberships(rs), id) != [] || (!filtered && Defined(groups, id))
  }

  /** Strictly sorted by id, with exactly the groups that appear, each with its definition and members. */
  ghost predicate IsGrouping(infos: seq<GroupInfo>, groups: seq<Group>, rs: seq<Requirement>, filtered: bool) {
    && StrictlySorted(infos, GroupKey)
    && (forall info <- infos :: Appears(info.id, groups, rs, filtered) && info == GroupEntry(groups, rs, info.id))
    && (forall id :: Appears(id, groups, rs, filtered) ==> GroupEntry(groups, rs, id) in infos)
  }

  // ----- the loops -----

  datatype Tally = Tally(defs: map<string, Group>, members: map<string, seq<string>>, ungrouped: seq<string>)

  /** What the maps hold for one group id. */
  ghost predicate RecordsAt(defs: map<string, Group>, members: map<string, seq<string>>, groups: seq<Group>,
                            ms: seq<Member>, id: string) {
    && (id in defs <==> Defined(groups, id) || Filed(ms, id) != [])
    && (id in defs ==> defs[id] == Definition(groups, id))
    && Find(members, id) == Filed(ms, id)
  }

  ghost predicate Records(defs: map<string, Group>, members: map<string, seq<string>>, groups: seq<Group>,
                          ms: seq<Member>) {
    forall id :: RecordsAt(defs, members, groups, ms, id)
  }

  method CollectDefinitions(catalogs: seq<Catalog<Control>>) returns (defs: map<string, Group>)
    ensures Records(defs, map[], Definitions(catalogs), [])
  {
    defs := map[];
    for i := 0 to |catalogs|
      invariant Records(defs, map[], Definitions(catalogs[..i]), [])
    {
      var own := catalogs[i].metadata.applicabilityGroups;
      ghost var before := Definitions(catalogs[..i]);
      assert before + own[..0] == before;
      for j := 0 to |own|
        invariant Records(defs, map[], before + own[..j], [])
      {
        DefineNext(defs, before + own[..j], own[j]);
        assert before + own[..j] + [own[j]] == before + own[..j + 1];
        if own[j].id !in defs {
          defs := defs[own[j].id := own[j]];
        }
      }
      assert own[..|own|] == own && catalogs[..i + 1][..i] == catalogs[..i];
    }
    assert catalogs[..|catalogs|] == catalogs;
  }

  lemma {:induction false} DefineNext(defs: map<string, Group>, groups: seq<Group>, g: Group)
    requires Records(defs, map[], groups, [])
    ensures Records(if g.id in defs then defs else defs[g.id := g], map[], groups + [g], [])
  {
    var next := if g.id in defs then defs else defs[g.id := g];
    forall id
      ensures RecordsAt(next, map[], groups + [g], [], id)
    {
      hide Definition, Defined;
      assert RecordsAt(defs, map[], groups, [], id);
      DefinitionNext(groups, g, id);
    }
  }

  lemma {:induction false} DefinitionNext(groups: seq<Group>, g: Group, id: string)
    ensures Defined(groups + [g], id) <==> Defined(groups, id) || g.id == id
    ensures Definition(groups + [g], id) == if !Defined(groups, id) && g.id == id then g else Definition(groups, id)
  {
    assert forall x :: x in groups + [g] <==> x in groups || x == g;
    if groups != [] {
      DefinitionNext(groups[1..], g, id);
      assert (groups + [g])[1..] == groups[1..] + [g];
      assert forall x :: x in groups <==> x == groups[0] || x in groups[1..];
    } else {
      assert (groups + [g])[0] == g && (groups + [g])[1..] == [];
    }
  }

  lemma {:induction false} FileNext(defs: map<string, Group>, members: map<string, seq<string>>, groups: seq<Group>,
                                    ms: seq<Member>, m: Member)
    requires Records(defs, members, groups, ms)
    ensures Records(if m.group in defs then defs else defs[m.group := Group(m.group, "", "")],
                    members[m.group := Find(members, m.group) + [m.requirement]], groups, ms + [m])
  {
    var nextDefs := if m.group in defs then defs else defs[m.group := Group(m.group, "", "")];
    var nextMembers := members[m.group := Find(members, m.group) + [m.requirement]];
    forall id
      ensures RecordsAt(nextDefs, nextMembers, groups, ms + [m], id)
    {
      hide Definition, Defined;
      assert RecordsAt(defs, members, groups, ms, id) && RecordsAt(defs, members, groups, ms, m.group);
      assert (ms + [m])[..|ms|] == ms;
      BareDefinition(groups, m.group);
    }
  }

  lemma {:induction false} BareDefinition(groups: seq<Group>, id: string)
    ensures !Defined(groups, id) ==> Definition(groups, id) == Group(id, "", "")
  {
    if groups != [] && !Defined(groups, id) {
      assert forall x <- groups[1..] :: x in groups;
      BareDefinition(groups[1..], id);
      assert groups[0] in groups;
    }
  }

  /** The tally describes the requirements kept so far. */
  ghost predicate Tallies(t: Tally, groups: seq<Group>, kept: seq<Requirement>) {
    Records(t.defs, t.members, groups, Memberships(kept)) && t.ungrouped == Ungrouped(kept)
  }

  /** The innermost loop: one kept requirement. */
  method AddRequirement(t: Tally, req: Requirement, ghost groups: seq<Group>, ghost kept: seq<Requirement>)
    returns (u: Tally)
    requires Tallies(t, groups, kept)
    ensures Tallies(u, groups, kept + [req])
  {
    hide Records;
    assert (kept + [req])[..|kept|] == kept;
    if |req.applicability| == 0 {
      assert Memberships(kept + [req]) == Memberships(kept);
      return t.(ungrouped := t.ungrouped + [req.id]);
    }
    var defs, members := FileUnderGroups(t.defs, t.members, req, groups, Memberships(kept));
    u := Tally(defs, members, t.ungrouped);
  }

  method FileUnderGroups(defs: map<string, Group>, members: map<string, seq<string>>, req: Requirement,
                         ghost groups: seq<Group>, ghost before: seq<Member>)
    returns (defs': map<string, Group>, members': map<string, seq<string>>)
    requires Records(defs, members, groups, before)
    ensures Records(defs', members', groups, before + MembershipsOf(req))
  {
    hide Records;
    ghost var own := MembershipsOf(req);
    defs', members' := defs, members;
    assert before + own[..0] == before;
    for k := 0 to |req.applicability|
      invariant Records(defs', members', groups, before + own[..k])
    {
      var group := req.applicability[k];
      FileNext(defs', members', groups, before + own[..k], own[k]);
      assert before + own[..k] + [own[k]] == before + own[..k + 1];
      members' := members'[group := Find(members', group) + [req.id]];
      if group !in defs' {
        defs' := defs'[group := Group(group, "", "")];
      }
    }
    assert own[..|own|] == own;
  }

  lemma {:induction false} NothingTallied(t: Tally, groups: seq<Group>, filter: set<string>)
    requires Records(t.defs, map[], groups, []) && t.members == map[] && t.ungrouped == []
    ensures Tallies(t, groups, Kept([], filter))
        && forall controls, ids: seq<string> :: Listed(controls, ids[..0]) == []
  {
  }

  lemma {:induction false} ListedNext(controls: seq<Control>, ids: seq<string>, i: nat)
    requires i < |ids|
    ensures Listed(controls, ids[..i + 1]) == Listed(controls, ids[..i]) + RequirementsOf(controls, ids[i])
  {
    assert ids[..i + 1][..i] == ids[..i];
  }

  lemma {:induction false} KeptNext(done: seq<Requirement>, req: Requirement, filter: set<string>)
    ensures Kept(done + [req], filter) ==
              if Selected(req.id, filter) then Kept(done, filter) + [req] else Kept(done, filter)
  {
    assert (done + [req])[..|done|] == done;
  }

  /** The requirement loops over the indexes of the resolved policy. */
  method TallyRequirements(rp: ResolvedPolicy, filter: set<string>, defs: map<string, Group>, ghost groups: seq<Group>)
    returns (t: Tally)
    requires rp.Valid() && Records(defs, map[], groups, [])
    ensures Tallies(t, groups, Kept(Listed(AllControls(rp.controlCatalogs), rp.controlIDs), filter))
  {
    hide Tallies, Records, Kept, Listed, RequirementsOf, Describes, LastById, LastParameters;
    t := Tally(defs, map[], []);
    NothingTallied(t, groups, filter);
    ghost var controls := AllControls(rp.controlCatalogs);
    for i := 0 to |rp.controlIDs|
      invariant Tallies(t, groups, Kept(Listed(controls, rp.controlIDs[..i]), filter))
    {
      var rs := rp.RequirementsForControl(rp.controlIDs[i]);
      ghost var before := Listed(controls, rp.controlIDs[..i]);
      ListedNext(controls, rp.controlIDs, i);
      assert before + rs[..0] == before;
      for j := 0 to |rs|
        invariant Tallies(t, groups, Kept(before + rs[..j], filter))
      {
        var req := rs[j];
        ghost var done := before + rs[..j];
        assert before + rs[..j + 1] == done + [req];
        KeptNext(done, req, filter);
        if filter != {} && req.id !in filter {
          continue;
        }
        t := AddRequirement(t, req, groups, Kept(done, filter));
      }
      assert rs[..|rs|] == rs;
    }
    assert rp.controlIDs[..|rp.controlIDs|] == rp.controlIDs;
  }

  /** The last loop, over the definition map in any order, and the sort. */
  method EmitGroups(t: Tally, filtered: bool, ghost groups: seq<Group>, ghost kept: seq<Requirement>)
    returns (infos: seq<GroupInfo>)
    requires Tallies(t, groups, kept)
    ensures IsGrouping(infos, groups, kept, filtered)
  {
    hide Definition, Defined, Filed, Memberships;
    var out: seq<GroupInfo> := [];
    var pending := t.defs.Keys;
    while pending != {}
      invariant pending <= t.defs.Keys
      invariant forall i, j :: 0 <= i < j < |out| ==> out[i].id != out[j].id
      invariant forall info <- out :: info.id in t.defs && info.id !in pending
      invariant forall info <- out ::
                  Appears(info.id, groups, kept, filtered) && info == GroupEntry(groups, kept, info.id)
      invariant forall id <- t.defs ::
                  id in pending || !Appears(id, groups, kept, filtered) || GroupEntry(groups, kept, id) in out
      decreases pending
    {
      var id :| id in pending;
      assert RecordsAt(t.defs, t.members, groups, Memberships(kept), id);
      DefinitionKeepsId(groups, id);
      pending := pending - {id};
      var reqs := Find(t.members, id);
      if filtered && |reqs| == 0 {
        continue;
      }
      var g := t.defs[id];
      out := out + [GroupInfo(g.id, g.title, g.description, reqs)];
    }
    forall id | Appears(id, groups, kept, filtered)
      ensures GroupEntry(groups, kept, id) in out
    {
      assert RecordsAt(t.defs, t.members, groups, Memberships(kept), id);
    }
    infos := Sort(out, GroupKey);
    SortedDistinctKeys(out, infos, GroupKey);
  }

  lemma {:induction false} DefinitionKeepsId(groups: seq<Group>, id: string)
    ensures Definition(groups, id).id == id
  {
    if groups != [] {
      DefinitionKeepsId(groups[1..], id);
    }
  }

  /** What a run over the policy gives under this filter, and all it may give. */
  ghost predicate IsCollected(infos: seq<GroupInfo>, ungrouped: seq<string>, rp: ResolvedPolicy,
                              filterReqIDs: seq<string>)
    reads rp
  {
    var kept := Kept(Listed(AllControls(rp.controlCatalogs), rp.controlIDs), Elements(filterReqIDs));
    && IsGrouping(infos, Definitions(rp.controlCatalogs), kept, filterReqIDs != [])
    && ungrouped == Ungrouped(kept)
  }

  method CollectApplicabilityGroups(rp: ResolvedPolicy, filterReqIDs: seq<string>)
    returns (infos: seq<GroupInfo>, ungrouped: seq<string>)
    requires rp.Valid()
    ensures IsCollected(infos, ungrouped, rp, filterReqIDs)
  {
    var filter := Elements(filterReqIDs);
    assert filterReqIDs != [] ==> filterReqIDs[0] in filter;
    ghost var groups := Definitions(rp.controlCatalogs);
    ghost var kept := Kept(Listed(AllControls(rp.controlCatalogs), rp.controlIDs), filter);
    var defs := CollectDefinitions(rp.controlCatalogs);
    var t := TallyRequirements(rp, filter, defs, groups);
    infos := EmitGroups(t, filter != {}, groups, kept);
    ungrouped := t.ungrouped;
  }

  // ----- the result is determined -----

  /** There is one grouping of given requirements, whatever order the maps were walked in. */
  lemma {:induction false} GroupingIsUnique(xs: seq<GroupInfo>, ys: seq<GroupInfo>, groups: seq<Group>,
                                            rs: seq<Requirement>, filtered: bool)
    requires IsGrouping(xs, groups, rs, filtered) && IsGrouping(ys, groups, rs, filtered)
    ensures xs == ys
  {
    hide Appears, GroupEntry;
    assert forall x :: x in xs <==> x in ys;
    StrictlySortedIsUnique(xs, ys, GroupKey);
  }

  // ----- filtering -----

  function Restricted(info: GroupInfo, filter: set<string>): GroupInfo {
    info.(requirementIDs := KeptIds(info.requirementIDs, filter))
  }

  /** Every list restricted to the filter, emptied groups dropped. */
  function Restrict(infos: seq<GroupInfo>, filter: set<string>): seq<GroupInfo> {
    if infos == [] then []
    else
      var front, last := Restrict(infos[..|infos| - 1], filter), Restricted(infos[|infos| - 1], filter);
      if last.requirementIDs == [] then front else front + [last]
  }

  lemma {:induction false} KeptIdsAppend(xs: seq<string>, ys: seq<string>, filter: set<string>)
    ensures KeptIds(xs + ys, filter) == KeptIds(xs, filter) + KeptIds(ys, filter)
  {
    if ys == [] {
      assert xs + ys == xs;
    } else {
      var n := |ys| - 1;
      KeptIdsAppend(xs, ys[..n], filter);
      assert (xs + ys)[..|xs + ys| - 1] == xs + ys[..n];
    }
  }

  lemma {:induction false} FiledAppend(xs: seq<Member>, ys: seq<Member>, group: string)
    ensures Filed(xs + ys, group) == Filed(xs, group) + Filed(ys, group)
  {
    if ys == [] {
      assert xs + ys == xs;
    } else {
      var n := |ys| - 1;
      FiledAppend(xs, ys[..n], group);
      assert (xs + ys)[..|xs + ys| - 1] == xs + ys[..n];
    }
  }

  /** All members filed for one requirement bear its id. */
  lemma {:induction false} FiledForOne(ms: seq<Member>, id: string, group: string, filter: set<string>)
    requires forall m <- ms :: m.requirement == id
    ensures KeptIds(Filed(ms, group), filter) == if Selected(id, filter) then Filed(ms, group) else []
  {
    if ms != [] {
      var n := |ms| - 1;
      FiledForOne(ms[..n], id, group, filter);
      var front := Filed(ms[..n], group);
      assert ms[n] in ms;
      if ms[n].group == group {
        assert (front + [id])[..|front|] == front;
      }
    }
  }

  lemma {:induction false} FilteredMembers(rs: seq<Requirement>, filter: set<string>, group: string)
    ensures Filed(Memberships(Kept(rs, filter)), group) == KeptIds(Filed(Memberships(rs), group), filter)
  {
    if rs != [] {
      hide Filed, KeptIds;
      var n := |rs| - 1;
      var front, last := rs[..n], rs[n];
      var kept, own := Kept(front, filter), MembershipsOf(last);
      FilteredMembers(front, filter, group);
      FiledForOne(own, last.id, group, filter);
      FiledAppend(Memberships(front), own, group);
      KeptIdsAppend(Filed(Memberships(front), group), Filed(own, group), filter);
      if Selected(last.id, filter) {
        assert (kept + [last])[..|kept|] == kept;
        FiledAppend(Memberships(kept), own, group);
      }
    } else {
      assert Filed([], group) == [] by { NothingFiled(group); }
      NothingKept(filter);
    }
  }

  lemma {:induction false} NothingFiled(group: string)
    ensures Filed([], group) == []
  {
  }

  lemma {:induction false} FilteredUngrouped(rs: seq<Requirement>, filter: set<string>)
    ensures Ungrouped(Kept(rs, filter)) == KeptIds(Ungrouped(rs), filter)
  {
    if rs != [] {
      var n := |rs| - 1;
      var front, last := rs[..n], rs[n];
      var kept, ids := Kept(front, filter), Ungrouped(front);
      FilteredUngrouped(front, filter);
      assert (kept + [last])[..|kept|] == kept;
      assert (ids + [last.id])[..|ids|] == ids;
    }
  }

  lemma {:induction false} RestrictMembers(infos: seq<GroupInfo>, filter: set<string>)
    ensures forall x :: x in Restrict(infos, filter) <==>
              x.requirementIDs != [] && exists info <- infos :: x == Restricted(info, filter)
  {
    hide Restricted;
    if infos != [] {
      var n := |infos| - 1;
      RestrictMembers(infos[..n], filter);
      assert forall info :: info in infos <==> info in infos[..n] || info == infos[n];
    }
  }

  lemma {:induction false} RestrictSorted(infos: seq<GroupInfo>, filter: set<string>)
    requires StrictlySorted(infos, GroupKey)
    ensures StrictlySorted(Restrict(infos, filter), GroupKey)
  {
    hide Less;
    if infos != [] {
      var n := |infos| - 1;
      var front := infos[..n];
      RestrictSorted(front, filter);
      RestrictMembers(front, filter);
      var before := Restrict(front, filter);
      forall i | 0 <= i < |before|
        ensures Less(GroupKey(before[i]), GroupKey(infos[n]))
      {
        assert before[i] in before;
        var k :| 0 <= k < n && before[i] == Restricted(infos[k], filter);
      }
    }
  }

  /** Collecting under a non-empty filter is collecting everything and restricting the result. */
  lemma {:induction false} FilteringCommutes(all: seq<GroupInfo>, filtered: seq<GroupInfo>, groups: seq<Group>,
                                             rs: seq<Requirement>, filter: set<string>)
    requires filter != {}
    requires IsGrouping(all, groups, rs, false)
    requires IsGrouping(filtered, groups, Kept(rs, filter), true)
    ensures filtered == Restrict(all, filter)
    ensures Ungrouped(Kept(rs, filter)) == KeptIds(Ungrouped(rs), filter)
  {
    hide Filed, Memberships, Definition, Defined;
    var kept, restricted := Kept(rs, filter), Restrict(all, filter);
    RestrictMembers(all, filter);
    RestrictSorted(all, filter);
    FilteredUngrouped(rs, filter);
    forall id
      ensures GroupEntry(groups, kept, id) == Restricted(GroupEntry(groups, rs, id), filter)
      ensures Appears(id, groups, kept, true) <==> GroupEntry(groups, kept, id).requirementIDs != []
      ensures Appears(id, groups, kept, true) ==> Appears(id, groups, rs, false)
    {
      FilteredMembers(rs, filter, id);
      NothingKept(filter);
    }
    assert IsGrouping(restricted, groups, kept, true);
    GroupingIsUnique(filtered, restricted, groups, kept, true);
  }

  lemma {:induction false} AllKept(rs: seq<Requirement>)
    ensures Kept(rs, {}) == rs
  {
    if rs != [] {
      AllKept(rs[..|rs| - 1]);
    }
  }

  /** The law for two runs over one policy: what is collected under a filter is what is collected
      without one, restricted. */
  lemma {:induction false} FilteredRun(rp: ResolvedPolicy, filterReqIDs: seq<string>, all: seq<GroupInfo>,
                                       allUngrouped: seq<string>, some: seq<GroupInfo>, someUngrouped: seq<string>)
    requires filterReqIDs != []
    requires IsCollected(all, allUngrouped, rp, []) && IsCollected(some, someUngrouped, rp, filterReqIDs)
    ensures some == Restrict(all, Elements(filterReqIDs))
    ensures someUngrouped == KeptIds(allUngrouped, Elements(filterReqIDs))
  {
    hide IsGrouping, Definitions, Listed, Kept, Ungrouped, Restrict, KeptIds;
    var rs := Listed(AllControls(rp.controlCatalogs), rp.controlIDs);
    AllKept(rs);
    assert Elements<string>([]) == {} && filterReqIDs[0] in Elements(filterReqIDs);
    FilteringCommutes(all, some, Definitions(rp.controlCatalogs), rs, Elements(filterReqIDs));
  }

  lemma {:induction false} NothingKept(filter: set<string>)
    ensures KeptIds([], filter) == []
  {
  }

  // ----- conservation -----

  function Sizes(infos: seq<GroupInfo>): nat {
    if infos == [] then 0 else |infos[0].requirementIDs| + Sizes(infos[1..])
  }

  /** A requirement counts once for each group it lists, or once as ungrouped. */
  function Places(rs: seq<Requirement>): nat {
    if rs == [] then 0
    else
      var n := |rs[|rs| - 1].applicability|;
      Places(rs[..|rs| - 1]) + if n == 0 then 1 else n
  }

  function MemberWeights(ms: seq<Member>): seq<Weighted> {
    seq(|ms|, i requires 0 <= i < |ms| => Weighted(ms[i].group, 1))
  }

  lemma {:induction false} PlacesAddUp(rs: seq<Requirement>)
    ensures Places(rs) == |Memberships(rs)| + |Ungrouped(rs)|
  {
    if rs != [] {
      PlacesAddUp(rs[..|rs| - 1]);
    }
  }

  lemma {:induction false} MembersWeigh(ms: seq<Member>, group: string)
    ensures Under(MemberWeights(ms), group) == |Filed(ms, group)|
    ensures Total(MemberWeights(ms)) == |ms|
  {
    if ms != [] {
      var n := |ms| - 1;
      MembersWeigh(ms[..n], group);
      assert MemberWeights(ms) == MemberWeights(ms[..n]) + [Weighted(ms[n].group, 1)];
      UnderAppend(MemberWeights(ms[..n]), [Weighted(ms[n].group, 1)], group);
      TotalAppend(MemberWeights(ms[..n]), [Weighted(ms[n].group, 1)]);
    }
  }

  function Ids(infos: seq<GroupInfo>): (ids: seq<string>)
    ensures |ids| == |infos| && forall i :: 0 <= i < |infos| ==> ids[i] == infos[i].id
  {
    seq(|infos|, i requires 0 <= i < |infos| => infos[i].id)
  }

  lemma {:induction false} SizesWeigh(infos: seq<GroupInfo>, ms: seq<Member>)
    requires forall info <- infos :: info.requirementIDs == Filed(ms, info.id)
    ensures Sizes(infos) == UnderEach(MemberWeights(ms), Ids(infos))
  {
    if infos != [] {
      MembersWeigh(ms, infos[0].id);
      assert infos[0] in infos;
      assert forall info <- infos[1..] :: info in infos;
      SizesWeigh(infos[1..], ms);
      assert Ids(infos)[1..] == Ids(infos[1..]);
    }
  }

  lemma {:induction false} FiledSomewhere(ms: seq<Member>, i: nat)
    requires i < |ms|
    ensures Filed(ms, ms[i].group) != []
  {
    if i < |ms| - 1 {
      FiledSomewhere(ms[..|ms| - 1], i);
    }
  }

  /** Nothing is lost or counted twice: group list lengths and ungrouped together account for every
      place a kept requirement takes. */
  lemma {:induction false} GroupingConserves(infos: seq<GroupInfo>, groups: seq<Group>, rs: seq<Requirement>,
                                             filtered: bool)
    requires IsGrouping(infos, groups, rs, filtered)
    ensures Sizes(infos) + |Ungrouped(rs)| == Places(rs)
  {
    hide Definition, Defined, Filed, Memberships;
    var ms, ids := Memberships(rs), Ids(infos);
    PlacesAddUp(rs);
    MembersWeigh(ms, "");
    SizesWeigh(infos, ms);
    forall i, j | 0 <= i < j < |ids|
      ensures ids[i] != ids[j]
    {
      LessIrreflexive(ids[i]);
      assert Less(GroupKey(infos[i]), GroupKey(infos[j]));
    }
    forall w | w in MemberWeights(ms)
      ensures w.key in ids
    {
      var i :| 0 <= i < |ms| && MemberWeights(ms)[i] == w;
      FiledSomewhere(ms, i);
      assert Appears(w.key, groups, rs, filtered);
      var k :| 0 <= k < |infos| && infos[k] == GroupEntry(groups, rs, w.key);
      assert ids[k] == w.key;
    }
    GroupsAddUp(MemberWeights(ms), ids);
  }
}
