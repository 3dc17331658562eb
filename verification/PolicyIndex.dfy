/** The resolved policy and the indexes it builds eagerly over its catalogs. */
module PolicyIndex {
  import opened Counting
  import opened Filters
  import opened Gemara
  import opened Sequences

  // ----- what the indexes should say -----

  /** Every control of every catalog, in order. */
  function AllControls(catalogs: seq<Catalog<Control>>): seq<Control> {
    if catalogs == [] then []
    else AllControls(catalogs[..|catalogs| - 1]) + catalogs[|catalogs| - 1].items
  }

  /** The in-order concatenation of the requirements of the controls with this id. */
  function RequirementsOf(controls: seq<Control>, id: string): seq<Requirement> {
    if controls == [] then []
    else
      var last := controls[|controls| - 1];
      RequirementsOf(controls[..|controls| - 1], id) + if last.id == id then last.requirements else []
  }

  /** The ids of the controls, each where it first occurs. */
  function FirstOccurrences(controls: seq<Control>): seq<string> {
    if controls == [] then []
    else
      var ids, last := FirstOccurrences(controls[..|controls| - 1]), controls[|controls| - 1];
      if last.id in ids then ids else ids + [last.id]
  }

  /** The position of the first control with this id, or the length when there is none. */
  function FirstPosition(controls: seq<Control>, id: string): (k: nat)
    ensures k <= |controls|
    ensures k < |controls| ==> controls[k].id == id
    ensures forall j :: 0 <= j < k ==> controls[j].id != id
  {
    if controls == [] || controls[0].id == id then 0 else 1 + FirstPosition(controls[1..], id)
  }

  /** The parameters of the last plan for this requirement that lists any. */
  function LastParameters(plans: seq<Plan>, requirementId: string): seq<Parameter> {
    if plans == [] then []
    else
      var last := plans[|plans| - 1];
      if last.requirementId == requirementId && last.parameters != [] then last.parameters
      else LastParameters(plans[..|plans| - 1], requirementId)
  }

  // ----- the same, joined from parts -----

  lemma {:induction false} AllControlsJoin(catalogs: seq<Catalog<Control>>)
    ensures AllControls(catalogs) == Flatten(Images(catalogs, (c: Catalog<Control>) => c.items))
  {
    if catalogs != [] {
      var n := |catalogs| - 1;
      AllControlsJoin(catalogs[..n]);
      JoinSnoc(catalogs[..n], catalogs[n], (c: Catalog<Control>) => c.items);
      assert catalogs == catalogs[..n] + [catalogs[n]];
    }
  }

  lemma {:induction false} RequirementsOfJoin(controls: seq<Control>, id: string)
    ensures RequirementsOf(controls, id) ==
              Flatten(Images(controls, (c: Control) => if c.id == id then c.requirements else []))
  {
    if controls != [] {
      var n := |controls| - 1;
      RequirementsOfJoin(controls[..n], id);
      JoinSnoc(controls[..n], controls[n], (c: Control) => if c.id == id then c.requirements else []);
      assert controls == controls[..n] + [controls[n]];
    }
  }

  function Find<V>(index: map<string, seq<V>>, key: string): seq<V> {
    if key in index then index[key] else []
  }

  /** A pointer into `catalogs`: which catalog, which of its controls. */
  datatype Location = Location(catalog: nat, control: nat)

  predicate Points(l: Location, catalogs: seq<Catalog<Control>>) {
    l.catalog < |catalogs| && l.control < |catalogs[l.catalog].items|
  }

  /** The pointer for `id` leads to the first control of `done` with that id. */
  ghost predicate LeadsToFirst(l: Location, id: string, catalogs: seq<Catalog<Control>>, done: seq<Control>) {
    && Points(l, catalogs) && FirstPosition(done, id) < |done|
    && catalogs[l.catalog].items[l.control] == done[FirstPosition(done, id)]
  }

  /** The indexes describe `done`, the controls indexed so far. */
  ghost predicate Describes(ids: seq<string>, controlIndex: map<string, Location>,
                            reqIndex: map<string, seq<Requirement>>, catalogs: seq<Catalog<Control>>,
                            done: seq<Control>) {
    && ids == FirstOccurrences(done)
    && controlIndex.Keys == reqIndex.Keys == Elements(ids)
    && (forall id <- controlIndex :: LeadsToFirst(controlIndex[id], id, catalogs, done))
    && (forall id :: Find(reqIndex, id) == RequirementsOf(done, id))
  }

  lemma {:induction false} DescribesNext(ids: seq<string>, controlIndex: map<string, Location>,
                                         reqIndex: map<string, seq<Requirement>>, catalogs: seq<Catalog<Control>>,
                                         done: seq<Control>, l: Location)
    requires Describes(ids, controlIndex, reqIndex, catalogs, done) && Points(l, catalogs)
    ensures var c := catalogs[l.catalog].items[l.control];
            Describes(if c.id in ids then ids else ids + [c.id],
                      if c.id in ids then controlIndex else controlIndex[c.id := l],
                      reqIndex[c.id := Find(reqIndex, c.id) + c.requirements], catalogs, done + [c])
  {
    hide LeadsToFirst, FirstOccurrences, RequirementsOf, FirstPosition;
    var c := catalogs[l.catalog].items[l.control];
    IdsNext(done, c);
    RequirementsNext(reqIndex, done, c);
    ElementsAppend(ids, [c.id]);
    forall id | id in controlIndex
      ensures LeadsToFirst(controlIndex[id], id, catalogs, done + [c])
    {
      StillLeads(controlIndex[id], id, catalogs, done, c);
    }
    if c.id !in ids {
      NowLeads(l, catalogs, done);
    }
  }

  lemma {:induction false} IdsNext(done: seq<Control>, c: Control)
    ensures var ids := FirstOccurrences(done);
            && FirstOccurrences(done + [c]) == (if c.id in ids then ids else ids + [c.id])
            && forall d <- done :: d.id in ids
  {
    FirstOccurrencesCover(done);
    assert (done + [c])[..|done|] == done;
  }

  lemma {:induction false} RequirementsNext(reqIndex: map<string, seq<Requirement>>, done: seq<Control>, c: Control)
    requires forall id :: Find(reqIndex, id) == RequirementsOf(done, id)
    ensures var next := reqIndex[c.id := Find(reqIndex, c.id) + c.requirements];
            forall id :: Find(next, id) == RequirementsOf(done + [c], id)
  {
    assert (done + [c])[..|done|] == done;
    var next := reqIndex[c.id := Find(reqIndex, c.id) + c.requirements];
    forall id
      ensures Find(next, id) == RequirementsOf(done + [c], id)
    {
      assert Find(reqIndex, id) == RequirementsOf(done, id);
    }
  }

  lemma {:induction false} NowLeads(l: Location, catalogs: seq<Catalog<Control>>, done: seq<Control>)
    requires Points(l, catalogs)
    requires catalogs[l.catalog].items[l.control].id !in FirstOccurrences(done)
    ensures var c := catalogs[l.catalog].items[l.control];
            LeadsToFirst(l, c.id, catalogs, done + [c])
  {
    var c := catalogs[l.catalog].items[l.control];
    FirstOccurrencesCover(done);
    PositionNext(done, c, c.id);
  }

  lemma {:induction false} StillLeads(l: Location, id: string, catalogs: seq<Catalog<Control>>, done: seq<Control>,
                                      c: Control)
    requires LeadsToFirst(l, id, catalogs, done)
    ensures LeadsToFirst(l, id, catalogs, done + [c])
  {
    PositionNext(done, c, id);
  }

  lemma {:induction false} PositionNext(done: seq<Control>, c: Control, id: string)
    ensures var k := FirstPosition(done, id);
            FirstPosition(done + [c], id) == if k < |done| || c.id == id then k else k + 1
  {
    var more := done + [c];
    var k, n := FirstPosition(done, id), FirstPosition(more, id);
    if k < |done| {
      assert more[k].id == id;
    } else {
      assert more[|done|] == c;
      assert forall j :: 0 <= j < |done| ==> more[j].id != id;
    }
  }

  /** The ids are distinct and are exactly the ids of the controls. */
  lemma {:induction false} FirstOccurrencesCover(controls: seq<Control>)
    ensures Distinct(FirstOccurrences(controls))
    ensures forall c <- controls :: c.id in FirstOccurrences(controls)
    ensures forall id <- FirstOccurrences(controls) :: FirstPosition(controls, id) < |controls|
  {
    if controls != [] {
      var front := controls[..|controls| - 1];
      FirstOccurrencesCover(front);
      assert controls == front + [controls[|controls| - 1]];
      forall id | id in FirstOccurrences(controls)
        ensures FirstPosition(controls, id) < |controls|
      {
        if id in FirstOccurrences(front) {
          assert controls[FirstPosition(front, id)].id == id;
        } else {
          assert controls[|controls| - 1].id == id;
        }
      }
    }
  }

  /** They come in the order in which they first occur. */
  lemma {:induction false} FirstOccurrencesInOrder(controls: seq<Control>, i: nat, j: nat)
    requires i < j < |FirstOccurrences(controls)|
    ensures var ids := FirstOccurrences(controls);
            FirstPosition(controls, ids[i]) < FirstPosition(controls, ids[j]) < |controls|
  {
    var n := |controls| - 1;
    var front := controls[..n];
    var ids, before := FirstOccurrences(controls), FirstOccurrences(front);
    FirstOccurrencesCover(front);
    FirstOccurrencesCover(controls);
    assert before[i] == ids[i];
    PositionInFront(controls, ids[i]);
    if j < |before| {
      FirstOccurrencesInOrder(front, i, j);
      PositionInFront(controls, ids[j]);
    } else {
      var k := FirstPosition(controls, ids[j]);
      assert k < n ==> front[k].id == ids[j];
    }
  }

  lemma {:induction false} PositionInFront(controls: seq<Control>, id: string)
    requires controls != [] && FirstPosition(controls[..|controls| - 1], id) < |controls| - 1
    ensures FirstPosition(controls, id) == FirstPosition(controls[..|controls| - 1], id)
  {
    var front := controls[..|controls| - 1];
    assert forall j :: 0 <= j < |front| ==> front[j] == controls[j];
  }

  /** A plan listing parameters decides, unless a later one for the same requirement also lists some. */
  lemma {:induction false} LastPlanDecides(plans: seq<Plan>, i: nat)
    requires i < |plans| && plans[i].parameters != []
    requires forall j :: i < j < |plans| && plans[j].requirementId == plans[i].requirementId ==>
        plans[j].parameters == []
    ensures LastParameters(plans, plans[i].requirementId) == plans[i].parameters
  {
    if i < |plans| - 1 {
      LastPlanDecides(plans[..|plans| - 1], i);
    }
  }

  // ----- conservation -----

  /** Without a plan that lists parameters for the requirement there are none. */
  lemma {:induction false} NoPlanNoParameters(plans: seq<Plan>, requirementId: string)
    ensures LastParameters(plans, requirementId) == [] <==>
              forall plan <- plans :: plan.requirementId == requirementId ==> plan.parameters == []
  {
    if plans != [] {
      var n := |plans| - 1;
      NoPlanNoParameters(plans[..n], requirementId);
      assert plans == plans[..n] + [plans[n]];
    }
  }

  function RequirementWeights(controls: seq<Control>): seq<Weighted> {
    seq(|controls|, i requires 0 <= i < |controls| => Weighted(controls[i].id, |controls[i].requirements|))
  }

  lemma {:induction false} RequirementsWeigh(controls: seq<Control>, id: string)
    ensures |RequirementsOf(controls, id)| == Under(RequirementWeights(controls), id)
  {
    if controls != [] {
      var n := |controls| - 1;
      RequirementsWeigh(controls[..n], id);
      assert RequirementWeights(controls) ==
          RequirementWeights(controls[..n]) + [Weighted(controls[n].id, |controls[n].requirements|)];
      UnderAppend(RequirementWeights(controls[..n]), [Weighted(controls[n].id, |controls[n].requirements|)], id);
    }
  }

  /** Counting through the index, id by id. */
  /** The weights count every requirement of every control. */
  lemma {:induction false} WeightsCount(controls: seq<Control>)
    ensures Total(RequirementWeights(controls)) == |Flatten(Images(controls, (c: Control) => c.requirements))|
  {
    if controls != [] {
      var rest := controls[1..];
      WeightsCount(rest);
      JoinCons(controls[0], rest, (c: Control) => c.requirements);
      assert controls == [controls[0]] + rest;
      assert RequirementWeights(controls)[1..] == RequirementWeights(rest);
    }
  }

  function IndexedCount(controls: seq<Control>, ids: seq<string>): nat {
    if ids == [] then 0 else |RequirementsOf(controls, ids[0])| + IndexedCount(controls, ids[1..])
  }

  lemma {:induction false} IndexedCountWeighs(controls: seq<Control>, ids: seq<string>)
    ensures IndexedCount(controls, ids) == UnderEach(RequirementWeights(controls), ids)
  {
    if ids != [] {
      RequirementsWeigh(controls, ids[0]);
      IndexedCountWeighs(controls, ids[1..]);
    }
  }

  /** The requirements found through the indexed ids are all the requirements there are, however
      often an id recurs within or across catalogs. */
  lemma {:induction false} IndexLosesNothing(controls: seq<Control>)
    ensures IndexedCount(controls, FirstOccurrences(controls)) == Total(RequirementWeights(controls))
  {
    FirstOccurrencesCover(controls);
    IndexedCountWeighs(controls, FirstOccurrences(controls));
    GroupsAddUp(RequirementWeights(controls), FirstOccurrences(controls));
  }

  // ----- the class -----

  class ResolvedPolicy {
    const policy: Policy
    const controlCatalogs: seq<Catalog<Control>>
    const guidanceCatalogs: seq<Catalog<Guideline>>
    const unresolved: seq<string>

    var controlCatalogsByID: map<string, nat>
    var guidanceCatalogsByID: map<string, nat>
    var controlIDs: seq<string>
    var controlIndex: map<string, Location>
    var reqIndex: map<string, seq<Requirement>>
    var paramIndex: map<string, seq<Parameter>>

    /** Every index agrees with the catalogs and the policy. */
    ghost predicate Valid()
      reads this
    {
      && Describes(controlIDs, controlIndex, reqIndex, controlCatalogs, AllControls(controlCatalogs))
      && (forall id :: Find(paramIndex, id) == LastParameters(policy.plans, id))
      && LastById(controlCatalogsByID, controlCatalogs)
      && LastById(guidanceCatalogsByID, guidanceCatalogs)
    }

    constructor (policy: Policy, controlCatalogs: seq<Catalog<Control>>, guidanceCatalogs: seq<Catalog<Guideline>>,
                 unresolved: seq<string>)
      ensures Valid()
      ensures this.policy == policy && this.controlCatalogs == controlCatalogs
      ensures this.guidanceCatalogs == guidanceCatalogs && this.unresolved == unresolved
    {
      this.policy, this.controlCatalogs := policy, controlCatalogs;
      this.guidanceCatalogs, this.unresolved := guidanceCatalogs, unresolved;
      new;
      BuildIndexes();
    }

    method BuildIndexes()
      modifies this
      ensures Valid()
    {
      hide Describes, LastById, LastParameters;
      controlCatalogsByID := IndexById(controlCatalogs);
      guidanceCatalogsByID := IndexById(guidanceCatalogs);
      controlIDs, controlIndex, reqIndex := IndexControls(controlCatalogs);
      paramIndex := IndexParameters(policy.plans);
    }

    function RequirementsForControl(controlID: string): (rs: seq<Requirement>)
      requires Valid()
      reads this
      ensures rs == RequirementsOf(AllControls(controlCatalogs), controlID)
    {
      Find(reqIndex, controlID)
    }

    /** The first control with the id, in catalog order; none exactly when no catalog has one. */
    function ControlByID(controlID: string): (c: Option<Control>)
      requires Valid()
      reads this
      ensures var all := AllControls(controlCatalogs);
              var k := FirstPosition(all, controlID);
              c == if k < |all| then Some(all[k]) else None
    {
      FirstOccurrencesCover(AllControls(controlCatalogs));
      if controlID in controlIndex then
        var l := controlIndex[controlID];
        Some(controlCatalogs[l.catalog].items[l.control])
      else None
    }

    function ParametersForRequirement(requirementId: string): (ps: seq<Parameter>)
      requires Valid()
      reads this
      ensures ps == LastParameters(policy.plans, requirementId)
    {
      Find(paramIndex, requirementId)
    }

    /** The last resolved catalog with the id: later entries overwrite earlier ones. */
    function ControlCatalog(id: string): (c: Option<Catalog<Control>>)
      requires Valid()
      reads this
      ensures c == None <==> forall i :: 0 <= i < |controlCatalogs| ==> controlCatalogs[i].id != id
      ensures c.Some? ==> exists i :: 0 <= i < |controlCatalogs| && controlCatalogs[i] == c.value && c.value.id == id
                            && forall j :: i < j < |controlCatalogs| ==> controlCatalogs[j].id != id
    {
      if id in controlCatalogsByID then Some(controlCatalogs[controlCatalogsByID[id]]) else None
    }
  }

  /** Each id is mapped to the last catalog that has it. */
  ghost predicate LastById<T>(index: map<string, nat>, catalogs: seq<Catalog<T>>) {
    && (forall i :: 0 <= i < |catalogs| ==> catalogs[i].id in index)
    && (forall id <- index :: index[id] < |catalogs| && catalogs[index[id]].id == id
          && forall j :: index[id] < j < |catalogs| ==> catalogs[j].id != id)
  }

  method IndexById<T>(catalogs: seq<Catalog<T>>) returns (index: map<string, nat>)
    ensures LastById(index, catalogs)
  {
    index := map[];
    for i := 0 to |catalogs|
      invariant LastById(index, catalogs[..i])
    {
      index := index[catalogs[i].id := i];
    }
    assert catalogs[..|catalogs|] == catalogs;
  }

  /** The nested loops of buildIndexes. */
  method IndexControls(catalogs: seq<Catalog<Control>>)
    returns (ids: seq<string>, controlIndex: map<string, Location>, reqIndex: map<string, seq<Requirement>>)
    ensures Describes(ids, controlIndex, reqIndex, catalogs, AllControls(catalogs))
  {
    hide Describes;
    ids, controlIndex, reqIndex := [], map[], map[];
    NothingIndexed(catalogs);
    var seen: set<string> := {};
    for i := 0 to |catalogs|
      invariant Describes(ids, controlIndex, reqIndex, catalogs, AllControls(catalogs[..i]))
      invariant seen == Elements(ids)
    {
      var controls := catalogs[i].items;
      ghost var before := AllControls(catalogs[..i]);
      assert before + controls[..0] == before;
      for j := 0 to |controls|
        invariant Describes(ids, controlIndex, reqIndex, catalogs, before + controls[..j])
        invariant seen == Elements(ids)
      {
        var control := controls[j];
        DescribesNext(ids, controlIndex, reqIndex, catalogs, before + controls[..j], Location(i, j));
        assert before + controls[..j] + [control] == before + controls[..j + 1];
        ghost var known := ids;
        if control.id !in seen {
          ids := ids + [control.id];
          ElementsAppend(known, [control.id]);
          seen := seen + {control.id};
          controlIndex := controlIndex[control.id := Location(i, j)];
        }
        reqIndex := reqIndex[control.id := Find(reqIndex, control.id) + control.requirements];
      }
      assert controls[..|controls|] == controls;
      assert catalogs[..i + 1][..i] == catalogs[..i];
    }
    assert catalogs[..|catalogs|] == catalogs;
  }

  lemma {:induction false} NothingIndexed(catalogs: seq<Catalog<Control>>)
    ensures Describes([], map[], map[], catalogs, AllControls(catalogs[..0]))
  {
  }

  method IndexParameters(plans: seq<Plan>) returns (index: map<string, seq<Parameter>>)
    ensures forall id :: Find(index, id) == LastParameters(plans, id)
  {
    index := map[];
    for i := 0 to |plans|
      invariant forall id :: Find(index, id) == LastParameters(plans[..i], id)
    {
      assert plans[..i + 1][..i] == plans[..i];
      if |plans[i].parameters| > 0 {
        index := index[plans[i].requirementId := plans[i].parameters];
      }
    }
    assert plans[..|plans|] == plans;
  }
}
