/** Two independently written views of a resolved policy, the extracted requirements and the
    per-control summaries, and the counts on which they must agree. */
module Assessment {
  import opened Counting
  import opened Gemara
  import opened PolicyIndex
  import opened Sequences

  datatype Info = Info(
    id: string,
    controlID: string,
    text: string,
    applicability: seq<string>,
    parameters: map<string, string>)

  datatype Summary = Summary(id: string, title: string, requirementCount: nat)

  // ----- scope -----

  predicate Intersects(applicability: seq<string>, scope: seq<string>) { exists a <- applicability :: a in scope }

  method ApplicabilityIntersects(applicability: seq<string>, scope: seq<string>) returns (r: bool)
    ensures r <==> Intersects(applicability, scope)
  {
    for i := 0 to |applicability|
      invariant forall k :: 0 <= k < i ==> applicability[k] !in scope
    {
      for j := 0 to |scope|
        invariant forall k :: 0 <= k < j ==> applicability[i] != scope[k]
      {
        if applicability[i] == scope[j] {
          assert applicability[i] in applicability && scope[j] in scope;
          return true;
        }
      }
    }
    return false;
  }

  /** An empty scope admits every requirement. */
  predicate InScope(r: Requirement, scope: seq<string>) { scope == [] || Intersects(r.applicability, scope) }

  function Scoped(rs: seq<Requirement>, scope: seq<string>): seq<Requirement> {
    if rs == [] then []
    else if InScope(rs[0], scope) then [rs[0]] + Scoped(rs[1..], scope)
    else Scoped(rs[1..], scope)
  }

  // ----- parameters -----

  datatype Write = Write(key: string, value: string)

  function Join(values: seq<string>): string {
    if values == [] then ""
    else if |values| == 1 then values[0]
    else values[0] + ", " + Join(values[1..])
  }

  /** What one parameter writes: its accepted values, if any, and its description, if any. */
  function WritesOf(p: Parameter): seq<Write> {
    (if p.acceptedValues == [] then [] else [Write(p.name, Join(p.acceptedValues))])
    + (if p.description == "" then [] else [Write(p.name + "_description", p.description)])
  }

  function Writes(ps: seq<Parameter>): seq<Write> {
    if ps == [] then [] else Writes(ps[..|ps| - 1]) + WritesOf(ps[|ps| - 1])
  }

  /** The value of the last write to a key. */
  function LastWrite(ws: seq<Write>, key: string): Option<string> {
    if ws == [] then None
    else if ws[|ws| - 1].key == key then Some(ws[|ws| - 1].value)
    else LastWrite(ws[..|ws| - 1], key)
  }

  /** The map holds, for each key written, the last value written, and nothing else. */
  ghost predicate HoldsLastWrites(m: map<string, string>, ws: seq<Write>) {
    forall key :: if key in m then LastWrite(ws, key) == Some(m[key]) else LastWrite(ws, key) == None
  }

  lemma {:induction false} WriteNext(m: map<string, string>, ws: seq<Write>, w: Write)
    requires HoldsLastWrites(m, ws)
    ensures HoldsLastWrites(m[w.key := w.value], ws + [w])
  {
    assert (ws + [w])[..|ws|] == ws;
  }

  method FillParameters(ps: seq<Parameter>) returns (m: map<string, string>)
    ensures HoldsLastWrites(m, Writes(ps))
  {
    m := map[];
    for i := 0 to |ps|
      invariant HoldsLastWrites(m, Writes(ps[..i]))
    {
      hide HoldsLastWrites, LastWrite;
      var p := ps[i];
      ghost var before := Writes(ps[..i]);
      assert ps[..i + 1][..i] == ps[..i];
      assert Writes(ps[..i + 1]) == before + WritesOf(p);
      if |p.acceptedValues| > 0 {
        var value := if |p.acceptedValues| == 1 then p.acceptedValues[0] else Join(p.acceptedValues);
        WriteNext(m, before, Write(p.name, value));
        before := before + [Write(p.name, value)];
        m := m[p.name := value];
      }
      if p.description != "" {
        WriteNext(m, before, Write(p.name + "_description", p.description));
        before := before + [Write(p.name + "_description", p.description)];
        m := m[p.name + "_description" := p.description];
      }
      assert before == Writes(ps[..i + 1]);
    }
    assert ps[..|ps|] == ps;
  }

  // ----- the extracted requirements -----

  /** The record made from a requirement reached through a control. */
  ghost predicate Records(info: Info, controlID: string, r: Requirement, plans: seq<Plan>) {
    && info.id == r.id && info.controlID == controlID && info.text == r.text && info.applicability == r.applicability
    && HoldsLastWrites(info.parameters, Writes(LastParameters(plans, r.id)))
  }

  /** The requirements in scope, control by control, each with the control it was reached through. */
  function Reached(controls: seq<Control>, ids: seq<string>, scope: seq<string>): seq<(string, Requirement)> {
    if ids == [] then []
    else Tagged(ids[0], Scoped(RequirementsOf(controls, ids[0]), scope)) + Reached(controls, ids[1..], scope)
  }

  function Tagged(id: string, rs: seq<Requirement>): (ts: seq<(string, Requirement)>)
    ensures |ts| == |rs| && forall i :: 0 <= i < |rs| ==> ts[i] == (id, rs[i])
  {
    seq(|rs|, i requires 0 <= i < |rs| => (id, rs[i]))
  }

  ghost predicate Matches(infos: seq<Info>, reached: seq<(string, Requirement)>, plans: seq<Plan>) {
    && |infos| == |reached|
    && forall i :: 0 <= i < |infos| ==> Records(infos[i], reached[i].0, reached[i].1, plans)
  }

  /** The controls a request covers: the one asked for, or all of them. */
  function Requested(rp: ResolvedPolicy, filterControlID: string): seq<string>
    reads rp
  {
    if filterControlID != "" then [filterControlID] else rp.controlIDs
  }

  method ExtractAssessmentRequirements(rp: ResolvedPolicy, filterControlID: string, filterScope: seq<string>)
    returns (results: seq<Info>)
    requires rp.Valid()
    ensures var ids := if filterControlID == "" then rp.controlIDs else [filterControlID];
            var reached := Reached(AllControls(rp.controlCatalogs), ids, filterScope);
            Matches(results, reached, rp.policy.plans)
  {
    hide Matches, Reached, RequirementsOf, Scoped, Describes, LastById, LastParameters;
    NothingReached(rp.policy.plans);
    ghost var controls, plans := AllControls(rp.controlCatalogs), rp.policy.plans;
    var controlIDs := Requested(rp, filterControlID);
    results := [];
    ghost var done: seq<(string, Requirement)> := [];
    ghost var whole := Reached(controls, controlIDs, filterScope);
    assert controlIDs[0..] == controlIDs;
    for i := 0 to |controlIDs|
      invariant Matches(results, done, plans)
      invariant whole == done + Reached(controls, controlIDs[i..], filterScope)
    {
      ghost var own := Tagged(controlIDs[i], Scoped(RequirementsOf(controls, controlIDs[i]), filterScope));
      ReachedNext(controls, controlIDs, i, filterScope);
      var found := ExtractForControl(rp, controlIDs[i], filterScope);
      MatchesAppend(results, done, found, own, plans);
      ghost var rest := Reached(controls, controlIDs[i + 1..], filterScope);
      assert done + (own + rest) == done + own + rest;
      results, done := results + found, done + own;
    }
    ReachedNone(controls, filterScope);
    assert controlIDs[|controlIDs|..] == [] && done + [] == done;
  }

  lemma {:induction false} NothingReached(plans: seq<Plan>)
    ensures Matches([], [], plans)
  {
  }

  lemma {:induction false} ReachedNone(controls: seq<Control>, scope: seq<string>)
    ensures Reached(controls, [], scope) == []
  {
  }

  lemma {:induction false} ReachedNext(controls: seq<Control>, ids: seq<string>, i: nat, scope: seq<string>)
    requires i < |ids|
    ensures Reached(controls, ids[i..], scope)
         == Tagged(ids[i], Scoped(RequirementsOf(controls, ids[i]), scope)) + Reached(controls, ids[i + 1..], scope)
  {
    assert ids[i..][1..] == ids[i + 1..];
  }

  lemma {:induction false} MatchesAppend(xs: seq<Info>, ts: seq<(string, Requirement)>, ys: seq<Info>,
                                         us: seq<(string, Requirement)>, plans: seq<Plan>)
    requires Matches(xs, ts, plans) && Matches(ys, us, plans)
    ensures Matches(xs + ys, ts + us, plans)
  {
    hide Records;
  }

  /** The inner loop: the requirements of one control. */
  method ExtractForControl(rp: ResolvedPolicy, controlID: string, filterScope: seq<string>) returns (results: seq<Info>)
    requires rp.Valid()
    ensures var rs := RequirementsOf(AllControls(rp.controlCatalogs), controlID);
            Matches(results, Tagged(controlID, Scoped(rs, filterScope)), rp.policy.plans)
  {
    hide Matches, Scoped, HoldsLastWrites, Writes, LastParameters, Intersects, Describes, LastById, RequirementsOf;
    NothingReached(rp.policy.plans);
    ghost var plans := rp.policy.plans;
    var rs := rp.RequirementsForControl(controlID);
    results := [];
    ghost var done: seq<Requirement> := [];
    assert rs[0..] == rs;
    for j := 0 to |rs|
      invariant Matches(results, Tagged(controlID, done), plans)
      invariant Scoped(rs, filterScope) == done + Scoped(rs[j..], filterScope)
    {
      var req := rs[j];
      ScopedNext(rs, j, filterScope);
      if |filterScope| > 0 {
        var meets := ApplicabilityIntersects(req.applicability, filterScope);
        if !meets {
          continue;
        }
      }
      var parameters := FillParameters(rp.ParametersForRequirement(req.id));
      var info := Info(req.id, controlID, req.text, req.applicability, parameters);
      OneMatch(info, controlID, req, plans);
      MatchesAppend(results, Tagged(controlID, done), [info], [(controlID, req)], plans);
      assert Tagged(controlID, done + [req]) == Tagged(controlID, done) + [(controlID, req)];
      results, done := results + [info], done + [req];
    }
    assert done == Scoped(rs, filterScope) by {
      assert rs[|rs|..] == [];
      ScopedNone(filterScope);
    }
  }

  lemma {:induction false} OneMatch(info: Info, controlID: string, r: Requirement, plans: seq<Plan>)
    requires Records(info, controlID, r, plans)
    ensures Matches([info], [(controlID, r)], plans)
  {
  }

  lemma {:induction false} ScopedNone(scope: seq<string>)
    ensures Scoped([], scope) == []
  {
  }

  lemma {:induction false} ScopedNext(rs: seq<Requirement>, j: nat, scope: seq<string>)
    requires j < |rs|
    ensures Scoped(rs[j..], scope) == (if InScope(rs[j], scope) then [rs[j]] else []) + Scoped(rs[j + 1..], scope)
    ensures !InScope(rs[j], scope) ==> Scoped(rs[j..], scope) == Scoped(rs[j + 1..], scope)
  {
    assert rs[j..][1..] == rs[j + 1..];
  }

  // ----- the summaries -----

  function Title(controls: seq<Control>, id: string): string {
    var k := FirstPosition(controls, id);
    if k < |controls| then controls[k].title else ""
  }

  /** One summary per control, except those that a non-empty scope leaves without requirements. */
  function Summaries(controls: seq<Control>, ids: seq<string>, scope: seq<string>): seq<Summary> {
    if ids == [] then []
    else
      var count := |Scoped(RequirementsOf(controls, ids[0]), scope)|;
      (if count == 0 && scope != [] then [] else [Summary(ids[0], Title(controls, ids[0]), count)])
      + Summaries(controls, ids[1..], scope)
  }

  function Counted(summaries: seq<Summary>): nat {
    if summaries == [] then 0 else summaries[0].requirementCount + Counted(summaries[1..])
  }

  method CountForControl(rp: ResolvedPolicy, controlID: string, filterScope: seq<string>) returns (count: nat)
    requires rp.Valid()
    ensures count == |Scoped(RequirementsOf(AllControls(rp.controlCatalogs), controlID), filterScope)|
  {
    hide Intersects, Scoped, Describes, LastById, LastParameters, RequirementsOf;
    count := 0;
    ScopedNone(filterScope);
    var rs := rp.RequirementsForControl(controlID);
    assert rs[0..] == rs;
    for j := 0 to |rs|
      invariant |Scoped(rs, filterScope)| == count + |Scoped(rs[j..], filterScope)|
    {
      ScopedNext(rs, j, filterScope);
      if |filterScope| > 0 {
        var meets := ApplicabilityIntersects(rs[j].applicability, filterScope);
        if !meets {
          continue;
        }
      }
      count := count + 1;
    }
    assert rs[|rs|..] == [];
  }

  method TitleFor(rp: ResolvedPolicy, controlID: string) returns (title: string)
    requires rp.Valid()
    ensures title == Title(AllControls(rp.controlCatalogs), controlID)
  {
    hide Describes, LastById, LastParameters, FirstPosition;
    title := "";
    var ctrl := rp.ControlByID(controlID);
    if ctrl.Some? {
      title := ctrl.value.title;
    }
  }

  method ControlSummaries(rp: ResolvedPolicy, controlIDs: seq<string>, filterScope: seq<string>)
    returns (totalControls: nat, totalRequirements: nat, controls: seq<Summary>)
    requires rp.Valid()
    ensures controls == Summaries(AllControls(rp.controlCatalogs), controlIDs, filterScope)
    ensures totalControls == |controls| && totalRequirements == Counted(controls)
  {
    hide Scoped, RequirementsOf, Summaries, Title, Describes, LastById, LastParameters, FirstPosition, Counted;
    assert Counted([]) == 0 by { CountedNone(); }
    ghost var all := AllControls(rp.controlCatalogs);
    controls, totalRequirements := [], 0;
    assert controlIDs[0..] == controlIDs;
    for i := 0 to |controlIDs|
      invariant Summaries(all, controlIDs, filterScope) == controls + Summaries(all, controlIDs[i..], filterScope)
      invariant totalRequirements == Counted(controls)
    {
      var controlID := controlIDs[i];
      SummariesNext(all, controlIDs, i, filterScope);
      var count := CountForControl(rp, controlID, filterScope);
      if count == 0 && |filterScope| > 0 {
        continue;
      }
      var title := TitleFor(rp, controlID);
      CountedNext(controls, Summary(controlID, title, count));
      ghost var rest := Summaries(all, controlIDs[i + 1..], filterScope);
      assert controls + ([Summary(controlID, title, count)] + rest) ==
          controls + [Summary(controlID, title, count)] + rest;
      controls := controls + [Summary(controlID, title, count)];
      totalRequirements := totalRequirements + count;
    }
    totalControls := |controls|;
    SummariesNone(all, filterScope);
    assert controlIDs[|controlIDs|..] == [];
  }

  lemma {:induction false} SummariesNone(controls: seq<Control>, scope: seq<string>)
    ensures Summaries(controls, [], scope) == []
  {
  }

  lemma {:induction false} SummariesNext(controls: seq<Control>, ids: seq<string>, i: nat, scope: seq<string>)
    requires i < |ids|
    ensures var count := |Scoped(RequirementsOf(controls, ids[i]), scope)|;
            var rest := Summaries(controls, ids[i + 1..], scope);
            Summaries(controls, ids[i..], scope)
              == if count == 0 && scope != [] then rest else [Summary(ids[i], Title(controls, ids[i]), count)] + rest
  {
    assert ids[i..][1..] == ids[i + 1..];
  }

  lemma {:induction false} CountedNone()
    ensures Counted([]) == 0
  {
  }

  lemma {:induction false} CountedNext(summaries: seq<Summary>, s: Summary)
    ensures Counted(summaries + [s]) == Counted(summaries) + s.requirementCount
  {
    if summaries == [] {
      assert summaries + [s] == [s] && [s][1..] == [];
    } else {
      CountedNext(summaries[1..], s);
      assert (summaries + [s])[1..] == summaries[1..] + [s];
    }
  }

  // ----- agreement -----

  /** The two views count the same requirements, and a control left out of the summaries is one
      through which no requirement was extracted. */
  lemma {:induction false} ViewsAgree(controls: seq<Control>, ids: seq<string>, scope: seq<string>)
    ensures |Reached(controls, ids, scope)| == Counted(Summaries(controls, ids, scope))
    ensures forall t <- Reached(controls, ids, scope) :: exists s <- Summaries(controls, ids, scope) :: s.id == t.0
  {
    if ids != [] {
      ViewsAgree(controls, ids[1..], scope);
      var here := Tagged(ids[0], Scoped(RequirementsOf(controls, ids[0]), scope));
      var rest := Summaries(controls, ids[1..], scope);
      var own := Summary(ids[0], Title(controls, ids[0]), |here|);
      var all := Summaries(controls, ids, scope);
      if |here| == 0 && scope != [] {
        assert all == rest;
      } else {
        assert all == [own] + rest && all[1..] == rest && all[0] == own;
      }
      forall t | t in Reached(controls, ids, scope)
        ensures exists s <- all :: s.id == t.0
      {
        if t in here {
          assert own in all;
        } else {
          var s :| s in rest && s.id == t.0;
          assert s in all;
        }
      }
    }
  }

  /** Every listed control has requirements exactly when a scope is given or none lacks them anyway. */
  lemma {:induction false} EmptyAreListedIff(controls: seq<Control>, ids: seq<string>, scope: seq<string>)
    ensures (forall s <- Summaries(controls, ids, scope) :: s.requirementCount > 0) <==>
              scope != [] || forall id <- ids :: RequirementsOf(controls, id) != []
  {
    hide RequirementsOf, Title, Scoped;
    if ids != [] {
      var count := |Scoped(RequirementsOf(controls, ids[0]), scope)|;
      var first := Summary(ids[0], Title(controls, ids[0]), count);
      var all, rest := Summaries(controls, ids, scope), Summaries(controls, ids[1..], scope);
      EmptyAreListedIff(controls, ids[1..], scope);
      if scope == [] {
        UnscopedCount(RequirementsOf(controls, ids[0]));
      }
      assert all == (if count == 0 && scope != [] then [] else [first]) + rest;
      assert (forall s <- all :: s.requirementCount > 0) <==>
             (forall s <- rest :: s.requirementCount > 0) && (scope != [] || count > 0) by {
        assert forall s :: s in all <==> (s == first && (count > 0 || scope == [])) || s in rest;
      }
      assert (forall id <- ids :: RequirementsOf(controls, id) != []) <==>
             RequirementsOf(controls, ids[0]) != [] && forall id <- ids[1..] :: RequirementsOf(controls, id) != [] by {
        assert forall id :: id in ids <==> id == ids[0] || id in ids[1..];
      }
    }
  }

  lemma {:induction false} UnscopedCount(rs: seq<Requirement>)
    ensures |Scoped(rs, [])| == |rs|
  {
    if rs != [] {
      UnscopedCount(rs[1..]);
    }
  }

  /** A control without requirements, asked for without a scope, is listed. */
  lemma {:induction false} EmptyControlIsListed(c: Control)
    requires c.requirements == []
    ensures Summaries([c], [c.id], []) == [Summary(c.id, c.title, 0)]
  {
    assert [c][..0] == [] && [c.id][1..] == [];
    assert RequirementsOf([c], c.id) == [] + c.requirements;
    assert Scoped([], []) == [] && FirstPosition([c], c.id) == 0;
    assert Summaries([c], [], []) == [];
  }

  function ReachedThrough(reached: seq<(string, Requirement)>, id: string): nat {
    if reached == [] then 0 else (if reached[0].0 == id then 1 else 0) + ReachedThrough(reached[1..], id)
  }

  lemma {:induction false} ThroughAppend(xs: seq<(string, Requirement)>, ys: seq<(string, Requirement)>, id: string)
    ensures ReachedThrough(xs + ys, id) == ReachedThrough(xs, id) + ReachedThrough(ys, id)
  {
    if xs == [] {
      assert xs + ys == ys;
    } else {
      ThroughAppend(xs[1..], ys, id);
      assert (xs + ys)[1..] == xs[1..] + ys;
    }
  }

  lemma {:induction false} ThroughTagged(tag: string, rs: seq<Requirement>, id: string)
    ensures ReachedThrough(Tagged(tag, rs), id) == if tag == id then |rs| else 0
  {
    if rs != [] {
      ThroughTagged(tag, rs[1..], id);
      assert Tagged(tag, rs)[1..] == Tagged(tag, rs[1..]);
    }
  }

  lemma {:induction false} ThroughNone(controls: seq<Control>, ids: seq<string>, scope: seq<string>, id: string)
    requires id !in ids
    ensures ReachedThrough(Reached(controls, ids, scope), id) == 0
  {
    if ids != [] {
      ThroughNone(controls, ids[1..], scope, id);
      var rs := Scoped(RequirementsOf(controls, ids[0]), scope);
      ThroughTagged(ids[0], rs, id);
      ThroughAppend(Tagged(ids[0], rs), Reached(controls, ids[1..], scope), id);
    }
  }

  /** Each summary counts exactly the requirements extracted through its control. */
  lemma {:induction false} SummaryCountsItsOwn(controls: seq<Control>, ids: seq<string>, scope: seq<string>, s: Summary)
    requires Distinct(ids) && s in Summaries(controls, ids, scope)
    ensures s.id in ids && ReachedThrough(Reached(controls, ids, scope), s.id) == s.requirementCount
  {
    var rs := Scoped(RequirementsOf(controls, ids[0]), scope);
    ThroughTagged(ids[0], rs, s.id);
    ThroughAppend(Tagged(ids[0], rs), Reached(controls, ids[1..], scope), s.id);
    if s in Summaries(controls, ids[1..], scope) {
      SummaryCountsItsOwn(controls, ids[1..], scope, s);
      assert ids[0] != s.id;
    } else {
      assert s == Summary(ids[0], Title(controls, ids[0]), |rs|);
      ThroughNone(controls, ids[1..], scope, s.id);
    }
  }

  lemma {:induction false} UnscopedReach(controls: seq<Control>, ids: seq<string>)
    ensures |Reached(controls, ids, [])| == IndexedCount(controls, ids)
  {
    if ids != [] {
      UnscopedReach(controls, ids[1..]);
      UnscopedCount(RequirementsOf(controls, ids[0]));
    }
  }

  /** Without filters every requirement of every control is reached, once. */
  lemma {:induction false} UnfilteredReachesAll(controls: seq<Control>)
    ensures |Reached(controls, FirstOccurrences(controls), [])| == Total(RequirementWeights(controls))
  {
    UnscopedReach(controls, FirstOccurrences(controls));
    IndexLosesNothing(controls);
  }

  /** The tool handler: its reported count, its summary total and its list are three views of one
      request. */
  method AssessmentRequirementsTool(rp: ResolvedPolicy, controlID: string, scope: seq<string>)
    returns (count: nat, totalRequirements: nat, controls: seq<Summary>, requirements: seq<Info>)
    requires rp.Valid()
    ensures count == |requirements| == totalRequirements == Counted(controls)
    ensures controlID == "" && scope == [] ==> count == Total(RequirementWeights(AllControls(rp.controlCatalogs)))
    ensures forall info <- requirements :: exists s <- controls :: s.id == info.controlID
    ensures forall s <- controls :: s.requirementCount ==
              var ids := if controlID == "" then rp.controlIDs else [controlID];
              ReachedThrough(Reached(AllControls(rp.controlCatalogs), ids, scope), s.id)
  {
    hide Reached, Summaries, RequirementsOf, Records;
    requirements := ExtractAssessmentRequirements(rp, controlID, scope);
    var controlIDs := Requested(rp, controlID);
    var _, total, summaries := ControlSummaries(rp, controlIDs, scope);
    ghost var all := AllControls(rp.controlCatalogs);
    ViewsAgree(all, controlIDs, scope);
    FirstOccurrencesCover(all);
    if controlID == "" && scope == [] {
      UnfilteredReachesAll(all);
    }
    count, totalRequirements, controls := |requirements|, total, summaries;
    forall info | info in requirements
      ensures exists s <- controls :: s.id == info.controlID
    {
      var i :| 0 <= i < |requirements| && requirements[i] == info;
      RecordsControl(info, Reached(all, controlIDs, scope)[i], rp.policy.plans);
    }
    forall s | s in controls
      ensures s.requirementCount == ReachedThrough(Reached(all, controlIDs, scope), s.id)
    {
      SummaryCountsItsOwn(all, controlIDs, scope, s);
    }
  }

  lemma {:induction false} RecordsControl(info: Info, t: (string, Requirement), plans: seq<Plan>)
    requires Records(info, t.0, t.1, plans)
    ensures info.controlID == t.0
  {
  }
}
