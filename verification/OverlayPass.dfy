/** Overlays in the program's own steps: the filter that drops excluded controls, and the pass that
    groups modifiers by target and overwrites each control's requirements in place. */
module OverlayPass {
  import opened DeepCopy
  import opened Gemara
  import opened Overlays
  import opened Sequences

  method ApplyControlExclusions(controls: array?<HControl>, exclusions: seq<string>) returns (kept: array?<HControl>)
    ensures kept == controls || fresh(Cell(kept))
    ensures ControlViews(Controls(kept)) == Exclude(ControlViews(Controls(controls)), ControlId, Elements(exclusions))
    ensures ControlsCells(Controls(kept)) <= ControlsCells(Controls(controls))
  {
    if |exclusions| == 0 {
      ExcludeNothing(ControlViews(Controls(controls)), ControlId);
      assert Elements(exclusions) == {};
      return controls;
    }
    var filtered := FilterControls(Controls(controls), Elements(exclusions));
    kept := new HControl[|filtered|](i requires 0 <= i < |filtered| => filtered[i]);
    assert kept[..] == filtered;
  }

  method FilterControls(controls: seq<HControl>, excluded: set<string>) returns (filtered: seq<HControl>)
    ensures ControlViews(filtered) == Exclude(ControlViews(controls), ControlId, excluded)
    ensures ControlsCells(filtered) <= ControlsCells(controls)
  {
    filtered := [];
    for i := 0 to |controls|
      invariant ControlViews(filtered) == Exclude(ControlViews(controls[..i]), ControlId, excluded)
      invariant ControlsCells(filtered) <= ControlsCells(controls)
    {
      var c := controls[i];
      ExcludeNext(controls, i, excluded);
      if c.id !in excluded {
        ControlsAppend(filtered, [c]);
        filtered := filtered + [c];
      }
    }
    assert controls[..|controls|] == controls;
  }

  lemma {:induction false} ExcludeNext(controls: seq<HControl>, i: nat, excluded: set<string>)
    requires i < |controls|
    ensures Exclude(ControlViews(controls[..i + 1]), ControlId, excluded)
         == Exclude(ControlViews(controls[..i]), ControlId, excluded)
            + if controls[i].id in excluded then [] else [ControlView(controls[i])]
    ensures ControlsCells([controls[i]]) <= ControlsCells(controls)
  {
    var c := controls[i];
    assert ControlViews(controls[..i + 1]) == ControlViews(controls[..i]) + [ControlView(c)];
    ExcludeAppend(ControlViews(controls[..i]), [ControlView(c)], ControlId, excluded);
    assert [ControlView(c)][1..] == [];
  }

  /** mergeARFields: the struct is copied, the applicability slice is replaced by a copy. */
  method MergeFields(r: HRequirement, m: Modifier) returns (merged: HRequirement)
    ensures RequirementView(merged) == Merge(RequirementView(r), m)
    ensures forall o <- RequirementCells(merged) :: o in RequirementCells(r) || fresh(o)
  {
    merged := r;
    if m.text != "" {
      merged := merged.(text := m.text);
    }
    if |m.applicability| > 0 {
      var applicability := new Slice(m.applicability);
      merged := merged.(applicability := applicability);
    }
    if m.recommendation != "" {
      merged := merged.(recommendation := m.recommendation);
    }
  }

  method FromModifier(m: Modifier) returns (r: HRequirement)
    ensures RequirementView(r) == Requirement(m.id, m.text, m.applicability, m.recommendation, Active, None)
    ensures fresh(RequirementCells(r))
  {
    var applicability := new Slice(m.applicability);
    r := HRequirement(m.id, m.text, applicability, m.recommendation, Active, null);
  }

  lemma {:induction false} TargetingNone(target: string)
    ensures Targeting([], target) == []
  {
  }

  /** The grouping map: each target with the modifiers that name it, in order. */
  method GroupByTarget(mods: seq<Modifier>) returns (byTarget: map<string, seq<Modifier>>)
    ensures forall t :: t in byTarget <==> Targeting(mods, t) != []
    ensures forall t <- byTarget :: byTarget[t] == Targeting(mods, t)
  {
    hide Targeting;
    byTarget := map[];
    forall t
      ensures Targeting(mods[..0], t) == []
    {
      TargetingNone(t);
    }
    for k := 0 to |mods|
      invariant forall t :: t in byTarget <==> Targeting(mods[..k], t) != []
      invariant forall t <- byTarget :: byTarget[t] == Targeting(mods[..k], t)
    {
      var m := mods[k];
      assert mods[..k + 1] == mods[..k] + [m];
      forall t {
        TargetingAppend(mods[..k], m, t);
      }
      byTarget := byTarget[m.targetId := (if m.targetId in byTarget then byTarget[m.targetId] else []) + [m]];
    }
    assert mods[..|mods|] == mods;
  }

  /** The inner loop: one requirement against the modifiers that name it. */
  method RewriteRequirement(r: HRequirement, hits: seq<Modifier>) returns (out: seq<HRequirement>)
    ensures RequirementViews(out) == Emit(Rewrite(Rewriting([], RequirementView(r), false), hits))
    ensures forall o <- AllRequirementCells(out) :: o in RequirementCells(r) || fresh(o)
  {
    hide RequirementCells;
    out := [];
    var ar, removed := r, false;
    for k := 0 to |hits|
      invariant Rewrite(Rewriting([], RequirementView(r), false), hits[..k])
             == Rewriting(RequirementViews(out), RequirementView(ar), removed)
      invariant forall o <- AllRequirementCells(out) :: o in RequirementCells(r) || fresh(o)
      invariant forall o <- RequirementCells(ar) :: o in RequirementCells(r) || fresh(o)
    {
      var m := hits[k];
      assert hits[..k + 1] == hits[..k] + [m];
      RewriteAppend(Rewriting([], RequirementView(r), false), hits[..k], m);
      match m.modification {
        case Remove => removed := true;
        case Replace | Override | Modify => ar := MergeFields(ar, m);
        case Add =>
          RequirementsAppend(out, [ar]);
          out := out + [ar];
          ar := FromModifier(m);
        case Unrecognised =>
      }
    }
    assert hits[..|hits|] == hits;
    if !removed {
      RequirementsAppend(out, [ar]);
      out := out + [ar];
    }
  }

  /** The middle loop: one control's requirements. */
  method RewriteRequirements(rs: seq<HRequirement>, mods: seq<Modifier>, byTarget: map<string, seq<Modifier>>)
    returns (modified: seq<HRequirement>)
    requires forall t :: t in byTarget <==> Targeting(mods, t) != []
    requires forall t <- byTarget :: byTarget[t] == Targeting(mods, t)
    ensures RequirementViews(modified) == ModifyRequirements(RequirementViews(rs), mods)
    ensures forall o <- AllRequirementCells(modified) :: o in AllRequirementCells(rs) || fresh(o)
  {
    hide Outcome, ModifyRequirements, RequirementCells;
    ModifyNone(mods);
    modified := [];
    for j := 0 to |rs|
      invariant RequirementViews(modified) == ModifyRequirements(RequirementViews(rs[..j]), mods)
      invariant forall o <- AllRequirementCells(modified) :: o in AllRequirementCells(rs) || fresh(o)
    {
      var ar := rs[j];
      ModifyNext(rs, j, mods);
      if ar.id !in byTarget {
        RequirementsAppend(modified, [ar]);
        modified := modified + [ar];
      } else {
        var out := RewriteRequirement(ar, byTarget[ar.id]);
        RequirementsAppend(modified, out);
        modified := modified + out;
      }
    }
    assert rs[..|rs|] == rs;
  }

  lemma {:induction false} ModifyNone(mods: seq<Modifier>)
    ensures ModifyRequirements([], mods) == []
  {
  }

  lemma {:induction false} ModifyNext(rs: seq<HRequirement>, j: nat, mods: seq<Modifier>)
    requires j < |rs|
    ensures var r := RequirementView(rs[j]);
            && ModifyRequirements(RequirementViews(rs[..j + 1]), mods)
            == ModifyRequirements(RequirementViews(rs[..j]), mods) + Outcome(r, mods)
            && (Targeting(mods, r.id) == [] ==> Outcome(r, mods) == [r])
            && Outcome(r, mods) == Emit(Rewrite(Rewriting([], r, false), Targeting(mods, r.id)))
            && RequirementCells(rs[j]) <= AllRequirementCells(rs)
            && AllRequirementCells([rs[j]]) <= AllRequirementCells(rs)
  {
    var r := RequirementView(rs[j]);
    assert RequirementViews(rs[..j + 1]) == RequirementViews(rs[..j]) + [r];
    ModifyAppend(RequirementViews(rs[..j]), [r], mods);
    ModifyOne(r, mods);
  }

  method RewriteControl(c: HControl, mods: seq<Modifier>, byTarget: map<string, seq<Modifier>>)
    returns (d: HControl, ghost added: set<object>)
    requires forall t :: t in byTarget <==> Targeting(mods, t) != []
    requires forall t <- byTarget :: byTarget[t] == Targeting(mods, t)
    ensures ControlView(d) == ModifyControl(ControlView(c), mods)
    ensures ControlCells(d) <= ControlCells(c) + added && fresh(added)
  {
    hide RequirementCells, RequirementView, ModifyRequirements, MappingsCells;
    var modified := RewriteRequirements(Items(c.requirements), mods, byTarget);
    var requirements := new Slice(modified);
    d := c.(requirements := requirements);
    added := set o | o in ControlCells(d) && o !in ControlCells(c);
  }

  /** applyARModifications: overwrites the elements of `controls`; whatever an element now reaches
      was reached before the pass or is new. */
  method ApplyModifications(controls: array?<HControl>, mods: seq<Modifier>)
    modifies Cell(controls)
    ensures ControlViews(Controls(controls)) == ModifyControls(old(ControlViews(Controls(controls))), mods)
    ensures forall o <- ControlsCells(Controls(controls)) :: o in old(ControlsCells(Controls(controls))) || fresh(o)
  {
    if |mods| == 0 {
      ModifyNothing(ControlViews(Controls(controls)));
      return;
    }
    if controls == null {
      return;
    }
    var byTarget := GroupByTarget(mods);
    RewriteInPlace(controls, mods, byTarget);
  }

  /** The outer loop, over a control slice that is not nil. */
  method RewriteInPlace(controls: array<HControl>, mods: seq<Modifier>, byTarget: map<string, seq<Modifier>>)
    requires forall t :: t in byTarget <==> Targeting(mods, t) != []
    requires forall t <- byTarget :: byTarget[t] == Targeting(mods, t)
    modifies controls
    ensures ControlViews(controls[..]) == ModifyControls(old(ControlViews(controls[..])), mods)
    ensures forall o <- ControlsCells(controls[..]) :: o in old(ControlsCells(controls[..])) || fresh(o)
  {
    hide ControlCells, ControlView, ModifyControl, ModifyControls;
    assert ModifyControls(ControlViews([]), mods) == [] by { ModifyNothingYet(mods); }
    ghost var before, done, created: set<object> := controls[..], [], {};
    for i := 0 to controls.Length
      invariant fresh(created) && |done| == i
      invariant forall k :: 0 <= k < i ==> controls[k] == done[k]
      invariant forall k :: i <= k < controls.Length ==> controls[k] == before[k]
      invariant ControlViews(done) == ModifyControls(ControlViews(before[..i]), mods)
      invariant ControlsCells(done) <= ControlsCells(before[..i]) + created
    {
      var c, added := RewriteControl(controls[i], mods, byTarget);
      assert before[..i] + [before[i]] == before[..i + 1];
      PassNext(done, before[..i], c, before[i], mods);
      CellsNext(done, before[..i], c, before[i], created, added);
      created, done := created + added, done + [c];
      controls[i] := c;
    }
    assert before[..|before|] == before && controls[..] == done;
  }

  lemma {:induction false} PassNext(done: seq<HControl>, before: seq<HControl>, c: HControl, b: HControl,
                                    mods: seq<Modifier>)
    requires ControlViews(done) == ModifyControls(ControlViews(before), mods)
    requires ControlView(c) == ModifyControl(ControlView(b), mods)
    ensures ControlViews(done + [c]) == ModifyControls(ControlViews(before + [b]), mods)
  {
    ControlsAppend(done, [c]);
    ControlsAppend(before, [b]);
    ModifyControlsAppend(ControlViews(before), ControlView(b), mods);
    assert ControlViews([c]) == [ControlView(c)] && ControlViews([b]) == [ControlView(b)];
  }

  lemma {:induction false} CellsNext(done: seq<HControl>, before: seq<HControl>, c: HControl, b: HControl,
                                     created: set<object>, added: set<object>)
    requires ControlsCells(done) <= ControlsCells(before) + created
    requires ControlCells(c) <= ControlCells(b) + added
    ensures ControlsCells(done + [c]) <= ControlsCells(before + [b]) + (created + added)
  {
    hide ControlCells;
    forall o | o in ControlsCells(done + [c])
      ensures o in ControlsCells(before + [b]) + (created + added)
    {
      var x :| x in done + [c] && o in ControlCells(x);
      if x in done {
        assert o in ControlsCells(done);
        if o !in created {
          CellsOf(before, [b], o);
        }
      } else {
        assert b in before + [b];
      }
    }
  }

  lemma {:induction false} CellsOf(xs: seq<HControl>, ys: seq<HControl>, o: object)
    requires o in ControlsCells(xs)
    ensures o in ControlsCells(xs + ys)
  {
    var c :| c in xs && o in ControlCells(c);
    assert c in xs + ys;
  }

  lemma {:induction false} ModifyNothingYet(mods: seq<Modifier>)
    ensures ModifyControls(ControlViews([]), mods) == []
  {
  }
}
