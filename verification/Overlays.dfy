/** Policy overlays as functions on values: exclusions, and the assessment-requirement modifiers a
    policy import lists, with the laws they obey. */
module Overlays {
  import opened Gemara
  import opened Sequences

  function Spare<T>(item: T, id: T -> string, excluded: set<string>): seq<T> {
    if id(item) in excluded then [] else [item]
  }

  /** The items whose id is not excluded, in order. */
  function Exclude<T>(items: seq<T>, id: T -> string, excluded: set<string>): seq<T> {
    if items == [] then []
    else Spare(items[0], id, excluded) + Exclude(items[1..], id, excluded)
  }

  /** The modifiers that name `target`, in order. */
  function Targeting(mods: seq<Modifier>, target: string): seq<Modifier> {
    if mods == [] then []
    else (if mods[0].targetId == target then [mods[0]] else []) + Targeting(mods[1..], target)
  }

  predicate Merges(m: Modifier) { m.modification in {Replace, Override, Modify} }

  /** Non-empty fields of the modifier win; id, state and replacement are kept. */
  function Merge(r: Requirement, m: Modifier): Requirement {
    r.(text := if m.text != "" then m.text else r.text,
       applicability := if m.applicability != [] then m.applicability else r.applicability,
       recommendation := if m.recommendation != "" then m.recommendation else r.recommendation)
  }

  function Added(m: Modifier): Requirement {
    Requirement(m.id, m.text, m.applicability, m.recommendation, Active, None)
  }

  // ----- the rewriting pass -----

  /** Where the pass stands: entries already emitted, the requirement in hand, and whether some
      modifier asked for removal. */
  datatype Rewriting = Rewriting(emitted: seq<Requirement>, current: Requirement, removed: bool)

  function Step(w: Rewriting, m: Modifier): Rewriting {
    match m.modification
    case Remove => w.(removed := true)
    case Add => w.(emitted := w.emitted + [w.current], current := Added(m))
    case Unrecognised => w
    case _ => w.(current := Merge(w.current, m))
  }

  function Rewrite(w: Rewriting, mods: seq<Modifier>): Rewriting
    decreases |mods|
  {
    if mods == [] then w else Rewrite(Step(w, mods[0]), mods[1..])
  }

  function Emit(w: Rewriting): seq<Requirement> {
    if w.removed then w.emitted else w.emitted + [w.current]
  }

  /** What one requirement becomes under the modifiers that name it. */
  function Outcome(r: Requirement, mods: seq<Modifier>): seq<Requirement> {
    Emit(Rewrite(Rewriting([], r, false), Targeting(mods, r.id)))
  }

  function ModifyRequirements(rs: seq<Requirement>, mods: seq<Modifier>): seq<Requirement> {
    if rs == [] then [] else Outcome(rs[0], mods) + ModifyRequirements(rs[1..], mods)
  }

  function ModifyControl(c: Control, mods: seq<Modifier>): Control {
    c.(requirements := ModifyRequirements(c.requirements, mods))
  }

  function ModifyControls(cs: seq<Control>, mods: seq<Modifier>): (r: seq<Control>)
    ensures |r| == |cs|
    ensures forall i :: 0 <= i < |cs| ==> r[i] == ModifyControl(cs[i], mods)
  {
    if cs == [] then [] else [ModifyControl(cs[0], mods)] + ModifyControls(cs[1..], mods)
  }

  lemma {:induction false} RewriteAppend(w: Rewriting, mods: seq<Modifier>, m: Modifier)
    ensures Rewrite(w, mods + [m]) == Step(Rewrite(w, mods), m)
    decreases |mods|
  {
    if mods == [] {
      assert mods + [m] == [m];
      assert Rewrite(w, [m]) == Rewrite(Step(w, m), []);
    } else {
      RewriteAppend(Step(w, mods[0]), mods[1..], m);
      assert (mods + [m])[1..] == mods[1..] + [m];
    }
  }

  lemma {:induction false} TargetingAppend(mods: seq<Modifier>, m: Modifier, target: string)
    ensures Targeting(mods + [m], target) == Targeting(mods, target) + if m.targetId == target then [m] else []
  {
    if mods == [] {
      assert mods + [m] == [m] && [m][1..] == [];
    } else {
      var first := if mods[0].targetId == target then [mods[0]] else [];
      var last := if m.targetId == target then [m] else [];
      calc {
        Targeting(mods + [m], target);
        { assert (mods + [m])[1..] == mods[1..] + [m]; }
        first + Targeting(mods[1..] + [m], target);
        { TargetingAppend(mods[1..], m, target); }
        first + (Targeting(mods[1..], target) + last);
        Targeting(mods, target) + last;
      }
    }
  }

  // ----- what the pass means -----

  function MergeAll(r: Requirement, mods: seq<Modifier>): Requirement
    decreases |mods|
  {
    if mods == [] then r
    else MergeAll(if Merges(mods[0]) then Merge(r, mods[0]) else r, mods[1..])
  }

  /** The versions the modifiers produce, reading the list as stretches separated by Add: the
      requirement merged with the first stretch, then each added one merged with its own. */
  function Versions(r: Requirement, mods: seq<Modifier>): seq<Requirement>
    decreases |mods|
  {
    match FirstAdd(mods)
    case None => [MergeAll(r, mods)]
    case Some(k) => [MergeAll(r, mods[..k])] + Versions(Added(mods[k]), mods[k + 1..])
  }

  function FirstAdd(mods: seq<Modifier>): (k: Option<nat>)
    ensures k.Some? ==> k.value < |mods| && mods[k.value].modification == Add
    ensures forall j :: 0 <= j < (if k.Some? then k.value else |mods|) ==> mods[j].modification != Add
  {
    if mods == [] then None
    else if mods[0].modification == Add then Some(0)
    else match FirstAdd(mods[1..]) case None => None case Some(k) => Some(k + 1)
  }

  predicate Removes(mods: seq<Modifier>) { exists m <- mods :: m.modification == Remove }

  function Adds(mods: seq<Modifier>): nat {
    if mods == [] then 0 else (if mods[0].modification == Add then 1 else 0) + Adds(mods[1..])
  }

  lemma {:induction false} RewriteIsVersions(w: Rewriting, mods: seq<Modifier>)
    ensures var v := Rewrite(w, mods); v.emitted + [v.current] == w.emitted + Versions(w.current, mods)
    decreases |mods|
  {
    hide Versions, MergeAll, Merge, Added;
    if mods == [] {
      assert Versions(w.current, []) == [w.current] by { NoModifiers(w.current); }
    } else {
      var v, m, next := Rewrite(w, mods), mods[0], Step(w, mods[0]);
      RewriteIsVersions(next, mods[1..]);
      VersionsStep(w.current, mods);
      if m.modification == Add {
        calc {
          v.emitted + [v.current];
          (w.emitted + [w.current]) + Versions(Added(m), mods[1..]);
          w.emitted + ([w.current] + Versions(Added(m), mods[1..]));
          w.emitted + Versions(w.current, mods);
        }
      }
    }
  }

  lemma {:induction false} NoModifiers(r: Requirement)
    ensures Versions(r, []) == [r]
  {
  }

  lemma {:induction false} RewriteRemoves(w: Rewriting, mods: seq<Modifier>)
    ensures Rewrite(w, mods).removed == (w.removed || Removes(mods))
    decreases |mods|
  {
    if mods != [] {
      hide Removes;
      RewriteRemoves(Step(w, mods[0]), mods[1..]);
      RemovesStep(mods);
    }
  }

  lemma {:induction false} RemovesStep(mods: seq<Modifier>)
    requires mods != []
    ensures Removes(mods) == (mods[0].modification == Remove || Removes(mods[1..]))
  {
    assert forall m :: m in mods <==> m == mods[0] || m in mods[1..];
  }

  lemma {:induction false} VersionsStep(r: Requirement, mods: seq<Modifier>)
    requires mods != []
    ensures Versions(r, mods) ==
            if mods[0].modification == Add then [r] + Versions(Added(mods[0]), mods[1..])
            else Versions(if Merges(mods[0]) then Merge(r, mods[0]) else r, mods[1..])
  {
    var k := FirstAdd(mods);
    if mods[0].modification == Add {
      assert mods[..0] == [];
    } else if k.Some? {
      var n := k.value;
      assert FirstAdd(mods[1..]) == Some(n - 1);
      assert mods[..n][1..] == mods[1..][..n - 1];
      assert mods[n + 1..] == mods[1..][n..];
    }
  }

  lemma {:induction false} VersionsCount(r: Requirement, mods: seq<Modifier>)
    ensures |Versions(r, mods)| == Adds(mods) + 1
    decreases |mods|
  {
    if mods != [] {
      VersionsStep(r, mods);
      var m := mods[0];
      VersionsCount(if m.modification == Add then Added(m) else if Merges(m) then Merge(r, m) else r, mods[1..]);
    }
  }

  /** A targeted requirement becomes its versions, less the last one if some modifier removes: its
      Add count plus one, or just its Add count. An untargeted one stays as it is. */
  lemma {:induction false} OutcomeIsVersions(r: Requirement, mods: seq<Modifier>)
    ensures var hits := Targeting(mods, r.id);
            var versions := Versions(r, hits);
            && Outcome(r, mods) == (if Removes(hits) then versions[..|versions| - 1] else versions)
            && |Outcome(r, mods)| == Adds(hits) + (if Removes(hits) then 0 else 1)
            && (hits == [] ==> Outcome(r, mods) == [r])
  {
    hide Versions, Rewrite, Removes, Targeting;
    var hits := Targeting(mods, r.id);
    UntargetedIsKept(r);
    RewriteIsVersions(Rewriting([], r, false), hits);
    RewriteRemoves(Rewriting([], r, false), hits);
    VersionsCount(r, hits);
    var v := Rewrite(Rewriting([], r, false), hits);
    assert v.emitted + [v.current] == Versions(r, hits);
  }

  lemma {:induction false} UntargetedIsKept(r: Requirement)
    ensures Emit(Rewrite(Rewriting([], r, false), [])) == [r]
  {
  }

  /** A Remove leaves nothing of a requirement exactly when no Add goes with it. */
  lemma {:induction false} RemovedIff(r: Requirement, mods: seq<Modifier>)
    requires Removes(Targeting(mods, r.id))
    ensures Outcome(r, mods) == [] <==> Adds(Targeting(mods, r.id)) == 0
  {
    hide Outcome, Removes, Targeting, Adds;
    OutcomeIsVersions(r, mods);
  }

  /** Beside one Add, before or after it, a Remove keeps the requirement itself and drops the added one. */
  lemma {:induction false} RemoveBesideAdd(r: Requirement, remove: Modifier, add: Modifier)
    requires remove.modification == Remove && add.modification == Add && remove.targetId == add.targetId == r.id
    ensures Outcome(r, [remove, add]) == [r] && Outcome(r, [add, remove]) == [r]
  {
    TwoModifiers(r, remove, add);
    TwoModifiers(r, add, remove);
  }

  lemma {:induction false} TwoModifiers(r: Requirement, m: Modifier, n: Modifier)
    requires m.targetId == n.targetId == r.id
    ensures Outcome(r, [m, n]) == Emit(Step(Step(Rewriting([], r, false), m), n))
  {
    hide Step, Emit;
    assert [m, n][1..] == [n] && [n][1..] == [];
    assert Targeting([n], r.id) == [n] && [m] + [n] == [m, n];
    var w := Rewriting([], r, false);
    assert Rewrite(Step(w, m), [n]) == Step(Step(w, m), n);
  }

  /** Every requirement of the result comes from one requirement of the source, in source order. */
  lemma {:induction false} ModifyIsConcatenation(rs: seq<Requirement>, mods: seq<Modifier>)
    ensures ModifyRequirements(rs, mods) == Flatten(seq(|rs|, i requires 0 <= i < |rs| => Outcome(rs[i], mods)))
  {
    if rs != [] {
      ModifyIsConcatenation(rs[1..], mods);
      var parts := seq(|rs|, i requires 0 <= i < |rs| => Outcome(rs[i], mods));
      assert parts[1..] == seq(|rs| - 1, i requires 0 <= i < |rs| - 1 => Outcome(rs[1..][i], mods));
    }
  }

  /** `m` is the last merging modifier that sets the field tested by `sets`. */
  ghost predicate LastSetter(mods: seq<Modifier>, i: nat, sets: Modifier -> bool) {
    && i < |mods| && Merges(mods[i]) && sets(mods[i])
    && forall j :: i < j < |mods| ==> !(Merges(mods[j]) && sets(mods[j]))
  }

  ghost predicate NoSetter(mods: seq<Modifier>, sets: Modifier -> bool) {
    forall m <- mods :: !(Merges(m) && sets(m))
  }

  function SetsText(m: Modifier): bool { m.text != "" }
  function SetsApplicability(m: Modifier): bool { m.applicability != [] }
  function SetsRecommendation(m: Modifier): bool { m.recommendation != "" }

  /** Later non-empty fields win, field by field; identity and state never change. */
  lemma {:induction false} LaterFieldsWin(r: Requirement, mods: seq<Modifier>)
    ensures var v := MergeAll(r, mods);
            && v == r.(text := v.text, applicability := v.applicability, recommendation := v.recommendation)
            && (forall i: nat :: LastSetter(mods, i, SetsText) ==> v.text == mods[i].text)
            && (NoSetter(mods, SetsText) ==> v.text == r.text)
            && (forall i: nat :: LastSetter(mods, i, SetsApplicability) ==> v.applicability == mods[i].applicability)
            && (NoSetter(mods, SetsApplicability) ==> v.applicability == r.applicability)
            && (forall i: nat :: LastSetter(mods, i, SetsRecommendation) ==> v.recommendation == mods[i].recommendation)
            && (NoSetter(mods, SetsRecommendation) ==> v.recommendation == r.recommendation)
    decreases |mods|
  {
    if mods != [] {
      var next := if Merges(mods[0]) then Merge(r, mods[0]) else r;
      LaterFieldsWin(next, mods[1..]);
      LastSetterTail(mods, SetsText);
      LastSetterTail(mods, SetsApplicability);
      LastSetterTail(mods, SetsRecommendation);
    }
  }

  lemma {:induction false} LastSetterTail(mods: seq<Modifier>, sets: Modifier -> bool)
    requires mods != []
    ensures forall i: nat :: LastSetter(mods, i, sets) ==>
              if i == 0 then NoSetter(mods[1..], sets)
              else LastSetter(mods[1..], i - 1, sets) && mods[1..][i - 1] == mods[i]
    ensures NoSetter(mods, sets) ==> NoSetter(mods[1..], sets) && !(Merges(mods[0]) && sets(mods[0]))
  {
    assert mods[0] in mods;
  }

  // ----- nothing to do, one more to do -----

  lemma {:induction false} ModifyOne(r: Requirement, mods: seq<Modifier>)
    ensures ModifyRequirements([r], mods) == Outcome(r, mods)
    ensures Targeting(mods, r.id) == [] ==> Outcome(r, mods) == [r]
  {
    assert [r][1..] == [];
  }

  lemma {:induction false} ModifyControlsAppend(cs: seq<Control>, c: Control, mods: seq<Modifier>)
    ensures ModifyControls(cs + [c], mods) == ModifyControls(cs, mods) + [ModifyControl(c, mods)]
  {
  }

  lemma {:induction false} ModifyNothing(cs: seq<Control>)
    ensures ModifyControls(cs, []) == cs
  {
    if cs != [] {
      ModifyNothing(cs[1..]);
      KeepRequirements(cs[0].requirements);
    }
  }

  lemma {:induction false} KeepRequirements(rs: seq<Requirement>)
    ensures ModifyRequirements(rs, []) == rs
  {
    if rs != [] {
      KeepRequirements(rs[1..]);
      ModifyOne(rs[0], []);
    }
  }

  lemma {:induction false} ExcludeNothing<T>(items: seq<T>, id: T -> string)
    ensures Exclude(items, id, {}) == items
  {
    if items != [] {
      ExcludeNothing(items[1..], id);
    }
  }

  // ----- algebra -----

  lemma {:induction false} ExcludeAppend<T>(xs: seq<T>, ys: seq<T>, id: T -> string, excluded: set<string>)
    ensures Exclude(xs + ys, id, excluded) == Exclude(xs, id, excluded) + Exclude(ys, id, excluded)
  {
    if xs == [] {
      assert xs + ys == ys;
    } else {
      calc {
        Exclude(xs + ys, id, excluded);
        { assert (xs + ys)[1..] == xs[1..] + ys; }
        Spare(xs[0], id, excluded) + Exclude(xs[1..] + ys, id, excluded);
        { ExcludeAppend(xs[1..], ys, id, excluded); }
        Spare(xs[0], id, excluded) + (Exclude(xs[1..], id, excluded) + Exclude(ys, id, excluded));
        Exclude(xs, id, excluded) + Exclude(ys, id, excluded);
      }
    }
  }

  /** Excluding controls and modifying requirements commute. */
  lemma {:induction false} ExclusionsCommute(cs: seq<Control>, excluded: set<string>, mods: seq<Modifier>)
    ensures ModifyControls(Exclude(cs, ControlId, excluded), mods) ==
        Exclude(ModifyControls(cs, mods), ControlId, excluded)
  {
    if cs != [] {
      ExclusionsCommute(cs[1..], excluded, mods);
      var c := cs[0];
      assert ModifyControls(cs, mods)[0] == ModifyControl(c, mods);
      assert ModifyControls(cs, mods)[1..] == ModifyControls(cs[1..], mods);
      if c.id !in excluded {
        var kept := [c] + Exclude(cs[1..], ControlId, excluded);
        assert Exclude(cs, ControlId, excluded) == kept;
        assert kept[1..] == Exclude(cs[1..], ControlId, excluded);
      }
    }
  }

  /** Re-applying a stretch of merges changes nothing. */
  lemma {:induction false} MergeAllIdempotent(r: Requirement, mods: seq<Modifier>)
    ensures MergeAll(MergeAll(r, mods), mods) == MergeAll(r, mods)
  {
    var once := MergeAll(r, mods);
    LaterFieldsWin(r, mods);
    LaterFieldsWin(once, mods);
    SetterOrNone(mods, SetsText);
    SetterOrNone(mods, SetsApplicability);
    SetterOrNone(mods, SetsRecommendation);
  }

  lemma {:induction false} SetterOrNone(mods: seq<Modifier>, sets: Modifier -> bool)
    ensures NoSetter(mods, sets) || exists i: nat :: LastSetter(mods, i, sets)
  {
    if mods != [] {
      var last := |mods| - 1;
      if Merges(mods[last]) && sets(mods[last]) {
        assert LastSetter(mods, last, sets);
      } else {
        SetterOrNone(mods[..last], sets);
        if i: nat :| LastSetter(mods[..last], i, sets) {
          assert LastSetter(mods, i, sets);
        } else {
          assert mods == mods[..last] + [mods[last]];
        }
      }
    }
  }

  ghost predicate NeverAdds(mods: seq<Modifier>) { forall m <- mods :: m.modification != Add }

  lemma {:induction false} TargetingSubset(mods: seq<Modifier>, target: string)
    ensures forall m <- Targeting(mods, target) :: m in mods && m.targetId == target
  {
    if mods != [] {
      TargetingSubset(mods[1..], target);
    }
  }

  /** Without Add a requirement survives as at most one version, which the same list then keeps. */
  lemma {:induction false} OutcomeSettles(r: Requirement, mods: seq<Modifier>)
    requires NeverAdds(mods)
    ensures ModifyRequirements(Outcome(r, mods), mods) == Outcome(r, mods)
  {
    var hits := Targeting(mods, r.id);
    TargetingSubset(mods, r.id);
    OutcomeIsVersions(r, mods);
    assert FirstAdd(hits) == None;
    if !Removes(hits) {
      var v := MergeAll(r, hits);
      assert Outcome(r, mods) == [v];
      LaterFieldsWin(r, hits);
      assert v.id == r.id;
      OutcomeIsVersions(v, mods);
      MergeAllIdempotent(r, hits);
      assert Outcome(v, mods) == [v];
      assert [v][1..] == [];
    }
  }

  lemma {:induction false} ModifyAppend(xs: seq<Requirement>, ys: seq<Requirement>, mods: seq<Modifier>)
    ensures ModifyRequirements(xs + ys, mods) == ModifyRequirements(xs, mods) + ModifyRequirements(ys, mods)
  {
    if xs == [] {
      assert xs + ys == ys;
    } else {
      hide Outcome;
      calc {
        ModifyRequirements(xs + ys, mods);
        { assert (xs + ys)[1..] == xs[1..] + ys; }
        Outcome(xs[0], mods) + ModifyRequirements(xs[1..] + ys, mods);
        { ModifyAppend(xs[1..], ys, mods); }
        Outcome(xs[0], mods) + (ModifyRequirements(xs[1..], mods) + ModifyRequirements(ys, mods));
        ModifyRequirements(xs, mods) + ModifyRequirements(ys, mods);
      }
    }
  }

  lemma {:induction false} RequirementsSettle(rs: seq<Requirement>, mods: seq<Modifier>)
    requires NeverAdds(mods)
    ensures ModifyRequirements(ModifyRequirements(rs, mods), mods) == ModifyRequirements(rs, mods)
  {
    if rs != [] {
      OutcomeSettles(rs[0], mods);
      RequirementsSettle(rs[1..], mods);
      ModifyAppend(Outcome(rs[0], mods), ModifyRequirements(rs[1..], mods), mods);
    }
  }

  /** Without Add modifiers, applying the list twice equals applying it once. */
  lemma {:induction false} ModifyIdempotent(cs: seq<Control>, mods: seq<Modifier>)
    requires NeverAdds(mods)
    ensures ModifyControls(ModifyControls(cs, mods), mods) == ModifyControls(cs, mods)
  {
    forall i | 0 <= i < |cs|
      ensures ModifyControl(ModifyControl(cs[i], mods), mods) == ModifyControl(cs[i], mods)
    {
      RequirementsSettle(cs[i].requirements, mods);
    }
  }
}
