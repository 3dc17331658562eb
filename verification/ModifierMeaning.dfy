/** What a list of modifiers makes of a requirement, told from the modifiers' own fields. */
module ModifierMeaning {
  import opened Filters
  import opened Gemara
  import opened Overlays
  import opened Sequences

  lemma {:induction false} TargetingIsFilter(mods: seq<Modifier>, target: string)
    ensures IsFilter(Targeting(mods, target), mods, (m: Modifier) => m.targetId == target)
  {
    hide IsFilter;
    var hit := (m: Modifier) => m.targetId == target;
    if mods == [] {
      FilterNone(hit);
    } else {
      TargetingIsFilter(mods[1..], target);
      FilterCons(mods[0], Targeting(mods[1..], target), mods[1..], hit);
      assert mods == [mods[0]] + mods[1..];
      assert Targeting(mods, target) ==
        if hit(mods[0]) then [mods[0]] + Targeting(mods[1..], target) else Targeting(mods[1..], target);
    }
  }

  // ----- one version -----

  /** A replacing, overriding or modifying modifier whose field is not blank. */
  ghost predicate Sets<T>(m: Modifier, field: Modifier -> T, blank: T) {
    (m.modification == Replace || m.modification == Override || m.modification == Modify) && field(m) != blank
  }

  ghost predicate SetsLast<T>(stretch: seq<Modifier>, i: nat, field: Modifier -> T, blank: T) {
    i < |stretch| && Sets(stretch[i], field, blank) && forall j :: i < j < |stretch| ==> !Sets(stretch[j], field, blank)
  }

  /** The last modifier of the stretch that sets the field decides it; if none does, it is kept. */
  ghost predicate Decided<T>(value: T, kept: T, stretch: seq<Modifier>, field: Modifier -> T, blank: T) {
    && (forall i: nat :: SetsLast(stretch, i, field, blank) ==> value == field(stretch[i]))
    && ((forall m <- stretch :: !Sets(m, field, blank)) ==> value == kept)
  }

  /** A version: its base with the stretch's text, applicability and recommendation merged in. */
  ghost predicate IsVersion(v: Requirement, base: Requirement, stretch: seq<Modifier>) {
    && v.id == base.id && v.state == base.state && v.replacedBy == base.replacedBy
    && Decided(v.text, base.text, stretch, (m: Modifier) => m.text, "")
    && Decided(v.applicability, base.applicability, stretch, (m: Modifier) => m.applicability, [])
    && Decided(v.recommendation, base.recommendation, stretch, (m: Modifier) => m.recommendation, "")
  }

  lemma {:induction false} DecidedByLast<T>(value: T, kept: T, mods: seq<Modifier>, sets: Modifier -> bool,
                                                field: Modifier -> T, blank: T)
    requires forall m :: Merges(m) && sets(m) <==> Sets(m, field, blank)
    requires forall i: nat :: LastSetter(mods, i, sets) ==> value == field(mods[i])
    requires NoSetter(mods, sets) ==> value == kept
    ensures Decided(value, kept, mods, field, blank)
  {
    hide Sets, Merges;
    forall i: nat | SetsLast(mods, i, field, blank)
      ensures value == field(mods[i])
    {
      assert LastSetter(mods, i, sets);
    }
  }

  lemma {:induction false} MergeAllIsVersion(r: Requirement, mods: seq<Modifier>)
    ensures IsVersion(MergeAll(r, mods), r, mods)
  {
    hide MergeAll, LastSetter, NoSetter, Decided;
    LaterFieldsWin(r, mods);
    var v := MergeAll(r, mods);
    DecidedByLast(v.text, r.text, mods, SetsText, (m: Modifier) => m.text, "");
    DecidedByLast(v.applicability, r.applicability, mods, SetsApplicability, (m: Modifier) => m.applicability, []);
    DecidedByLast(v.recommendation, r.recommendation, mods, SetsRecommendation, (m: Modifier) => m.recommendation, "");
  }

  // ----- all versions -----

  /** The modifiers from position `from` up to position `to`. */
  function Stretch(hits: seq<Modifier>, from: nat, to: nat): seq<Modifier> {
    if from <= to <= |hits| then hits[from..to] else []
  }

  /** Version `v` starts from the requirement, or from what the Add before its stretch adds: the Add's own
      fields, active, replaced by nothing. It merges its stretch, up to the next Add or the end. */
  ghost predicate IsVersionAt(version: Requirement, v: nat, r: Requirement, hits: seq<Modifier>, adds: seq<nat>)
    requires v <= |adds|
  {
    var end := if v < |adds| then adds[v] else |hits|;
    if v == 0 then IsVersion(version, r, Stretch(hits, 0, end))
    else
      && adds[v - 1] < |hits|
      && var m := hits[adds[v - 1]];
         var added := Requirement(m.id, m.text, m.applicability, m.recommendation, Active, None);
         IsVersion(version, added, Stretch(hits, adds[v - 1] + 1, end))
  }

  ghost predicate AreVersions(versions: seq<Requirement>, r: Requirement, hits: seq<Modifier>, adds: seq<nat>) {
    |versions| == |adds| + 1 && forall v :: 0 <= v < |versions| ==> IsVersionAt(versions[v], v, r, hits, adds)
  }

  function Behind(k: nat, adds: seq<nat>): (r: seq<nat>)
    ensures |r| == |adds| + 1 && r[0] == k && forall i :: 0 <= i < |adds| ==> r[i + 1] == adds[i] + k + 1
  {
    [k] + seq(|adds|, i requires 0 <= i < |adds| => adds[i] + k + 1)
  }

  lemma {:induction false} VersionsBehind(r: Requirement, hits: seq<Modifier>, k: nat, rest: seq<Requirement>,
                                          adds: seq<nat>, first: Requirement)
    requires k < |hits| && IsVersion(first, r, hits[..k])
    requires AreVersions(rest, Added(hits[k]), hits[k + 1..], adds)
    ensures AreVersions([first] + rest, r, hits, Behind(k, adds))
  {
    hide IsVersionAt, IsVersion;
    var versions, all := [first] + rest, Behind(k, adds);
    FirstBehind(first, r, hits, k, adds);
    forall v | 0 <= v < |versions|
      ensures IsVersionAt(versions[v], v, r, hits, all)
    {
      if v > 0 {
        assert versions[v] == rest[v - 1] && IsVersionAt(rest[v - 1], v - 1, Added(hits[k]), hits[k + 1..], adds);
        LaterBehind(versions[v], v, r, hits, k, adds);
      }
    }
  }

  lemma {:induction false} FirstBehind(first: Requirement, r: Requirement, hits: seq<Modifier>, k: nat, adds: seq<nat>)
    requires k < |hits| && IsVersion(first, r, hits[..k])
    ensures IsVersionAt(first, 0, r, hits, Behind(k, adds))
  {
    hide IsVersion;
    assert hits[0..k] == hits[..k];
  }

  lemma {:induction false} StretchBehind(hits: seq<Modifier>, k: nat, from: nat, to: nat)
    requires k < |hits|
    ensures Stretch(hits[k + 1..], from, to) == Stretch(hits, from + k + 1, to + k + 1)
  {
  }

  /** Version `v` of the whole list is version `v - 1` of what lies behind its first Add. */
  lemma {:induction false} LaterBehind(version: Requirement, v: nat, r: Requirement, hits: seq<Modifier>, k: nat,
                                       adds: seq<nat>)
    requires k < |hits| && 1 <= v <= |adds| + 1
    requires IsVersionAt(version, v - 1, Added(hits[k]), hits[k + 1..], adds)
    ensures IsVersionAt(version, v, r, hits, Behind(k, adds))
  {
    hide IsVersion, Stretch;
    var tail, all := hits[k + 1..], Behind(k, adds);
    var end := if v - 1 < |adds| then adds[v - 1] else |tail|;
    StretchBehind(hits, k, if v == 1 then 0 else adds[v - 2] + 1, end);
    assert v > 1 ==> all[v - 1] == adds[v - 2] + k + 1;
    assert v <= |adds| ==> all[v] == adds[v - 1] + k + 1;
  }

  lemma {:induction false} ChosenBehind(hits: seq<Modifier>, k: nat, adds: seq<nat>)
    requires k < |hits| && hits[k].modification == Add
    requires forall j :: 0 <= j < k ==> hits[j].modification != Add
    requires Chosen(adds, hits[k + 1..], (m: Modifier) => m.modification == Add)
    ensures Chosen(Behind(k, adds), hits, (m: Modifier) => m.modification == Add)
  {
    var tail, all := hits[k + 1..], Behind(k, adds);
    forall i: nat
      ensures i in all <==> i < |hits| && hits[i].modification == Add
    {
      if i > k && i < |hits| && hits[i].modification == Add {
        assert tail[i - k - 1] == hits[i];
        var j :| 0 <= j < |adds| && adds[j] == i - k - 1;
        assert all[j + 1] == i;
      }
      if i in all && i != k {
        var j :| 0 <= j < |all| && all[j] == i;
        assert adds[j - 1] in adds && tail[adds[j - 1]] == hits[i];
      }
    }
  }

  lemma {:induction false} IncreasingBehind(k: nat, adds: seq<nat>)
    requires Increasing(adds)
    ensures Increasing(Behind(k, adds))
  {
    var all := Behind(k, adds);
    assert forall i :: 0 < i < |all| ==> all[i] == adds[i - 1] + k + 1;
  }

  lemma {:induction false} VersionsAre(r: Requirement, hits: seq<Modifier>) returns (adds: seq<nat>)
    ensures Increasing(adds) && Chosen(adds, hits, (m: Modifier) => m.modification == Add)
    ensures AreVersions(Versions(r, hits), r, hits, adds)
    decreases |hits|
  {
    hide IsVersion, Increasing, Chosen, AreVersions;
    match FirstAdd(hits)
    case None =>
      adds := [];
      OneVersion(r, hits);
    case Some(k) =>
      var rest := VersionsAre(Added(hits[k]), hits[k + 1..]);
      adds := Behind(k, rest);
      MergeAllIsVersion(r, hits[..k]);
      VersionsBehind(r, hits, k, Versions(Added(hits[k]), hits[k + 1..]), rest, MergeAll(r, hits[..k]));
      ChosenBehind(hits, k, rest);
      IncreasingBehind(k, rest);
  }

  lemma {:induction false} OneVersion(r: Requirement, hits: seq<Modifier>)
    requires forall j :: 0 <= j < |hits| ==> hits[j].modification != Add
    ensures Increasing([]) && Chosen([], hits, (m: Modifier) => m.modification == Add)
    ensures AreVersions([MergeAll(r, hits)], r, hits, [])
  {
    hide IsVersion;
    MergeAllIsVersion(r, hits);
    assert hits[0..|hits|] == hits;
  }

  // ----- the outcome -----

  /** What a requirement becomes, from the modifier list alone. */
  ghost predicate Becomes(r: Requirement, mods: seq<Modifier>, hits: seq<Modifier>, adds: seq<nat>,
                          versions: seq<Requirement>, outcome: seq<Requirement>) {
    && IsFilter(hits, mods, (m: Modifier) => m.targetId == r.id)
    && Increasing(adds) && Chosen(adds, hits, (m: Modifier) => m.modification == Add)
    && AreVersions(versions, r, hits, adds)
    && outcome == if exists m <- hits :: m.modification == Remove then versions[..|adds|] else versions
  }

  /** The modifiers that name the requirement, in order, cut at their Adds into stretches: one version
      per stretch, and a Remove anywhere among them takes away the last. */
  lemma {:induction false} OutcomeIs(r: Requirement, mods: seq<Modifier>)
    ensures exists hits, adds, versions :: Becomes(r, mods, hits, adds, versions, Outcome(r, mods))
  {
    hide IsFilter, Targeting, Versions, Outcome, AreVersions, Increasing, Chosen;
    var hits := Targeting(mods, r.id);
    TargetingIsFilter(mods, r.id);
    OutcomeIsVersions(r, mods);
    var adds := VersionsAre(r, hits);
    VersionsCounted(r, hits, adds);
    assert Becomes(r, mods, hits, adds, Versions(r, hits), Outcome(r, mods));
  }

  lemma {:induction false} VersionsCounted(r: Requirement, hits: seq<Modifier>, adds: seq<nat>)
    requires AreVersions(Versions(r, hits), r, hits, adds)
    ensures |Versions(r, hits)| == |adds| + 1
  {
  }

  /** The Add modifiers that name the target. */
  function Adding(mods: seq<Modifier>, target: string): seq<Modifier> {
    if mods == [] then []
    else
      var rest := Adding(mods[1..], target);
      if mods[0].targetId == target && mods[0].modification == Add then [mods[0]] + rest else rest
  }

  lemma {:induction false} AddingIsFilter(mods: seq<Modifier>, target: string)
    ensures IsFilter(Adding(mods, target), mods, (m: Modifier) => m.targetId == target && m.modification == Add)
  {
    hide IsFilter;
    var adds := (m: Modifier) => m.targetId == target && m.modification == Add;
    if mods == [] {
      FilterNone(adds);
    } else {
      AddingIsFilter(mods[1..], target);
      FilterCons(mods[0], Adding(mods[1..], target), mods[1..], adds);
      assert mods == [mods[0]] + mods[1..];
    }
  }

  lemma {:induction false} VersionIds(r: Requirement, mods: seq<Modifier>, target: string)
    ensures Images(Versions(r, Targeting(mods, target)), (x: Requirement) => x.id) ==
              [r.id] + Images(Adding(mods, target), (m: Modifier) => m.id)
    decreases |mods|
  {
    hide Versions;
    var hits := Targeting(mods, target);
    if mods == [] {
      NoModifiers(r);
    } else if mods[0].targetId != target {
      assert hits == Targeting(mods[1..], target);
      VersionIds(r, mods[1..], target);
    } else {
      assert hits[0] == mods[0] && hits[1..] == Targeting(mods[1..], target);
      VersionsStep(r, hits);
      var m := mods[0];
      VersionIds(if m.modification == Add then Added(m) else if Merges(m) then Merge(r, m) else r, mods[1..], target);
      if m.modification == Add {
        var later := Versions(Added(m), hits[1..]);
        assert Images([r] + later, (x: Requirement) => x.id) == [r.id] + Images(later, (x: Requirement) => x.id);
      }
    }
  }

  /** The ids: the requirement's own, then those of the Add modifiers that name it, in order; under a
      Remove that names it, without the last. */
  lemma {:induction false} OutcomeIds(r: Requirement, mods: seq<Modifier>) returns (adding: seq<Modifier>)
    ensures IsFilter(adding, mods, (m: Modifier) => m.targetId == r.id && m.modification == Add)
    ensures var ids := [r.id] + Images(adding, (m: Modifier) => m.id);
            var removed := exists m <- mods :: m.targetId == r.id && m.modification == Remove;
            Images(Outcome(r, mods), (x: Requirement) => x.id) == if removed then ids[..|adding|] else ids
  {
    hide IsFilter, Targeting, Versions, Outcome, Adding;
    adding := Adding(mods, r.id);
    AddingIsFilter(mods, r.id);
    VersionIds(r, mods, r.id);
    OutcomeIsVersions(r, mods);
    TargetingIsFilter(mods, r.id);
    FilterHolds(Targeting(mods, r.id), mods, (m: Modifier) => m.targetId == r.id);
  }
}
