/** What the assessment views return, told from the controls, the plans and the request alone. */
module AssessmentMeaning {
  import opened Assessment
  import opened Filters
  import opened Gemara
  import opened PolicyIndex
  import opened Sequences

  // ----- requirements in scope -----

  /** No scope, or a value shared with it. */
  ghost predicate Meets(r: Requirement, scope: seq<string>) { scope == [] || exists a <- r.applicability :: a in scope }

  lemma {:induction false} ScopedIsFilter(rs: seq<Requirement>, scope: seq<string>)
    ensures IsFilter(Scoped(rs, scope), rs, (r: Requirement) => Meets(r, scope))
  {
    hide IsFilter;
    var meets := (r: Requirement) => Meets(r, scope);
    if rs == [] {
      FilterNone(meets);
    } else {
      ScopedIsFilter(rs[1..], scope);
      FilterCons(rs[0], Scoped(rs[1..], scope), rs[1..], meets);
      assert rs == [rs[0]] + rs[1..];
    }
  }

  lemma {:induction false} ReachedIs(controls: seq<Control>, ids: seq<string>, scope: seq<string>)
    ensures Reached(controls, ids, scope) ==
              Flatten(Images(ids, (id: string) =>
                Images(Scoped(RequirementsOf(controls, id), scope), (r: Requirement) => (id, r))))
  {
    hide Scoped, RequirementsOf;
    var tagged := (id: string) => Images(Scoped(RequirementsOf(controls, id), scope), (r: Requirement) => (id, r));
    if ids != [] {
      ReachedIs(controls, ids[1..], scope);
      JoinCons(ids[0], ids[1..], tagged);
      assert ids == [ids[0]] + ids[1..];
      assert Tagged(ids[0], Scoped(RequirementsOf(controls, ids[0]), scope)) == tagged(ids[0]);
    }
  }

  // ----- parameters -----

  /** The accepted values, with a comma and a space between them. */
  function Listing(values: seq<string>): string {
    if values == [] then "" else values[0] + Flatten(Images(values[1..], (v: string) => ", " + v))
  }

  lemma {:induction false} JoinIs(values: seq<string>)
    ensures Join(values) == Listing(values)
  {
    if |values| == 1 {
      assert values[0] + "" == values[0];
    } else if |values| > 1 {
      var rest := values[1..];
      JoinIs(rest);
      JoinCons(rest[0], rest[1..], (v: string) => ", " + v);
      assert rest == [rest[0]] + rest[1..];
      var more := Flatten(Images(rest[1..], (v: string) => ", " + v));
      assert values[0] + ", " + (rest[0] + more) == values[0] + (", " + rest[0] + more);
    }
  }

  /** What a parameter writes: its values under its name, its description under the name with a suffix. */
  ghost predicate WritesTo(p: Parameter, key: string, value: string) {
    || (p.acceptedValues != [] && key == p.name && value == Listing(p.acceptedValues))
    || (p.description != "" && key == p.name + "_description" && value == p.description)
  }

  ghost predicate WritesAny(p: Parameter, key: string) { exists value :: WritesTo(p, key, value) }

  /** The key holds what the last parameter that writes it writes; other keys are absent. */
  ghost predicate HoldsParameters(m: map<string, string>, ps: seq<Parameter>) {
    && (forall key :: key in m ==> exists p <- ps :: WritesAny(p, key))
    && forall i: nat, key :: LastToWrite(ps, i, key) ==> key in m && WritesTo(ps[i], key, m[key])
  }

  ghost predicate LastToWrite(ps: seq<Parameter>, i: nat, key: string) {
    i < |ps| && WritesAny(ps[i], key) && forall j :: i < j < |ps| ==> !WritesAny(ps[j], key)
  }

  lemma {:induction false} LastWriteAppend(ws: seq<Write>, more: seq<Write>, key: string)
    ensures LastWrite(ws + more, key) == if LastWrite(more, key).Some? then LastWrite(more, key) else LastWrite(ws, key)
  {
    if more == [] {
      assert ws + more == ws;
    } else {
      var n := |more| - 1;
      LastWriteAppend(ws, more[..n], key);
      assert (ws + more)[..|ws + more| - 1] == ws + more[..n];
    }
  }

  /** A parameter's own writes go to different keys. */
  lemma {:induction false} OwnWrites(p: Parameter, key: string)
    ensures match LastWrite(WritesOf(p), key)
            case Some(value) => WritesTo(p, key, value)
            case None => !WritesAny(p, key)
  {
    hide Join, Listing;
    JoinIs(p.acceptedValues);
    assert |p.name + "_description"| > |p.name|;
    var values := if p.acceptedValues == [] then [] else [Write(p.name, Join(p.acceptedValues))];
    var described := if p.description == "" then [] else [Write(p.name + "_description", p.description)];
    LastWriteAppend(values, described, key);
    OneWrite(values, key);
    OneWrite(described, key);
  }

  lemma {:induction false} OneWrite(ws: seq<Write>, key: string)
    requires |ws| <= 1
    ensures LastWrite(ws, key) == if ws != [] && ws[0].key == key then Some(ws[0].value) else None
  {
    if ws != [] {
      assert ws[..0] == [];
    }
  }

  lemma {:induction false} LastWriteIs(ps: seq<Parameter>, key: string)
    ensures match LastWrite(Writes(ps), key)
            case Some(value) => exists i: nat :: LastToWrite(ps, i, key) && WritesTo(ps[i], key, value)
            case None => forall p <- ps :: !WritesAny(p, key)
  {
    hide LastWrite, WritesTo, WritesOf, WritesAny;
    if ps == [] {
      OneWrite([], key);
    } else {
      var n := |ps| - 1;
      LastWriteIs(ps[..n], key);
      OwnWrites(ps[n], key);
      LastWriteAppend(Writes(ps[..n]), WritesOf(ps[n]), key);
      match LastWrite(WritesOf(ps[n]), key)
      case Some(value) =>
        Wrote(ps[n], key, value);
        assert LastToWrite(ps, n, key);
      case None =>
        if i: nat :| LastToWrite(ps[..n], i, key) {
          assert LastToWrite(ps, i, key) && ps[i] == ps[..n][i];
        }
        assert ps == ps[..n] + [ps[n]];
        assert forall p :: p in ps <==> p in ps[..n] || p == ps[n];
        assert forall i: nat :: LastToWrite(ps[..n], i, key) ==> LastToWrite(ps, i, key) && ps[i] == ps[..n][i];
    }
  }

  lemma {:induction false} Wrote(p: Parameter, key: string, value: string)
    requires WritesTo(p, key, value)
    ensures WritesAny(p, key)
  {
  }

  lemma {:induction false} OneLast(ps: seq<Parameter>, i: nat, j: nat, key: string)
    requires LastToWrite(ps, i, key) && LastToWrite(ps, j, key)
    ensures i == j
  {
    hide WritesAny;
  }

  /** The parameters of an extracted requirement. */
  lemma {:induction false} ParametersAre(m: map<string, string>, ps: seq<Parameter>)
    requires HoldsLastWrites(m, Writes(ps))
    ensures HoldsParameters(m, ps)
  {
    hide LastWrite, Writes, WritesTo, WritesAny;
    forall key | key in m
      ensures exists p <- ps :: WritesAny(p, key)
    {
      LastWriteIs(ps, key);
      var i: nat :| LastToWrite(ps, i, key) && WritesTo(ps[i], key, m[key]);
      WriterIsThere(ps, i, key);
    }
    forall i: nat, key | LastToWrite(ps, i, key)
      ensures key in m && WritesTo(ps[i], key, m[key])
    {
      LastWriteIs(ps, key);
      WriterIsThere(ps, i, key);
      var k: nat :| LastToWrite(ps, k, key) && WritesTo(ps[k], key, LastWrite(Writes(ps), key).value);
      OneLast(ps, i, k, key);
    }
  }

  lemma {:induction false} WriterIsThere(ps: seq<Parameter>, i: nat, key: string)
    requires LastToWrite(ps, i, key)
    ensures i < |ps| && ps[i] in ps && WritesAny(ps[i], key)
  {
    hide WritesAny;
  }

  /** What one extracted record says of its requirement. */
  ghost predicate InfoSays(info: Info, controlID: string, r: Requirement, plans: seq<Plan>) {
    && info.id == r.id && info.controlID == controlID && info.text == r.text && info.applicability == r.applicability
    && HoldsParameters(info.parameters, LastParameters(plans, r.id))
  }

  /** The records of a request: for each control id in turn, one per requirement in scope. */
  lemma {:induction false} MatchedSay(infos: seq<Info>, controls: seq<Control>, ids: seq<string>, scope: seq<string>,
                                      plans: seq<Plan>)
    requires Matches(infos, Reached(controls, ids, scope), plans)
    ensures var reached := Flatten(Images(ids, (id: string) =>
              Images(Scoped(RequirementsOf(controls, id), scope), (r: Requirement) => (id, r))));
            && |infos| == |reached|
            && forall i :: 0 <= i < |infos| ==> InfoSays(infos[i], reached[i].0, reached[i].1, plans)
  {
    hide HoldsParameters, HoldsLastWrites, LastParameters, Scoped, RequirementsOf, Writes;
    ReachedIs(controls, ids, scope);
    var reached := Reached(controls, ids, scope);
    forall i | 0 <= i < |infos|
      ensures InfoSays(infos[i], reached[i].0, reached[i].1, plans)
    {
      ParametersAre(infos[i].parameters, LastParameters(plans, reached[i].1.id));
    }
  }

  // ----- summaries -----

  /** What one summary says: the first control with the id names it, and its count is of what is in scope. */
  ghost predicate SummarySays(s: Summary, controls: seq<Control>, scope: seq<string>) {
    && s.requirementCount == |Scoped(RequirementsOf(controls, s.id), scope)|
    && (forall i: nat :: i < |controls| && controls[i].id == s.id && (forall j :: 0 <= j < i ==> controls[j].id != s.id)
          ==> s.title == controls[i].title)
    && ((forall c <- controls :: c.id != s.id) ==> s.title == "")
  }

  /** Whether a requested id is listed. */
  ghost predicate IsListed(controls: seq<Control>, id: string, scope: seq<string>) {
    scope == [] || Scoped(RequirementsOf(controls, id), scope) != []
  }

  /** One summary for each requested id, in order, except those that a given scope leaves empty. */
  lemma {:induction false} SummariesAre(controls: seq<Control>, ids: seq<string>, scope: seq<string>)
    ensures var summaries := Summaries(controls, ids, scope);
            && IsFilter(Images(summaries, (s: Summary) => s.id), ids, (id: string) => IsListed(controls, id, scope))
            && forall s <- summaries :: SummarySays(s, controls, scope)
  {
    hide IsFilter, IsListed, SummarySays, Summaries, Images;
    if ids == [] {
      SummariesNone(controls, scope);
      FilterNone((id: string) => IsListed(controls, id, scope));
      NoImages((s: Summary) => s.id);
    } else {
      var id, rest := ids[0], Summaries(controls, ids[1..], scope);
      var first := Summary(id, Title(controls, id), |Scoped(RequirementsOf(controls, id), scope)|);
      SummariesAre(controls, ids[1..], scope);
      FilterCons(id, Images(rest, (s: Summary) => s.id), ids[1..], (id: string) => IsListed(controls, id, scope));
      assert ids == [id] + ids[1..];
      TitleIs(controls, id, scope);
      FirstSummary(controls, ids, scope);
      OneMoreImage(first, rest, (s: Summary) => s.id);
      assert forall s :: s in [first] + rest <==> s == first || s in rest;
    }
  }

  lemma {:induction false} FirstSummary(controls: seq<Control>, ids: seq<string>, scope: seq<string>)
    requires ids != []
    ensures var first := Summary(ids[0], Title(controls, ids[0]), |Scoped(RequirementsOf(controls, ids[0]), scope)|);
            var rest := Summaries(controls, ids[1..], scope);
            Summaries(controls, ids, scope) == if IsListed(controls, ids[0], scope) then [first] + rest else rest
  {
    hide Scoped, RequirementsOf, Title;
  }

  lemma {:induction false} NoImages<S, T>(f: S -> T)
    ensures Images([], f) == []
  {
  }

  lemma {:induction false} OneMoreImage<S, T>(x: S, s: seq<S>, f: S -> T)
    ensures Images([x] + s, f) == [f(x)] + Images(s, f)
  {
  }

  lemma {:induction false} TitleIs(controls: seq<Control>, id: string, scope: seq<string>)
    ensures var count := |Scoped(RequirementsOf(controls, id), scope)|;
            SummarySays(Summary(id, Title(controls, id), count), controls, scope)
  {
    hide Scoped, RequirementsOf, FirstPosition;
    var k := FirstPosition(controls, id);
    assert k < |controls| ==> controls[k] in controls;
    assert forall i: nat ::
             i < |controls| && controls[i].id == id && (forall j :: 0 <= j < i ==> controls[j].id != id) ==> i == k;
  }
}
