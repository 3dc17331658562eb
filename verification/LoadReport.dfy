/** What the list of load errors says about the sources, although a failed merge leaves a partial set. */
module LoadReport {
  import opened ArtifactSets
  import opened Sources

  datatype LoadError = Unloadable(source: string) | Duplicate(source: string, id: string)

  /** The error's source did not load, or holds an id that an earlier source holds within the same kind. */
  ghost predicate Explained(e: LoadError, sources: seq<Source>) {
    exists i :: 0 <= i < |sources| && ExplainedAt(e, sources, i)
  }

  ghost predicate ExplainedAt(e: LoadError, sources: seq<Source>, i: nat)
    requires i < |sources|
  {
    && sources[i].name == e.source
    && match e
       case Unloadable(_) => sources[i].loaded.None?
       case Duplicate(_, id) => exists j :: 0 <= j < i && InBoth(id, ContentsOf(sources[j]), ContentsOf(sources[i]))
  }

  ghost predicate Names(errors: seq<LoadError>, source: string) { exists e <- errors :: e.source == source }

  /** Every source that does not load is named, of two that conflict at least one is, and every error
      has a reason. */
  ghost predicate Reports(errors: seq<LoadError>, sources: seq<Source>) {
    && (forall s <- sources :: s.loaded.None? ==> Unloadable(s.name) in errors)
    && (forall i, j :: 0 <= i < j < |sources| && Clash(sources[i], sources[j]) ==>
          Names(errors, sources[i].name) || Names(errors, sources[j].name))
    && (forall e <- errors :: Explained(e, sources))
  }

  // ----- why the loop keeps its report -----

  ghost predicate HoldsIds(c: Contents, d: Contents) { forall k :: Ids(d, k) <= Ids(c, k) }

  /** `d` is `c` with some of the ids of `more`. */
  ghost predicate Grown(c: Contents, d: Contents, more: Contents) {
    forall k :: Ids(c, k) <= Ids(d, k) <= Ids(c, k) + Ids(more, k)
  }

  /** Every id of the set comes from some source. */
  ghost predicate Sourced(c: Contents, sources: seq<Source>) {
    forall k, id :: id in Ids(c, k) ==> exists j :: 0 <= j < |sources| && id in Ids(ContentsOf(sources[j]), k)
  }

  /** The report so far, beside a set that holds all of every source not named in it. */
  ghost predicate Accounts(errors: seq<LoadError>, c: Contents, sources: seq<Source>) {
    && Reports(errors, sources)
    && Sourced(c, sources)
    && forall s <- sources :: Names(errors, s.name) || HoldsIds(c, ContentsOf(s))
  }

  lemma {:induction false} SourcedNext(c: Contents, d: Contents, sources: seq<Source>, s: Source)
    requires Sourced(c, sources) && Grown(c, d, ContentsOf(s))
    ensures Sourced(d, sources + [s])
  {
    var all := sources + [s];
    forall k, id | id in Ids(d, k)
      ensures exists j :: 0 <= j < |all| && id in Ids(ContentsOf(all[j]), k)
    {
      if id in Ids(c, k) {
        var j :| 0 <= j < |sources| && id in Ids(ContentsOf(sources[j]), k);
        assert all[j] == sources[j];
      } else {
        assert id in Ids(ContentsOf(all[|sources|]), k);
      }
    }
  }

  lemma {:induction false} ExplainedStill(e: LoadError, sources: seq<Source>, s: Source)
    requires Explained(e, sources)
    ensures Explained(e, sources + [s])
  {
    hide InBoth;
    var all := sources + [s];
    var i :| 0 <= i < |sources| && ExplainedAt(e, sources, i);
    assert forall j :: 0 <= j < |sources| ==> all[j] == sources[j];
    if e.Duplicate? {
      var j :| 0 <= j < i && InBoth(e.id, ContentsOf(sources[j]), ContentsOf(sources[i]));
      assert InBoth(e.id, ContentsOf(all[j]), ContentsOf(all[i]));
    }
    assert ExplainedAt(e, all, i);
  }

  lemma {:induction false} NamesMore(errors: seq<LoadError>, more: seq<LoadError>, source: string)
    ensures Names(errors + more, source) <==> Names(errors, source) || Names(more, source)
  {
    assert forall e :: e in errors + more <==> e in errors || e in more;
  }

  /** One turn of the loop: the new source is named unless all of it went into the set. */
  lemma {:induction false} AccountsNext(errors: seq<LoadError>, c: Contents, more: seq<LoadError>, d: Contents,
                                        sources: seq<Source>, s: Source)
    requires Accounts(errors, c, sources) && Grown(c, d, ContentsOf(s))
    requires s.loaded.None? ==> Unloadable(s.name) in more
    requires Names(more, s.name) || (HoldsIds(d, ContentsOf(s)) && Disjoint(c, ContentsOf(s)))
    requires forall e <- more :: Explained(e, sources + [s])
    ensures Accounts(errors + more, d, sources + [s])
  {
    hide Explained, Sourced, Clash, Disjoint, Grown, HoldsIds, Names;
    var all, list := sources + [s], errors + more;
    assert forall e :: e in list <==> e in errors || e in more;
    assert forall t :: t in all <==> t in sources || t == s;
    SourcedNext(c, d, sources, s);
    forall e | e in errors ensures Explained(e, all) { ExplainedStill(e, sources, s); }
    forall t | t in all
      ensures Names(list, t.name) || HoldsIds(d, ContentsOf(t))
    {
      NamesMore(errors, more, t.name);
      if t in sources && HoldsIds(c, ContentsOf(t)) { HoldsStill(c, d, ContentsOf(s), ContentsOf(t)); }
    }
    forall i, j | 0 <= i < j < |all| && Clash(all[i], all[j])
      ensures Names(list, all[i].name) || Names(list, all[j].name)
    {
      NamesMore(errors, more, all[i].name);
      NamesMore(errors, more, all[j].name);
      assert all[i] == sources[i];
      if j == |sources| && HoldsIds(c, ContentsOf(all[i])) { ClashIsSeen(c, all[i], s); }
    }
  }

  lemma {:induction false} HoldsStill(c: Contents, d: Contents, more: Contents, held: Contents)
    requires HoldsIds(c, held) && Grown(c, d, more)
    ensures HoldsIds(d, held)
  {
  }

  lemma {:induction false} ClashIsSeen(c: Contents, t: Source, s: Source)
    requires HoldsIds(c, ContentsOf(t)) && Clash(t, s)
    ensures !Disjoint(c, ContentsOf(s))
  {
    DisjointKinds(c, ContentsOf(s));
    DisjointKinds(ContentsOf(t), ContentsOf(s));
  }

  /** A clash with the set is a clash with some earlier source. */
  lemma {:induction false} DuplicateIsExplained(c: Contents, sources: seq<Source>, s: Source, id: string)
    requires Sourced(c, sources) && InBoth(id, c, ContentsOf(s))
    ensures Explained(Duplicate(s.name, id), sources + [s])
  {
    hide Ids;
    var all := sources + [s];
    var k :| id in Ids(c, k) && id in Ids(ContentsOf(s), k);
    var j :| 0 <= j < |sources| && id in Ids(ContentsOf(sources[j]), k);
    assert InBoth(id, ContentsOf(all[j]), ContentsOf(all[|sources|]));
    assert ExplainedAt(Duplicate(s.name, id), all, |sources|);
  }

  lemma {:induction false} UnloadableIsExplained(sources: seq<Source>, s: Source)
    requires s.loaded.None?
    ensures Explained(Unloadable(s.name), sources + [s])
  {
    assert ExplainedAt(Unloadable(s.name), sources + [s], |sources|);
  }

  lemma {:induction false} NothingReported()
    ensures Accounts([], Contents(map[], map[], map[], map[]), [])
  {
  }

  lemma {:induction false} ReportOf(errors: seq<LoadError>, c: Contents, sources: seq<Source>)
    requires Accounts(errors, c, sources)
    ensures Reports(errors, sources)
  {
  }

  lemma {:induction false} ReportUnloadable(errors: seq<LoadError>, c: Contents, sources: seq<Source>, s: Source)
    requires Accounts(errors, c, sources) && s.loaded.None?
    ensures Accounts(errors + [Unloadable(s.name)], c, sources + [s])
  {
    hide Reports, Sourced, Explained;
    UnloadableIsExplained(sources, s);
    assert Unloadable(s.name) in [Unloadable(s.name)];
    AccountsNext(errors, c, [Unloadable(s.name)], c, sources, s);
  }

  lemma {:induction false} ReportDuplicate(errors: seq<LoadError>, c: Contents, d: Contents, sources: seq<Source>,
                                           s: Source, id: string)
    requires Accounts(errors, c, sources) && s.loaded.Some?
    requires Grown(c, d, ContentsOf(s)) && InBoth(id, c, ContentsOf(s))
    ensures Accounts(errors + [Duplicate(s.name, id)], d, sources + [s])
  {
    hide Reports, Sourced, Explained, InBoth, Grown;
    DuplicateIsExplained(c, sources, s, id);
    assert Duplicate(s.name, id) in [Duplicate(s.name, id)];
    AccountsNext(errors, c, [Duplicate(s.name, id)], d, sources, s);
  }

  lemma {:induction false} UnionIds(c: Contents, more: Contents)
    ensures Grown(c, Union(c, more), more) && HoldsIds(Union(c, more), more)
  {
  }

  lemma {:induction false} ReportNothing(errors: seq<LoadError>, c: Contents, sources: seq<Source>, s: Source)
    requires Accounts(errors, c, sources) && s.loaded.Some? && Disjoint(c, ContentsOf(s))
    ensures Accounts(errors, Union(c, ContentsOf(s)), sources + [s])
  {
    hide Reports, Sourced, Explained, Disjoint, HoldsIds, Grown, Names;
    UnionIds(c, ContentsOf(s));
    AccountsNext(errors, c, [], Union(c, ContentsOf(s)), sources, s);
    assert errors + [] == errors;
  }

  /** A merge, complete or not, adds ids of the merged contents only. */
  lemma {:induction false} MergedIds(c: Contents, d: Contents, more: Contents)
    requires Between(d.catalogs, c.catalogs, more.catalogs) && Between(d.policies, c.policies, more.policies)
    requires Between(d.guidance, c.guidance, more.guidance) && Between(d.mappings, c.mappings, more.mappings)
    ensures Grown(c, d, more)
  {
  }
}
