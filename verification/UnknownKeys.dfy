/** The walk over a configuration that warns about every key its schema does not know. */
module UnknownKeys {
  import opened EditDistance
  import opened Sequences

  datatype Value = Object(fields: map<string, Value>) | List(items: seq<Value>) | Scalar

  /** The known keys of each scope; a scope without an entry is not looked into. */
  type Table = map<string, seq<string>>

  function Known(table: Table, scope: string): seq<string> {
    if scope in table then table[scope] else []
  }

  // ----- where unknown keys are -----

  /** From an object to the object under a key, or to one of the objects in the list under a key. */
  datatype Step = Field(name: string) | Item(name: string, index: nat)

  datatype Location = Location(path: seq<Step>, key: string)

  function Below(step: Step, loc: Location): Location { Location([step] + loc.path, loc.key) }

  function Inside(scope: string, step: Step): string {
    var name := if scope == "" then step.name else scope + "." + step.name;
    if step.Field? then name else name + "[]"
  }

  function ScopeAt(scope: string, path: seq<Step>): string
    decreases |path|
  {
    if path == [] then scope else ScopeAt(Inside(scope, path[0]), path[1..])
  }

  /** The object a step leads to, if it leads to one. */
  function Enter(o: Value, step: Step): (inner: Option<Value>)
    ensures inner.Some? ==> inner.value.Object?
  {
    if !o.Object? || step.name !in o.fields then None
    else
      var v := o.fields[step.name];
      match step
      case Field(_) => if v.Object? then Some(v) else None
      case Item(_, i) => if v.List? && i < |v.items| && v.items[i].Object? then Some(v.items[i]) else None
  }

  /** The key at `loc` is unknown, and every object on the way to it sits under a known key. */
  ghost predicate IsUnknown(loc: Location, o: Value, scope: string, table: Table)
    decreases |loc.path|
  {
    && o.Object? && scope in table
    && if loc.path == [] then loc.key in o.fields && loc.key !in table[scope]
       else
         var step := loc.path[0];
         && step.name in table[scope] && Enter(o, step).Some?
         && IsUnknown(Location(loc.path[1..], loc.key), Enter(o, step).value, Inside(scope, step), table)
  }

  /** `at` lists, once each, the unknown keys that `which` selects. */
  ghost predicate Lists(at: seq<Location>, which: Location -> bool, o: Value, scope: string, table: Table) {
    && Distinct(at)
    && forall loc :: loc in at <==> IsUnknown(loc, o, scope, table) && which(loc)
  }

  /** Warning `i` is the right one for the unknown key at `at[i]`. */
  ghost predicate Explain(ws: seq<Warning>, at: seq<Location>, scope: string, table: Table) {
    && |ws| == |at|
    && forall i :: 0 <= i < |ws| ==> RightWarning(ws[i], at[i].key, Known(table, ScopeAt(scope, at[i].path)))
  }

  lemma {:induction false} ListsJoin(at: seq<Location>, p: Location -> bool, more: seq<Location>, q: Location -> bool,
                                     r: Location -> bool, o: Value, scope: string, table: Table)
    requires Lists(at, p, o, scope, table) && Lists(more, q, o, scope, table)
    requires forall loc :: !(p(loc) && q(loc)) && (r(loc) <==> p(loc) || q(loc))
    ensures Lists(at + more, r, o, scope, table)
  {
    var all := at + more;
    forall i, j | 0 <= i < j < |all|
      ensures all[i] != all[j]
    {
      if i < |at| && |at| <= j {
        assert all[i] in at && all[j] in more;
      }
    }
    assert forall loc :: loc in all <==> loc in at || loc in more;
  }

  lemma {:induction false} ExplainJoin(ws: seq<Warning>, at: seq<Location>, vs: seq<Warning>, more: seq<Location>,
                                       scope: string, table: Table)
    requires Explain(ws, at, scope, table) && Explain(vs, more, scope, table)
    ensures Explain(ws + vs, at + more, scope, table)
  {
  }

  function AllBelow(step: Step, at: seq<Location>): (r: seq<Location>)
    ensures |r| == |at| && forall i :: 0 <= i < |at| ==> r[i] == Below(step, at[i])
  {
    seq(|at|, i requires 0 <= i < |at| => Below(step, at[i]))
  }

  predicate Starts(loc: Location, step: Step) { loc.path != [] && loc.path[0] == step }

  predicate Everywhere(loc: Location) { true }

  lemma {:induction false} ListsBelow(at: seq<Location>, step: Step, o: Value, scope: string, table: Table)
    requires o.Object? && scope in table && step.name in table[scope] && Enter(o, step).Some?
    requires Lists(at, Everywhere, Enter(o, step).value, Inside(scope, step), table)
    ensures Lists(AllBelow(step, at), loc => Starts(loc, step), o, scope, table)
  {
    var inner, all := Enter(o, step).value, AllBelow(step, at);
    forall i, j | 0 <= i < j < |all|
      ensures all[i] != all[j]
    {
      assert all[i].path[1..] == at[i].path && all[j].path[1..] == at[j].path;
    }
    forall loc
      ensures loc in all <==> IsUnknown(loc, o, scope, table) && Starts(loc, step)
    {
      if loc in all {
        var i :| 0 <= i < |all| && all[i] == loc;
        assert at[i] in at && Location(loc.path[1..], loc.key) == at[i];
      }
      if IsUnknown(loc, o, scope, table) && Starts(loc, step) {
        var short := Location(loc.path[1..], loc.key);
        assert short in at;
        var i :| 0 <= i < |at| && at[i] == short;
        assert all[i] == loc;
      }
    }
  }

  lemma {:induction false} ExplainBelow(ws: seq<Warning>, at: seq<Location>, step: Step, scope: string, table: Table)
    requires Explain(ws, at, Inside(scope, step), table)
    ensures Explain(ws, AllBelow(step, at), scope, table)
  {
    forall i | 0 <= i < |ws|
      ensures ScopeAt(scope, Below(step, at[i]).path) == ScopeAt(Inside(scope, step), at[i].path)
    {
      assert Below(step, at[i]).path[1..] == at[i].path;
    }
  }

  // ----- the walk -----

  class Warnings {
    var items: seq<Warning>

    constructor ()
      ensures items == []
    {
      items := [];
    }
  }

  function Head(loc: Location): string { if loc.path == [] then loc.key else loc.path[0].name }

  predicate Among(loc: Location, keys: set<string>) { Head(loc) in keys }

  predicate InItems(loc: Location, key: string, n: nat) {
    loc.path != [] && loc.path[0].Item? && loc.path[0].name == key && loc.path[0].index < n
  }

  /** Appends a warning for each unknown key at or below `o`; `at` says which. Keys come in any order. */
  method WalkUnknown(o: Value, scope: string, table: Table, warnings: Warnings)
    returns (ghost found: seq<Warning>, ghost at: seq<Location>)
    requires o.Object?
    modifies warnings
    ensures warnings.items == old(warnings.items) + found
    ensures Explain(found, at, scope, table) && Lists(at, Everywhere, o, scope, table)
    decreases o, 1
  {
    hide Lists, Explain, IsUnknown, Enter, Among;
    found, at := [], [];
    NothingListed(o, scope, table);
    if scope !in table {
      return;
    }
    var known, pending := table[scope], o.fields.Keys;
    assert o.fields.Keys - pending == {};
    while pending != {}
      invariant warnings.items == old(warnings.items) + found
      invariant Explain(found, at, scope, table)
      invariant Lists(at, loc => Among(loc, o.fields.Keys - pending), o, scope, table)
      invariant pending <= o.fields.Keys
      decreases pending
    {
      var key :| key in pending;
      ghost var ws, more;
      if key !in known {
        var w := FormatUnknownWarning(key, known);
        warnings.items := warnings.items + [w];
        ws, more := [w], [Location([], key)];
        UnknownHere(o, key, scope, table, w);
      } else {
        ws, more := WalkValue(o, key, scope, table, warnings);
      }
      ExplainJoin(found, at, ws, more, scope, table);
      KeysJoin(at, more, o.fields.Keys - pending, key, o, scope, table);
      assert o.fields.Keys - (pending - {key}) == o.fields.Keys - pending + {key};
      found, at := found + ws, at + more;
      pending := pending - {key};
    }
    assert o.fields.Keys - pending == o.fields.Keys;
    AllKeys(at, o, scope, table);
  }

  /** The value under a known key: an object, a list whose objects are walked, or neither. */
  method WalkValue(o: Value, key: string, scope: string, table: Table, warnings: Warnings)
    returns (ghost found: seq<Warning>, ghost at: seq<Location>)
    requires o.Object? && key in o.fields && scope in table && key in table[scope]
    modifies warnings
    ensures warnings.items == old(warnings.items) + found
    ensures Explain(found, at, scope, table) && Lists(at, loc => Among(loc, {key}), o, scope, table)
    decreases o, 0
  {
    hide Lists, Explain, IsUnknown, RightWarning, Among;
    found, at := [], [];
    var v := o.fields[key];
    match v {
      case Object(_) =>
        var step := Field(key);
        ghost var inner;
        found, inner := WalkUnknown(v, Inside(scope, step), table, warnings);
        ListsBelow(inner, step, o, scope, table);
        ExplainBelow(found, inner, step, scope, table);
        at := AllBelow(step, inner);
        OnlyField(at, key, o, scope, table);
      case List(items) =>
        NoItems(o, key, scope, table);
        for i := 0 to |items|
          invariant warnings.items == old(warnings.items) + found
          invariant Explain(found, at, scope, table)
          invariant Lists(at, loc => InItems(loc, key, i), o, scope, table)
        {
          var step := Item(key, i);
          if items[i].Object? {
            ghost var ws, inner := WalkUnknown(items[i], Inside(scope, step), table, warnings);
            ListsBelow(inner, step, o, scope, table);
            ExplainBelow(ws, inner, step, scope, table);
            ExplainJoin(found, at, ws, AllBelow(step, inner), scope, table);
            ListsJoin(at, loc => InItems(loc, key, i), AllBelow(step, inner), loc => Starts(loc, step),
                      loc => InItems(loc, key, i + 1), o, scope, table);
            found, at := found + ws, at + AllBelow(step, inner);
          } else {
            SkipItem(at, key, i, o, scope, table);
          }
        }
        OnlyItems(at, key, o, scope, table);
      case Scalar =>
        NothingUnder(o, key, scope, table);
    }
  }

  // ----- the steps of the walk -----

  lemma {:induction false} NothingListed(o: Value, scope: string, table: Table)
    ensures Explain([], [], scope, table)
    ensures Lists([], loc => Among(loc, {}), o, scope, table)
    ensures scope !in table ==> Lists([], Everywhere, o, scope, table)
  {
  }

  lemma {:induction false} ListsSame(at: seq<Location>, p: Location -> bool, q: Location -> bool, o: Value,
                                     scope: string, table: Table)
    requires Lists(at, p, o, scope, table)
    requires forall loc :: IsUnknown(loc, o, scope, table) ==> (p(loc) <==> q(loc))
    ensures Lists(at, q, o, scope, table)
  {
    hide IsUnknown;
  }

  lemma {:induction false} HeadIsAField(loc: Location, o: Value, scope: string, table: Table)
    requires IsUnknown(loc, o, scope, table)
    ensures Head(loc) in o.fields
    ensures Head(loc) in table[scope] ==> loc.path != [] && Enter(o, loc.path[0]).Some?
    ensures Head(loc) !in table[scope] ==> loc == Location([], Head(loc))
  {
  }

  lemma {:induction false} UnknownHere(o: Value, key: string, scope: string, table: Table, w: Warning)
    requires o.Object? && key in o.fields && scope in table && key !in table[scope]
    requires RightWarning(w, key, table[scope])
    ensures Explain([w], [Location([], key)], scope, table)
    ensures Lists([Location([], key)], loc => Among(loc, {key}), o, scope, table)
  {
    hide RightWarning;
    forall loc | IsUnknown(loc, o, scope, table) && Among(loc, {key})
      ensures loc == Location([], key)
    {
      HeadIsAField(loc, o, scope, table);
    }
  }

  lemma {:induction false} KeysJoin(at: seq<Location>, more: seq<Location>, keys: set<string>, key: string, o: Value,
                                    scope: string, table: Table)
    requires key !in keys
    requires Lists(at, loc => Among(loc, keys), o, scope, table)
        && Lists(more, loc => Among(loc, {key}), o, scope, table)
    ensures Lists(at + more, loc => Among(loc, keys + {key}), o, scope, table)
  {
    hide Lists;
    ListsJoin(at, loc => Among(loc, keys), more, loc => Among(loc, {key}), loc => Among(loc, keys + {key}), o, scope,
        table);
  }

  lemma {:induction false} AllKeys(at: seq<Location>, o: Value, scope: string, table: Table)
    requires o.Object? && Lists(at, loc => Among(loc, o.fields.Keys), o, scope, table)
    ensures Lists(at, Everywhere, o, scope, table)
  {
    hide Lists, IsUnknown;
    forall loc | IsUnknown(loc, o, scope, table)
      ensures Among(loc, o.fields.Keys)
    {
      HeadIsAField(loc, o, scope, table);
    }
    ListsSame(at, loc => Among(loc, o.fields.Keys), Everywhere, o, scope, table);
  }

  lemma {:induction false} OnlyField(at: seq<Location>, key: string, o: Value, scope: string, table: Table)
    requires o.Object? && key in o.fields && o.fields[key].Object? && scope in table && key in table[scope]
    requires Lists(at, loc => Starts(loc, Field(key)), o, scope, table)
    ensures Lists(at, loc => Among(loc, {key}), o, scope, table)
  {
    hide Lists, IsUnknown;
    forall loc | IsUnknown(loc, o, scope, table)
      ensures Starts(loc, Field(key)) <==> Among(loc, {key})
    {
      HeadIsAField(loc, o, scope, table);
    }
    ListsSame(at, loc => Starts(loc, Field(key)), loc => Among(loc, {key}), o, scope, table);
  }

  lemma {:induction false} NoItems(o: Value, key: string, scope: string, table: Table)
    ensures Lists([], loc => InItems(loc, key, 0), o, scope, table)
    ensures Explain([], [], scope, table)
  {
  }

  lemma {:induction false} SkipItem(at: seq<Location>, key: string, i: nat, o: Value, scope: string, table: Table)
    requires o.Object? && key in o.fields && o.fields[key].List? && scope in table && key in table[scope]
    requires i < |o.fields[key].items| && !o.fields[key].items[i].Object?
    requires Lists(at, loc => InItems(loc, key, i), o, scope, table)
    ensures Lists(at, loc => InItems(loc, key, i + 1), o, scope, table)
  {
    hide Lists, IsUnknown;
    forall loc | IsUnknown(loc, o, scope, table)
      ensures InItems(loc, key, i) <==> InItems(loc, key, i + 1)
    {
      HeadIsAField(loc, o, scope, table);
    }
    ListsSame(at, loc => InItems(loc, key, i), loc => InItems(loc, key, i + 1), o, scope, table);
  }

  lemma {:induction false} OnlyItems(at: seq<Location>, key: string, o: Value, scope: string, table: Table)
    requires o.Object? && key in o.fields && o.fields[key].List? && scope in table && key in table[scope]
    requires Lists(at, loc => InItems(loc, key, |o.fields[key].items|), o, scope, table)
    ensures Lists(at, loc => Among(loc, {key}), o, scope, table)
  {
    hide Lists, IsUnknown;
    var n := |o.fields[key].items|;
    forall loc | IsUnknown(loc, o, scope, table)
      ensures InItems(loc, key, n) <==> Among(loc, {key})
    {
      HeadIsAField(loc, o, scope, table);
    }
    ListsSame(at, loc => InItems(loc, key, n), loc => Among(loc, {key}), o, scope, table);
  }

  lemma {:induction false} NothingUnder(o: Value, key: string, scope: string, table: Table)
    requires o.Object? && key in o.fields && o.fields[key].Scalar? && scope in table && key in table[scope]
    ensures Explain([], [], scope, table)
    ensures Lists([], loc => Among(loc, {key}), o, scope, table)
  {
    forall loc | IsUnknown(loc, o, scope, table)
      ensures !Among(loc, {key})
    {
      HeadIsAField(loc, o, scope, table);
    }
  }

  // ----- order independence -----

  /** One warning for every unknown key at or below `o`, and no other. */
  ghost predicate Covers(ws: seq<Warning>, o: Value, scope: string, table: Table) {
    exists at :: Explain(ws, at, scope, table) && Lists(at, Everywhere, o, scope, table)
  }

  /** Any two runs of the walk give the same warnings, each as often, whatever order keys come in. */
  lemma {:induction false} WarningsAreOrderFree(ws: seq<Warning>, vs: seq<Warning>, o: Value, scope: string,
                                                table: Table)
    requires Covers(ws, o, scope, table) && Covers(vs, o, scope, table)
    ensures multiset(ws) == multiset(vs)
  {
    hide IsUnknown, RightWarning, Explain;
    var at :| Explain(ws, at, scope, table) && Lists(at, Everywhere, o, scope, table);
    var others :| Explain(vs, others, scope, table) && Lists(others, Everywhere, o, scope, table);
    assert forall loc :: loc in at <==> loc in others;
    SamePlacesSameWarnings(ws, at, vs, others, scope, table);
  }

  /** No warning is given exactly when no key is unknown. */
  lemma {:induction false} QuietIff(ws: seq<Warning>, o: Value, scope: string, table: Table)
    requires Covers(ws, o, scope, table)
    ensures ws == [] <==> forall loc :: !IsUnknown(loc, o, scope, table)
  {
    hide IsUnknown, RightWarning;
    var at :| Explain(ws, at, scope, table) && Lists(at, Everywhere, o, scope, table);
    if ws != [] {
      assert at[0] in at && IsUnknown(at[0], o, scope, table);
      assert exists loc :: IsUnknown(loc, o, scope, table);
    }
    forall loc | IsUnknown(loc, o, scope, table)
      ensures ws != []
    {
      assert Everywhere(loc) && loc in at;
    }
  }

  lemma {:induction false} SamePlacesSameWarnings(ws: seq<Warning>, at: seq<Location>, vs: seq<Warning>,
                                                  others: seq<Location>, scope: string, table: Table)
    requires Explain(ws, at, scope, table) && Explain(vs, others, scope, table)
    requires Distinct(at) && Distinct(others) && forall loc :: loc in at <==> loc in others
    ensures multiset(ws) == multiset(vs)
    decreases |at|
  {
    hide Explain, Distinct, Without;
    Lengths(ws, at, scope, table);
    Lengths(vs, others, scope, table);
    if at == [] {
      SomeElement(others);
    } else {
      var k := TakeOut(ws, at, vs, others, scope, table);
      SamePlacesSameWarnings(Without(ws, 0), Without(at, 0), Without(vs, k), Without(others, k), scope, table);
    }
  }

  /** The first location and its warning, taken out of both lists. */
  lemma {:induction false} TakeOut(ws: seq<Warning>, at: seq<Location>, vs: seq<Warning>, others: seq<Location>,
                                   scope: string, table: Table) returns (k: nat)
    requires Explain(ws, at, scope, table) && Explain(vs, others, scope, table) && at != []
    requires Distinct(at) && Distinct(others) && forall loc :: loc in at <==> loc in others
    ensures k < |others| == |vs| && |ws| == |at|
    ensures Explain(Without(ws, 0), Without(at, 0), scope, table)
        && Explain(Without(vs, k), Without(others, k), scope, table)
    ensures Distinct(Without(at, 0)) && Distinct(Without(others, k))
    ensures forall loc :: loc in Without(at, 0) <==> loc in Without(others, k)
    ensures multiset(ws) == multiset(Without(ws, 0)) + multiset{ws[0]}
    ensures multiset(vs) == multiset(Without(vs, k)) + multiset{ws[0]}
  {
    hide Explain, Distinct, Without;
    assert at[0] in others;
    k :| 0 <= k < |others| && others[k] == at[0];
    ExplainWithout(ws, at, 0, scope, table);
    ExplainWithout(vs, others, k, scope, table);
    SameAt(ws, at, 0, vs, others, k, scope, table);
    DistinctWithout(at, 0);
    DistinctWithout(others, k);
    MultisetWithout(ws, 0);
    MultisetWithout(vs, k);
  }

  /** Taking a location out of a list without repetitions takes it out altogether. */
  lemma {:induction false} DistinctWithout(s: seq<Location>, k: nat)
    requires k < |s| && Distinct(s)
    ensures Distinct(Without(s, k)) && forall loc :: loc in Without(s, k) <==> loc in s && loc != s[k]
  {
    assert s == s[..k] + [s[k]] + s[k + 1..];
    forall loc
      ensures loc in Without(s, k) <==> loc in s && loc != s[k]
    {
      assert loc in s <==> loc in s[..k] || loc == s[k] || loc in s[k + 1..];
    }
  }

  lemma {:induction false} Lengths(ws: seq<Warning>, at: seq<Location>, scope: string, table: Table)
    requires Explain(ws, at, scope, table)
    ensures |ws| == |at|
  {
  }

  lemma {:induction false} SameAt(ws: seq<Warning>, at: seq<Location>, i: nat, vs: seq<Warning>, others: seq<Location>,
                                  k: nat, scope: string, table: Table)
    requires Explain(ws, at, scope, table) && Explain(vs, others, scope, table)
    requires i < |at| && k < |others| && at[i] == others[k]
    ensures |ws| == |at| && |vs| == |others| && ws[i] == vs[k]
  {
    hide RightWarning;
    RightWarningIsUnique(ws[i], vs[k], at[i].key, Known(table, ScopeAt(scope, at[i].path)));
  }

  lemma {:induction false} ExplainWithout(ws: seq<Warning>, at: seq<Location>, k: nat, scope: string, table: Table)
    requires Explain(ws, at, scope, table) && k < |at|
    ensures |ws| == |at| && Explain(Without(ws, k), Without(at, k), scope, table)
  {
    hide RightWarning;
  }

  // ----- the project's own table -----

  function KnownKeys(): Table {
    map["" := ["id", "evaluator-id", "version", "gemara", "schemas", "policies", "tests", "fixtures", "output"],
        "gemara" := ["source", "sources", "plain-http"],
        "gemara.sources[]" := ["source", "plain-http"],
        "schemas[]" := ["platform", "source", "path"],
        "policies" := ["dir", "helpers"],
        "tests" := ["dir"],
        "fixtures" := ["dir"],
        "output" := ["dir"]]
  }

  /** A suggestion is made exactly when some known key lies within two edits, and is then such a key,
      at most two characters longer or shorter. */
  ghost predicate Suggests(w: Warning, known: seq<string>) {
    && (w.DidYouMean? <==> exists k :: 0 <= k < |known| && Distance(w.key, known[k]) <= 2)
    && (w.DidYouMean? ==>
          && w.suggestion in known && Distance(w.key, w.suggestion) <= 2
          && -2 <= |w.key| - |w.suggestion| <= 2)
  }

  lemma {:induction false} NoBlankKey(scope: string)
    ensures "" !in Known(KnownKeys(), scope)
  {
  }

  /** The table has no blank key, so every warning about a configuration obeys that law for the keys
      known where the unknown one sits. */
  lemma {:induction false} WarningsSuggest(warnings: seq<Warning>, m: map<string, Value>, w: Warning)
    requires Covers(warnings, Object(m), "", KnownKeys()) && w in warnings
    ensures exists loc ::
              && IsUnknown(loc, Object(m), "", KnownKeys()) && loc.key == w.key
              && Suggests(w, Known(KnownKeys(), ScopeAt("", loc.path)))
  {
    hide IsUnknown, KnownKeys, RightWarning, ScopeAt, Distance;
    var table, o := KnownKeys(), Object(m);
    var at: seq<Location> :| Explain(warnings, at, "", table) && Lists(at, Everywhere, o, "", table);
    var i :| 0 <= i < |warnings| && warnings[i] == w;
    var known := Known(table, ScopeAt("", at[i].path));
    assert at[i] in at && IsUnknown(at[i], o, "", table);
    NoBlankKey(ScopeAt("", at[i].path));
    RightWarningHasKey(w, at[i].key, known);
    SuggestionIffNear(w, at[i].key, known);
    assert Suggests(w, known);
  }

  lemma {:induction false} RightWarningHasKey(w: Warning, key: string, known: seq<string>)
    requires RightWarning(w, key, known)
    ensures w.key == key
  {
  }

  method CheckUnknownKeys(m: map<string, Value>) returns (warnings: seq<Warning>)
    ensures Covers(warnings, Object(m), "", KnownKeys())
  {
    hide Explain, Lists, KnownKeys;
    var log := new Warnings();
    ghost var found, at := WalkUnknown(Object(m), "", KnownKeys(), log);
    warnings := log.items;
    assert warnings == found;
  }
}
