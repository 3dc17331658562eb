/** Which keys of a configuration are unknown, read off its own shape. */
module KnownLocations {
  import opened EditDistance
  import opened Sequences
  import opened UnknownKeys

  /** The objects of a configuration that are looked into, and the keys known in each. */
  function KeysAt(path: seq<Step>): Option<seq<string>> {
    if path == [] then
      Some(["id", "evaluator-id", "version", "gemara", "schemas", "policies", "tests", "fixtures", "output"])
    else if path == [Field("gemara")] then Some(["source", "sources", "plain-http"])
    else if path == [Field("policies")] then Some(["dir", "helpers"])
    else if path == [Field("tests")] || path == [Field("fixtures")] || path == [Field("output")] then Some(["dir"])
    else if |path| == 1 && path[0].Item? && path[0].name == "schemas" then Some(["platform", "source", "path"])
    else if |path| == 2 && path[0] == Field("gemara") && path[1].Item? && path[1].name == "sources" then
      Some(["source", "plain-http"])
    else None
  }

  /** The object a path leads to, if every step of it finds one. */
  function ObjectAt(o: Value, path: seq<Step>): (r: Option<Value>)
    ensures r.Some? ==> r.value.Object?
    decreases |path|
  {
    if !o.Object? then None
    else if path == [] then Some(o)
    else if path[0].name !in o.fields then None
    else
      var v := o.fields[path[0].name];
      match path[0]
      case Field(_) => ObjectAt(v, path[1..])
      case Item(_, i) => if v.List? && i < |v.items| then ObjectAt(v.items[i], path[1..]) else None
  }

  /** A key that one of these objects has and does not know. */
  ghost predicate UnknownIn(loc: Location, o: Value) {
    && KeysAt(loc.path).Some? && ObjectAt(o, loc.path).Some?
    && loc.key in ObjectAt(o, loc.path).value.fields && loc.key !in KeysAt(loc.path).value
  }

  // ----- the scopes of the table -----

  predicate Dotted(s: string) { '.' in s }

  lemma {:induction false} Scopes(scope: string)
    ensures scope in KnownKeys() <==>
              || scope == "" || scope == "gemara" || scope == "gemara.sources[]" || scope == "schemas[]"
              || scope == "policies" || scope == "tests" || scope == "fixtures" || scope == "output"
  {
  }

  lemma {:induction false} PlainScopes()
    ensures !Dotted("gemara") && !Dotted("schemas[]") && !Dotted("policies") && !Dotted("tests")
    ensures !Dotted("fixtures") && !Dotted("output") && !Dotted("")
  {
  }

  /** Below the top level only the sources of `gemara` have a scope. */
  lemma {:induction false} NestedScope(scope: string, step: Step)
    requires scope != "" && Inside(scope, step) in KnownKeys()
    ensures Inside(scope, step) == "gemara.sources[]"
  {
    hide KnownKeys;
    Scopes(Inside(scope, step));
    PlainScopes();
    assert Inside(scope, step)[|scope|] == '.';
  }

  lemma {:induction false} OnlyGemara(scope: string, step: Step)
    requires scope != "" && !Dotted(scope) && !Dotted(step.name) && Inside(scope, step) == "gemara.sources[]"
    requires step.Field? ==> step.name != "sources[]"
    ensures scope == "gemara" && step.Item? && step.name == "sources"
  {
    var s := "gemara.sources[]";
    assert s[..6] == "gemara" && s[7..14] == "sources" && s[7..] == "sources[]" && s[6] == '.';
    assert Inside(scope, step)[|scope|] == '.';
    assert forall i :: 0 <= i < |s| && i != 6 ==> s[i] != '.';
    assert |scope| == 6 && scope == s[..6];
    assert s[7..] == if step.Field? then step.name else step.name + "[]";
    assert step.Item?;
    assert step.name == s[7..14];
  }

  /** The scopes one step below the top. */
  lemma {:induction false} TopScope(step: Step)
    requires step.name in KnownKeys()[""]
    ensures Inside("", step) in KnownKeys() <==> KeysAt([step]).Some?
    ensures Inside("", step) in KnownKeys() ==> KnownKeys()[Inside("", step)] == KeysAt([step]).value
    ensures !Dotted(Inside("", step)) && Inside("", step) != ""
    ensures Inside("", step) == "gemara" <==> step == Field("gemara")
  {
    var name, scope := step.name, Inside("", step);
    Scopes(scope);
    TopNames(name);
    if step.Item? {
      assert scope == name + "[]" && scope[..|name|] == name;
      assert "schemas[]"[..7] == "schemas" && "gemara.sources[]"[6] == '.';
    } else {
      assert scope == name;
    }
  }

  lemma {:induction false} TopNames(name: string)
    requires name in KnownKeys()[""]
    ensures name == "id" || name == "evaluator-id" || name == "version" || name == "gemara" || name == "schemas"
         || name == "policies" || name == "tests" || name == "fixtures" || name == "output"
    ensures !Dotted(name) && name != "" && !Dotted(name + "[]") && name[|name| - 1] != ']'
  {
  }

  /** The names known anywhere below the top hold no dot and no bracket. */
  lemma {:induction false} LowerNames(scope: string, name: string)
    requires scope in KnownKeys() && scope != "" && name in KnownKeys()[scope]
    ensures !Dotted(name) && name != "sources[]"
  {
  }

  // ----- the keys that are unknown -----

  lemma {:induction false} IsUnknownBelow(loc: Location, o: Value, scope: string)
    requires loc.path != []
    ensures var step := loc.path[0];
            IsUnknown(loc, o, scope, KnownKeys()) <==>
              && scope in KnownKeys() && step.name in KnownKeys()[scope] && Enter(o, step).Some?
              && IsUnknown(Location(loc.path[1..], loc.key), Enter(o, step).value, Inside(scope, step), KnownKeys())
  {
    hide KnownKeys, Inside;
  }

  lemma {:induction false} IsUnknownHere(loc: Location, o: Value, scope: string)
    requires loc.path == []
    ensures IsUnknown(loc, o, scope, KnownKeys()) <==>
              o.Object? && scope in KnownKeys() && loc.key in o.fields && loc.key !in KnownKeys()[scope]
  {
    hide KnownKeys;
  }

  /** An unknown key is one level down, in the sources of `gemara`, or at the top. */
  lemma {:induction false} WhereUnknown(loc: Location, o: Value)
    requires IsUnknown(loc, o, "", KnownKeys())
    ensures KeysAt(loc.path).Some?
  {
    hide IsUnknown, KnownKeys, Inside, Enter, KeysAt;
    var table := KnownKeys();
    if |loc.path| >= 1 {
      var first := loc.path[0];
      IsUnknownBelow(loc, o, "");
      var scope, rest := Inside("", first), Location(loc.path[1..], loc.key);
      TopScope(first);
      ScopeIsThere(rest, Enter(o, first).value, scope);
      assert loc.path == [first] + loc.path[1..];
      if |loc.path| >= 2 {
        var second := rest.path[0];
        IsUnknownBelow(rest, Enter(o, first).value, scope);
        var inner, last := Inside(scope, second), Location(rest.path[1..], loc.key);
        ScopeIsThere(last, Enter(Enter(o, first).value, second).value, inner);
        LowerNames(scope, second.name);
        NestedScope(scope, second);
        OnlyGemara(scope, second);
        assert loc.path == [first, second] + last.path;
        AtSources(first, second);
        if |last.path| >= 1 {
          IsUnknownBelow(last, Enter(Enter(o, first).value, second).value, inner);
          TooDeep(last, Enter(Enter(o, first).value, second).value);
        } else {
          assert loc.path == [first, second];
        }
      } else {
        assert loc.path == [first];
      }
    } else {
      assert loc.path == [];
      AtTop();
    }
  }

  lemma {:induction false} AtTop()
    ensures KeysAt([]).Some? && "" in KnownKeys() && KnownKeys()[""] == KeysAt([]).value
  {
  }

  lemma {:induction false} AtSources(first: Step, second: Step)
    requires first == Field("gemara") && second.Item? && second.name == "sources"
    ensures KeysAt([first, second]).Some?
    ensures Inside(Inside("", first), second) == "gemara.sources[]" && "gemara.sources[]" in KnownKeys()
    ensures KnownKeys()["gemara.sources[]"] == KeysAt([first, second]).value
  {
  }

  lemma {:induction false} ScopeIsThere(loc: Location, o: Value, scope: string)
    requires IsUnknown(loc, o, scope, KnownKeys())
    ensures scope in KnownKeys()
  {
    hide KnownKeys;
  }

  /** Nothing is looked into below the sources. */
  lemma {:induction false} TooDeep(loc: Location, o: Value)
    requires loc.path != []
    ensures !IsUnknown(loc, o, "gemara.sources[]", KnownKeys())
  {
    hide KnownKeys, IsUnknown;
    var step := loc.path[0];
    assert |Inside("gemara.sources[]", step)| > |"gemara.sources[]"|;
    if IsUnknown(loc, o, "gemara.sources[]", KnownKeys()) {
      IsUnknownBelow(loc, o, "gemara.sources[]");
      ScopeIsThere(Location(loc.path[1..], loc.key), Enter(o, step).value, Inside("gemara.sources[]", step));
      NestedScope("gemara.sources[]", step);
      assert false;
    }
  }

  /** The keys the walk finds unknown are those one of the described objects has and does not know: at the
      top, in `gemara` and each of its sources, in each schema, in `policies`, `tests`, `fixtures`, `output`. */
  lemma {:induction false} UnknownIs(loc: Location, o: Value)
    ensures IsUnknown(loc, o, "", KnownKeys()) <==> UnknownIn(loc, o)
  {
    hide IsUnknown, KnownKeys;
    if KeysAt(loc.path).Some? {
      UnknownAt(loc, o);
    } else if IsUnknown(loc, o, "", KnownKeys()) {
      WhereUnknown(loc, o);
    }
  }

  lemma {:induction false} UnknownAt(loc: Location, o: Value)
    requires KeysAt(loc.path).Some?
    ensures IsUnknown(loc, o, "", KnownKeys()) <==> UnknownIn(loc, o)
  {
    hide IsUnknown, KnownKeys, Inside;
    AtTop();
    if loc.path == [] {
      IsUnknownHere(loc, o, "");
    } else {
      var first := loc.path[0];
      var rest := Location(loc.path[1..], loc.key);
      IsUnknownBelow(loc, o, "");
      FirstIsKnown(loc.path);
      ObjectBelow(o, loc.path);
      TopScope(first);
      if |loc.path| == 1 {
        assert loc.path == [first] && rest.path == [];
        if Enter(o, first).Some? {
          IsUnknownHere(rest, Enter(o, first).value, Inside("", first));
        }
      } else {
        var second, last := rest.path[0], Location(rest.path[1..], loc.key);
        assert loc.path == [first, second] && last.path == [];
        AtSources(first, second);
        if Enter(o, first).Some? {
          var inner := Enter(o, first).value;
          ObjectBelow(inner, rest.path);
          IsUnknownBelow(rest, inner, Inside("", first));
          if Enter(inner, second).Some? {
            IsUnknownHere(last, Enter(inner, second).value, "gemara.sources[]");
          }
        }
      }
    }
  }

  lemma {:induction false} ObjectBelow(o: Value, path: seq<Step>)
    requires path != []
    ensures ObjectAt(o, path) == if Enter(o, path[0]).Some? then ObjectAt(Enter(o, path[0]).value, path[1..]) else None
  {
  }

  lemma {:induction false} FirstIsKnown(path: seq<Step>)
    requires path != [] && KeysAt(path).Some?
    ensures path[0].name in KnownKeys()[""]
    ensures |path| == 2 ==> "sources" in KnownKeys()["gemara"] && Inside("", path[0]) == "gemara"
  {
  }

  // ----- the warnings -----

  lemma {:induction false} KnownThere(path: seq<Step>)
    requires KeysAt(path).Some?
    ensures Known(KnownKeys(), ScopeAt("", path)) == KeysAt(path).value
  {
    hide KnownKeys, Inside;
    AtTop();
    if path != [] {
      FirstIsKnown(path);
      TopScope(path[0]);
      assert ScopeAt(Inside("", path[0]), []) == Inside("", path[0]);
      if |path| == 1 {
        assert path == [path[0]] && path[1..] == [];
      } else {
        var second := [path[1]];
        assert path == [path[0], path[1]] && path[1..] == second && second[1..] == [];
        AtSources(path[0], path[1]);
        assert ScopeAt("", path) == ScopeAt(Inside("", path[0]), second);
        assert ScopeAt(Inside("", path[0]), second) == ScopeAt(Inside(Inside("", path[0]), path[1]), []);
      }
    }
  }

  /** The warnings of a configuration: one for each key that one of the described objects has and does not
      know, and no other. It suggests exactly when some key known there lies within two edits. */
  lemma {:induction false} WarningsAre(warnings: seq<Warning>, m: map<string, Value>) returns (at: seq<Location>)
    requires Covers(warnings, Object(m), "", KnownKeys())
    ensures Distinct(at) && forall loc :: loc in at <==> UnknownIn(loc, Object(m))
    ensures |warnings| == |at|
    ensures forall i :: 0 <= i < |at| ==>
              && KeysAt(at[i].path).Some?
              && warnings[i].key == at[i].key && Suggests(warnings[i], KeysAt(at[i].path).value)
  {
    hide IsUnknown, UnknownIn, KnownKeys, KeysAt, RightWarning, ScopeAt, Suggests;
    var o := Object(m);
    at :| Explain(warnings, at, "", KnownKeys()) && Lists(at, Everywhere, o, "", KnownKeys());
    forall loc
      ensures loc in at <==> UnknownIn(loc, o)
    {
      UnknownIs(loc, o);
    }
    forall i | 0 <= i < |at|
      ensures KeysAt(at[i].path).Some?
      ensures warnings[i].key == at[i].key && Suggests(warnings[i], KeysAt(at[i].path).value)
    {
      assert at[i] in at;
      HasKeys(at[i], o);
      KnownThere(at[i].path);
      NoBlankKey(ScopeAt("", at[i].path));
      RightlySuggests(warnings[i], at[i].key, KeysAt(at[i].path).value);
    }
  }

  lemma {:induction false} HasKeys(loc: Location, o: Value)
    requires UnknownIn(loc, o)
    ensures KeysAt(loc.path).Some?
  {
  }

  lemma {:induction false} RightlySuggests(w: Warning, key: string, known: seq<string>)
    requires RightWarning(w, key, known) && "" !in known
    ensures w.key == key && Suggests(w, known)
  {
    hide Distance;
    SuggestionIffNear(w, key, known);
  }
}
