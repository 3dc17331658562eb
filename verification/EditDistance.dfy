/** The edit distance behind "did you mean": the two-row dynamic program, the recursive
    distance it computes, and the edit scripts that give the distance its meaning. */
module EditDistance {
  import opened Sequences

  function DropLast<T>(s: seq<T>): (r: seq<T>)
    requires s != []
    ensures |r| == |s| - 1
  {
    s[..|s| - 1]
  }

  function Last<T>(s: seq<T>): T
    requires s != []
  {
    s[|s| - 1]
  }

  function Cost<T(==)>(x: T, y: T): nat { if x == y then 0 else 1 }

  /** The recursive edit distance, peeling both words from the right. */
  function Distance<T(==)>(a: seq<T>, b: seq<T>): nat
    decreases |a| + |b|
  {
    if a == [] then |b|
    else if b == [] then |a|
    else Min(Distance(DropLast(a), b) + 1,
             Min(Distance(a, DropLast(b)) + 1,
                 Distance(DropLast(a), DropLast(b)) + Cost(Last(a), Last(b))))
  }

  /** One step of the recursion, for use where the definition itself is hidden. */
  lemma {:induction false} Peel<T>(a: seq<T>, b: seq<T>)
    requires a != [] && b != []
    ensures Distance(a, b) == Min(Distance(DropLast(a), b) + 1,
                                  Min(Distance(a, DropLast(b)) + 1,
                                      Distance(DropLast(a), DropLast(b)) + Cost(Last(a), Last(b))))
  {
    hide DropLast, Last;
  }

  // ----- edit scripts -----

  datatype Edit<T> =
    | Insert(at: nat, item: T)
    | Delete(at: nat)
    | Substitute(at: nat, item: T)

  predicate Applicable<T>(e: Edit<T>, s: seq<T>) {
    if e.Insert? then e.at <= |s| else e.at < |s|
  }

  function Apply<T>(e: Edit<T>, s: seq<T>): seq<T>
    requires Applicable(e, s)
  {
    match e
    case Insert(i, x) => s[..i] + [x] + s[i..]
    case Delete(i) => s[..i] + s[i + 1..]
    case Substitute(i, x) => s[..i] + [x] + s[i + 1..]
  }

  /** `script` turns `a` into `b`, one edit of the current word at a time. */
  ghost predicate Rewrites<T>(script: seq<Edit<T>>, a: seq<T>, b: seq<T>)
    decreases |script|
  {
    if script == [] then a == b
    else Applicable(script[0], a) && Rewrites(script[1..], Apply(script[0], a), b)
  }

  // ----- the metric laws -----

  lemma {:induction false} Symmetric<T>(a: seq<T>, b: seq<T>)
    ensures Distance(a, b) == Distance(b, a)
    decreases |a| + |b|
  {
    if a != [] && b != [] {
      Symmetric(DropLast(a), b);
      Symmetric(a, DropLast(b));
      Symmetric(DropLast(a), DropLast(b));
    }
  }

  /** Never less than the difference of the lengths, never more than the longer length. */
  lemma {:induction false} LengthBounds<T>(a: seq<T>, b: seq<T>)
    ensures Distance(a, b) >= |a| - |b|
    ensures Distance(a, b) >= |b| - |a|
    ensures Distance(a, b) <= |a| || Distance(a, b) <= |b|
    decreases |a| + |b|
  {
    if a != [] && b != [] {
      LengthBounds(DropLast(a), b);
      LengthBounds(a, DropLast(b));
      LengthBounds(DropLast(a), DropLast(b));
    }
  }

  lemma {:induction false} SelfDistance<T>(a: seq<T>)
    ensures Distance(a, a) == 0
    decreases |a|
  {
    if a != [] {
      SelfDistance(DropLast(a));
    }
  }

  lemma {:induction false} ZeroIffEqual<T>(a: seq<T>, b: seq<T>)
    ensures Distance(a, b) == 0 <==> a == b
    decreases |a| + |b|
  {
    if a == b {
      SelfDistance(a);
    } else if a != [] && b != [] {
      ZeroIffEqual(DropLast(a), DropLast(b));
      assert a == DropLast(a) + [Last(a)] && b == DropLast(b) + [Last(b)];
    }
  }

  lemma {:induction false} Triangle<T>(a: seq<T>, b: seq<T>, c: seq<T>)
    ensures Distance(a, c) <= Distance(a, b) + Distance(b, c)
    decreases |a| + |b| + |c|
  {
    if a == [] || b == [] || c == [] {
      LengthBounds(a, b);
      LengthBounds(b, c);
      LengthBounds(a, c);
    } else {
      Triangle(DropLast(a), b, c);
      Triangle(a, b, DropLast(c));
      Triangle(a, DropLast(b), c);
      Triangle(a, DropLast(b), DropLast(c));
      Triangle(DropLast(a), DropLast(b), c);
      Triangle(DropLast(a), DropLast(b), DropLast(c));
      TrianglePeeled(a, b, c);
    }
  }

  lemma {:induction false} TrianglePeeled<T>(a: seq<T>, b: seq<T>, c: seq<T>)
    requires a != [] && b != [] && c != []
    requires Distance(DropLast(a), c) <= Distance(DropLast(a), b) + Distance(b, c)
    requires Distance(a, DropLast(c)) <= Distance(a, b) + Distance(b, DropLast(c))
    requires Distance(a, c) <= Distance(a, DropLast(b)) + Distance(DropLast(b), c)
    requires Distance(a, DropLast(c)) <= Distance(a, DropLast(b)) + Distance(DropLast(b), DropLast(c))
    requires Distance(DropLast(a), c) <= Distance(DropLast(a), DropLast(b)) + Distance(DropLast(b), c)
    requires Distance(DropLast(a), DropLast(c)) <= Distance(DropLast(a), DropLast(b)) +
        Distance(DropLast(b), DropLast(c))
    ensures Distance(a, c) <= Distance(a, b) + Distance(b, c)
  {
    hide Distance, DropLast;
    Peel(a, b);
    Peel(b, c);
    Peel(a, c);
  }

  // ----- the distance is the length of a shortest script -----

  /** A shared suffix never makes two words further apart. */
  lemma {:induction false} CommonSuffix<T>(p: seq<T>, q: seq<T>, s: seq<T>)
    ensures Distance(p + s, q + s) <= Distance(p, q)
    decreases |s|
  {
    if s == [] {
      assert p + s == p && q + s == q;
    } else {
      hide Distance;
      Peel(p + s, q + s);
      CommonSuffix(p, q, DropLast(s));
      assert DropLast(p + s) == p + DropLast(s) && Last(p + s) == Last(s);
      assert DropLast(q + s) == q + DropLast(s) && Last(q + s) == Last(s);
    }
  }

  lemma {:induction false} LastItemIsNear<T>(p: seq<T>, x: T, y: T)
    ensures Distance(p, p + [x]) <= 1
    ensures Distance(p + [x], p) <= 1
    ensures Distance(p + [x], p + [y]) <= 1
  {
    SelfDistance(p);
    assert DropLast(p + [x]) == p == DropLast(p + [y]);
  }

  lemma {:induction false} OneEditIsNear<T>(e: Edit<T>, s: seq<T>)
    requires Applicable(e, s)
    ensures Distance(s, Apply(e, s)) <= 1
  {
    var p := s[..e.at];
    var before := if e.Insert? then p else p + [s[e.at]];
    var after := if e.Delete? then p else p + [e.item];
    var tail := if e.Insert? then s[e.at..] else s[e.at + 1..];
    assert s == before + tail;
    assert Apply(e, s) == after + tail;
    CommonSuffix(before, after, tail);
    var x := if e.Insert? then e.item else s[e.at];
    var y := if e.Delete? then x else e.item;
    LastItemIsNear(p, x, y);
  }

  /** No script from `a` to `b` is shorter than the distance. */
  lemma {:induction false} NoShorterScript<T>(script: seq<Edit<T>>, a: seq<T>, b: seq<T>)
    requires Rewrites(script, a, b)
    ensures Distance(a, b) <= |script|
    decreases |script|
  {
    if script == [] {
      SelfDistance(a);
    } else {
      var mid := Apply(script[0], a);
      NoShorterScript(script[1..], mid, b);
      OneEditIsNear(script[0], a);
      Triangle(a, mid, b);
    }
  }

  /** An optimal script, read off the recursion. */
  function Script<T(==)>(a: seq<T>, b: seq<T>): (script: seq<Edit<T>>)
    ensures |script| == Distance(a, b)
    decreases |a| + |b|
  {
    if a == [] && b == [] then []
    else if b == [] || (a != [] && Distance(a, b) == Distance(DropLast(a), b) + 1) then
      [Delete(|a| - 1)] + Script(DropLast(a), b)
    else if a == [] || Distance(a, b) == Distance(a, DropLast(b)) + 1 then
      Script(a, DropLast(b)) + [Insert(|b| - 1, Last(b))]
    else if Last(a) == Last(b) then Script(DropLast(a), DropLast(b))
    else Script(DropLast(a), DropLast(b)) + [Substitute(|b| - 1, Last(b))]
  }

  lemma {:induction false} ApplyBefore<T>(e: Edit<T>, s: seq<T>, tail: seq<T>)
    requires Applicable(e, s)
    ensures Apply(e, s + tail) == Apply(e, s) + tail
  {
    var all := s + tail;
    assert all[..e.at] == s[..e.at];
    if e.Insert? {
      assert all[e.at..] == s[e.at..] + tail;
    } else {
      assert all[e.at + 1..] == s[e.at + 1..] + tail;
    }
  }

  /** Edits of a word leave anything that follows the word alone. */
  lemma {:induction false} RewritesBefore<T>(script: seq<Edit<T>>, a: seq<T>, b: seq<T>, tail: seq<T>)
    requires Rewrites(script, a, b)
    ensures Rewrites(script, a + tail, b + tail)
    decreases |script|
  {
    if script != [] {
      var e := script[0];
      RewritesBefore(script[1..], Apply(e, a), b, tail);
      ApplyBefore(e, a, tail);
    }
  }

  lemma {:induction false} RewritesThen<T>(script: seq<Edit<T>>, a: seq<T>, b: seq<T>, e: Edit<T>)
    requires Rewrites(script, a, b) && Applicable(e, b)
    ensures Rewrites(script + [e], a, Apply(e, b))
    decreases |script|
  {
    if script == [] {
      assert script + [e] == [e];
      assert Rewrites([], Apply(e, b), Apply(e, b));
    } else {
      RewritesThen(script[1..], Apply(script[0], a), b, e);
      assert (script + [e])[1..] == script[1..] + [e];
    }
  }

  lemma {:induction false} ScriptRewrites<T>(a: seq<T>, b: seq<T>)
    ensures Rewrites(Script(a, b), a, b)
    decreases |a| + |b|
  {
    hide Distance, Rewrites;
    if a == [] && b == [] {
      RewritesNothing(a);
    } else if b == [] || (a != [] && Distance(a, b) == Distance(DropLast(a), b) + 1) {
      ScriptRewrites(DropLast(a), b);
      RewritesDelete(a, b, Script(DropLast(a), b));
    } else {
      var shorter, s := DropLast(b), Script(a, b);
      assert b == shorter + [Last(b)];
      if a == [] || Distance(a, b) == Distance(a, shorter) + 1 {
        ScriptRewrites(a, shorter);
        RewritesThen(Script(a, shorter), a, shorter, Insert(|shorter|, Last(b)));
        assert Apply(Insert(|shorter|, Last(b)), shorter) == b;
      } else {
        ScriptRewrites(DropLast(a), shorter);
        RewritesBefore(Script(DropLast(a), shorter), DropLast(a), shorter, [Last(a)]);
        assert a == DropLast(a) + [Last(a)];
        if Last(a) != Last(b) {
          RewritesThen(Script(DropLast(a), shorter), a, shorter + [Last(a)], Substitute(|shorter|, Last(b)));
          assert Apply(Substitute(|shorter|, Last(b)), shorter + [Last(a)]) == b;
        }
      }
    }
  }

  lemma {:induction false} RewritesNothing<T>(a: seq<T>)
    ensures Rewrites([], a, a)
  {
  }

  lemma {:induction false} RewritesDelete<T>(a: seq<T>, b: seq<T>, script: seq<Edit<T>>)
    requires a != [] && Rewrites(script, DropLast(a), b)
    ensures Rewrites([Delete(|a| - 1)] + script, a, b)
  {
    var all := [Delete(|a| - 1)] + script;
    assert Apply(all[0], a) == DropLast(a);
    assert all[1..] == script;
  }

  /** The distance is the least number of single edits: some script attains it, none beats it. */
  lemma {:induction false} DistanceIsShortestScript<T(!new)>(a: seq<T>, b: seq<T>)
    ensures exists script :: Rewrites(script, a, b) && |script| == Distance(a, b)
    ensures forall script :: Rewrites(script, a, b) ==> Distance(a, b) <= |script|
  {
    ScriptRewrites(a, b);
    forall script | Rewrites(script, a, b)
      ensures Distance(a, b) <= |script|
    {
      NoShorterScript(script, a, b);
    }
  }

  // ----- the two-row program -----

  lemma {:induction false} DistanceStep<T>(a: seq<T>, b: seq<T>, i: nat, j: nat)
    requires 1 <= i <= |a| && 1 <= j <= |b|
    ensures Distance(a[..i], b[..j]) ==
            Min(Distance(a[..i - 1], b[..j]) + 1,
                Min(Distance(a[..i], b[..j - 1]) + 1, Distance(a[..i - 1], b[..j - 1]) + Cost(a[i - 1], b[j - 1])))
  {
    hide Distance;
    Peel(a[..i], b[..j]);
    assert DropLast(a[..i]) == a[..i - 1] && DropLast(b[..j]) == b[..j - 1];
  }

  lemma {:induction false} DistanceToEmpty<T>(a: seq<T>, b: seq<T>)
    ensures a == [] ==> Distance(a, b) == |b|
    ensures b == [] ==> Distance(a, b) == |a|
  {
  }

  method Levenshtein<T(==)>(a: seq<T>, b: seq<T>) returns (d: nat)
    ensures d == Distance(a, b)
  {
    hide Distance;
    var la, lb := |a|, |b|;
    DistanceToEmpty(a, b);
    if la == 0 { return lb; }
    if lb == 0 { return la; }

    var prev, curr := new nat[lb + 1], new nat[lb + 1];
    for j := 0 to lb + 1
      invariant forall k :: 0 <= k < j ==> prev[k] == Distance(a[..0], b[..k])
    {
      prev[j] := j;
      DistanceToEmpty(a[..0], b[..j]);
    }

    for i := 1 to la + 1
      invariant prev != curr && prev.Length == curr.Length == lb + 1
      invariant fresh(prev) && fresh(curr)
      invariant forall k :: 0 <= k <= lb ==> prev[k] == Distance(a[..i - 1], b[..k])
    {
      curr[0] := i;
      DistanceToEmpty(a[..i], b[..0]);
      for j := 1 to lb + 1
        invariant prev != curr && prev.Length == curr.Length == lb + 1
        invariant forall k :: 0 <= k <= lb ==> prev[k] == Distance(a[..i - 1], b[..k])
        invariant forall k :: 0 <= k < j ==> curr[k] == Distance(a[..i], b[..k])
      {
        DistanceStep(a, b, i, j);
        var cost := if a[i - 1] == b[j - 1] then 0 else 1;
        var del := prev[j] + 1;
        var ins := curr[j - 1] + 1;
        var sub := prev[j - 1] + cost;
        curr[j] := Min(del, Min(ins, sub));
      }
      prev, curr := curr, prev;
    }
    assert a[..la] == a && b[..lb] == b;
    return prev[lb];
  }

  // ----- the suggestion -----

  datatype Warning =
    | Unknown(key: string)
    | DidYouMean(key: string, suggestion: string)

  /** `i` is the first of the known keys at the least distance from `key`. */
  predicate FirstNearest(key: string, known: seq<string>, i: nat) {
    && i < |known|
    && (forall k :: 0 <= k < |known| ==> Distance(key, known[i]) <= Distance(key, known[k]))
    && (forall k :: 0 <= k < i ==> Distance(key, known[i]) < Distance(key, known[k]))
  }

  /** The first nearest known key is suggested when it is within two edits. The empty known key is the
      one name the running `best` cannot tell from "none found". */
  ghost predicate RightWarning(w: Warning, key: string, known: seq<string>) {
    && w.key == key
    && (known == [] ==> w == Unknown(key))
    && forall i: nat :: FirstNearest(key, known, i) ==>
         w == if Distance(key, known[i]) <= 2 && known[i] != "" then DidYouMean(key, known[i]) else Unknown(key)
  }

  method FormatUnknownWarning(key: string, known: seq<string>) returns (w: Warning)
    ensures RightWarning(w, key, known)
  {
    var best, bestDist := "", 3;
    ghost var at := -1;
    for i := 0 to |known|
      invariant at < 0 ==> best == "" && bestDist == 3 && forall k :: 0 <= k < i ==> Distance(key, known[k]) >= 3
      invariant 0 <= at ==> at < i && best == known[at] && bestDist == Distance(key, best) <= 2
      invariant 0 <= at ==> forall k :: 0 <= k < i ==> bestDist <= Distance(key, known[k])
      invariant 0 <= at ==> forall k :: 0 <= k < at ==> bestDist < Distance(key, known[k])
    {
      var d := Levenshtein(key, known[i]);
      if d < bestDist {
        bestDist, best, at := d, known[i], i;
      }
    }
    w := if best != "" then DidYouMean(key, best) else Unknown(key);
    forall i: nat | FirstNearest(key, known, i)
      ensures w == if Distance(key, known[i]) <= 2 && known[i] != "" then DidYouMean(key, known[i]) else Unknown(key)
    {
      if 0 <= at {
        assert Distance(key, known[at]) == Distance(key, known[i]);
        assert i == at;
      }
    }
  }

  /** Every non-empty list of known keys has exactly one first-nearest entry. */
  lemma {:induction false} FirstNearestExists(key: string, known: seq<string>) returns (i: nat)
    requires known != []
    ensures FirstNearest(key, known, i)
    ensures forall j: nat :: FirstNearest(key, known, j) ==> j == i
    decreases |known|
  {
    if |known| == 1 {
      i := 0;
    } else {
      var k := FirstNearestExists(key, DropLast(known));
      i := if Distance(key, Last(known)) < Distance(key, known[k]) then |known| - 1 else k;
      assert forall j :: 0 <= j < |known| - 1 ==> known[j] == DropLast(known)[j];
    }
    forall j: nat | FirstNearest(key, known, j)
      ensures j == i
    {
      assert Distance(key, known[i]) == Distance(key, known[j]);
    }
  }

  lemma {:induction false} RightWarningIsUnique(w: Warning, v: Warning, key: string, known: seq<string>)
    requires RightWarning(w, key, known) && RightWarning(v, key, known)
    ensures w == v
  {
    if known != [] {
      var i := FirstNearestExists(key, known);
    }
  }

  /** A blank known key can be in reach without being suggested. */
  lemma {:induction false} BlankIsNotSuggested(w: Warning)
    requires RightWarning(w, "a", [""])
    ensures Distance("a", "") == 1 && w == Unknown("a")
  {
    DistanceToEmpty("a", "");
    assert FirstNearest("a", [""], 0);
  }

  /** The nearest known key decides: it is in reach when any is, then near in length, and the key
      itself when that is known. */
  lemma {:induction false} NearestDecides(key: string, known: seq<string>, i: nat)
    requires FirstNearest(key, known, i)
    ensures Distance(key, known[i]) <= 2 <==> exists k :: 0 <= k < |known| && Distance(key, known[k]) <= 2
    ensures Distance(key, known[i]) <= 2 ==> -2 <= |key| - |known[i]| <= 2
    ensures key in known ==> known[i] == key
  {
    LengthBounds(key, known[i]);
    if key in known {
      var k :| 0 <= k < |known| && known[k] == key;
      ZeroIffEqual(key, known[k]);
      ZeroIffEqual(key, known[i]);
    }
  }

  /** What is suggested, said without `FirstNearest`: every key before the suggested one is strictly farther
      away, and no key after it is nearer. */
  lemma {:induction false} SuggestionBeatsOthers(w: Warning, key: string, known: seq<string>)
    requires RightWarning(w, key, known) && w.DidYouMean?
    ensures exists i: nat | i < |known| ::
        && known[i] == w.suggestion
        && (forall k | 0 <= k < i :: Distance(key, w.suggestion) < Distance(key, known[k]))
        && (forall k | i <= k < |known| :: Distance(key, w.suggestion) <= Distance(key, known[k]))
  {
    hide Distance;
    var i := FirstNearestExists(key, known);
    assert known[i] == w.suggestion;
  }

  /** With no blank known key, a suggestion is made exactly when some known key lies within two edits;
      it is a known key, near, and at most two characters longer or shorter. */
  lemma {:induction false} SuggestionIffNear(w: Warning, key: string, known: seq<string>)
    requires RightWarning(w, key, known) && "" !in known
    ensures w.DidYouMean? <==> exists k :: 0 <= k < |known| && Distance(key, known[k]) <= 2
    ensures w.DidYouMean? ==>
        w.suggestion in known && Distance(key, w.suggestion) <= 2 && -2 <= |key| - |w.suggestion| <= 2
    ensures w.DidYouMean? && key in known ==> w.suggestion == key
    ensures w.DidYouMean? ==> exists i: nat :: FirstNearest(key, known, i) && known[i] == w.suggestion
  {
    hide Distance;
    if known != [] {
      var i := FirstNearestExists(key, known);
      NearestDecides(key, known, i);
    }
  }
}
