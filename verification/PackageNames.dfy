/** Which package paths name which requirements, over plain strings. */
module PackageNames {
  import opened Attribution
  import opened Filters
  import opened Sequences

  // ----- strings joined from pieces -----

  /** Each piece behind a separator. */
  function Tail(separator: char, pieces: seq<string>): string {
    Flatten(Images(pieces, (p: string) => [separator] + p))
  }

  lemma {:induction false} TailCons(separator: char, piece: string, pieces: seq<string>)
    ensures Tail(separator, [piece] + pieces) == [separator] + piece + Tail(separator, pieces)
    ensures Tail(separator, []) == ""
  {
    JoinCons(piece, pieces, (p: string) => [separator] + p);
  }

  lemma {:induction false} TailSnoc(separator: char, pieces: seq<string>, piece: string)
    ensures Tail(separator, pieces + [piece]) == Tail(separator, pieces) + ([separator] + piece)
  {
    JoinSnoc(pieces, piece, (p: string) => [separator] + p);
  }

  lemma {:induction false} SplitWord(word: string, separator: char)
    requires separator !in word
    ensures Split(word, separator) == [word]
  {
    if word != "" {
      assert word[0] in word && forall c <- word[1..] :: c in word;
      SplitWord(word[1..], separator);
      assert [word[0]] + word[1..] == word && [word[1..]][1..] == [];
    }
  }

  lemma {:induction false} SplitFront(word: string, separator: char, rest: string)
    requires separator !in word
    ensures Split(word + [separator] + rest, separator) == [word] + Split(rest, separator)
  {
    var s := word + [separator] + rest;
    FirstPiece(s, separator);
    var first := Split(s, separator)[0];
    assert s[|word|] == separator;
    assert forall i :: 0 <= i < |first| ==> first[i] == s[i] && first[i] in first;
    assert forall i :: 0 <= i < |word| ==> s[i] == word[i] && word[i] in word;
    assert |first| == |word|;
    assert first == word && s[|first| + 1..] == rest;
    assert Split(s, separator) == [first] + Split(s, separator)[1..];
  }

  lemma {:induction false} Reassociate(a: string, b: string, c: string, d: string)
    ensures a + (b + c + d) == a + b + (c + d) && b + c + d == b + (c + d)
  {
  }

  /** Splitting undoes joining pieces that hold no separator. */
  lemma {:induction false} SplitJoined(separator: char, first: string, pieces: seq<string>)
    requires separator !in first && forall p <- pieces :: separator !in p
    ensures Split(first + Tail(separator, pieces), separator) == [first] + pieces
    decreases |pieces|
  {
    hide Tail, Split;
    if pieces == [] {
      TailCons(separator, "", []);
      SplitWord(first, separator);
      assert first + "" == first;
    } else {
      var next, rest := pieces[0], pieces[1..];
      assert next in pieces && forall p <- rest :: p in pieces;
      TailCons(separator, next, rest);
      assert pieces == [next] + rest;
      SplitJoined(separator, next, rest);
      SplitFront(first, separator, next + Tail(separator, rest));
      Reassociate(first, [separator], next, Tail(separator, rest));
    }
  }

  /** And joining undoes splitting. */
  lemma {:induction false} JoinedSplit(s: string, separator: char)
    ensures var parts := Split(s, separator); s == parts[0] + Tail(separator, parts[1..])
    decreases |s|
  {
    hide Tail, Split;
    FirstPiece(s, separator);
    var parts := Split(s, separator);
    var first := parts[0];
    TailCons(separator, "", []);
    if |first| < |s| {
      var rest := s[|first| + 1..];
      JoinedSplit(rest, separator);
      var more := Split(rest, separator);
      TailCons(separator, more[0], more[1..]);
      assert parts[1..] == [more[0]] + more[1..];
      assert s == first + ([separator] + rest);
      Reassociate("", [separator], more[0], Tail(separator, more[1..]));
    } else {
      assert parts[1..] == [] && s == first + "";
    }
  }

  /** What stands behind the last separator is the last piece. */
  lemma {:induction false} LastPieceIs(front: string, segment: string, separator: char)
    requires separator !in segment && (front == "" || front[|front| - 1] == separator)
    ensures var parts := Split(front + segment, separator); parts[|parts| - 1] == segment
    decreases |front|
  {
    if front == "" {
      assert front + segment == segment;
      SplitWord(segment, separator);
    } else {
      FirstPiece(front + segment, separator);
      var s := front + segment;
      var first := Split(s, separator)[0];
      assert s[|front| - 1] == separator;
      assert forall i :: 0 <= i < |first| ==> first[i] == s[i] && first[i] in first;
      assert |first| < |front|;
      var rest := front[|first| + 1..];
      assert s[|first| + 1..] == rest + segment;
      LastPieceIs(rest, segment, separator);
      var parts, more := Split(s, separator), Split(rest + segment, separator);
      assert parts == [first] + more;
    }
  }

  lemma {:induction false} ReplaceJoined(first: string, pieces: seq<string>)
    requires '_' !in first && forall p <- pieces :: '_' !in p
    ensures Replace(first + Tail('_', pieces), '_', '.') == first + Tail('.', pieces)
    decreases |pieces|
  {
    hide Tail, Replace;
    if pieces == [] {
      TailCons('_', "", []);
      TailCons('.', "", []);
      assert first + "" == first && Replace(first, '_', '.') == first;
    } else {
      var next, rest := pieces[0], pieces[1..];
      assert next in pieces && forall p <- rest :: p in pieces;
      assert pieces == [next] + rest;
      TailCons('_', next, rest);
      TailCons('.', next, rest);
      ReplaceJoined(next, rest);
      ReplaceParts(first, next + Tail('_', rest));
      Reassociate(first, "_", next, Tail('_', rest));
      Reassociate(first, ".", next, Tail('.', rest));
    }
  }

  lemma {:induction false} ReplaceParts(first: string, rest: string)
    requires '_' !in first
    ensures Replace(first + "_" + rest, '_', '.') == first + "." + Replace(rest, '_', '.')
  {
    var s := first + "_" + rest;
    assert forall i :: 0 <= i < |s| ==>
             s[i] == if i < |first| then first[i] else if i == |first| then '_' else rest[i - |first| - 1];
  }

  // ----- names -----

  /** Lower-case letters, at least one. */
  predicate IsFamily(s: string) { s != "" && forall c <- s :: 'a' <= c <= 'z' }

  predicate IsMajor(s: string) { s != "" && forall c <- s :: '0' <= c <= '9' }

  predicate IsMinor(s: string) { s != "" && forall c <- s :: '0' <= c <= '9' || 'a' <= c <= 'z' }

  predicate AreMinors(minors: seq<string>) { forall p <- minors :: IsMinor(p) }

  /** A front is empty or the path of the enclosing packages with its final dot. */
  predicate IsFront(front: string) { front == "" || front[|front| - 1] == '.' }

  lemma {:induction false} ConventionOf(family: string, major: string, minors: seq<string>)
    requires IsFamily(family) && IsMajor(major) && AreMinors(minors)
    ensures var segment := family + Tail('_', [major] + minors);
            && Split(segment, '_') == [family, major] + minors
            && FollowsConvention(segment) && '.' !in segment
  {
    var pieces := [major] + minors;
    assert forall p <- pieces :: IsMajor(p) || IsMinor(p);
    SplitJoined('_', family, pieces);
    var segment := family + Tail('_', pieces);
    var parts := Split(segment, '_');
    assert parts == [family] + pieces;
    forall i | 2 <= i < |parts|
      ensures parts[i] != [] && forall c <- parts[i] :: IsDigit(c) || IsLower(c)
    {
      assert parts[i] == minors[i - 2] && minors[i - 2] in minors;
    }
    forall i | 0 <= i < |segment|
      ensures segment[i] != '.'
    {
      ConventionAlphabet(segment, i);
    }
  }

  /** The id of a composed name. */
  lemma {:induction false} IdOfSegment(packagePath: string, family: string, major: string, minors: seq<string>)
    requires IsFamily(family) && IsMajor(major) && AreMinors(minors)
    requires Segment(packagePath) == family + Tail('_', [major] + minors)
    ensures NormalizePackageToRequirement(packagePath) == family + "-" + major + Tail('.', minors)
  {
    hide FollowsConvention, Segment, Tail;
    var segment := Segment(packagePath);
    ConventionOf(family, major, minors);
    TailCons('_', major, minors);
    assert segment[|family| + 1..] == major + Tail('_', minors);
    NoUnderscores(major, minors);
    ReplaceJoined(major, minors);
    assert Split(segment, '_')[0] == family;
  }

  lemma {:induction false} NoUnderscores(major: string, minors: seq<string>)
    requires IsMajor(major) && AreMinors(minors)
    ensures '_' !in major && forall p <- minors :: '_' !in p
  {
  }

  /** A package whose last segment is a family, a number and further pieces, with `_test` behind, has the id
      written with a hyphen and dots. */
  lemma {:induction false} TestPackageId(front: string, family: string, major: string, minors: seq<string>)
    requires IsFront(front) && IsFamily(family) && IsMajor(major) && AreMinors(minors)
    ensures NormalizePackageToRequirement(front + (family + Tail('_', [major] + minors) + "_test")) ==
              family + "-" + major + Tail('.', minors)
  {
    hide FollowsConvention, Tail, Split;
    var segment := family + Tail('_', [major] + minors);
    ConventionOf(family, major, minors);
    var tested := segment + "_test";
    assert '.' !in tested;
    LastPieceIs(front, tested, '.');
    assert tested[|tested| - 5..] == "_test" && tested[..|tested| - 5] == segment;
    assert Segment(front + tested) == segment;
    IdOfSegment(front + tested, family, major, minors);
  }

  /** Without `_test` the id is the same, unless the last piece is `test` itself: that piece is taken for it. */
  lemma {:induction false} PlainPackageId(front: string, family: string, major: string, minors: seq<string>)
    requires IsFront(front) && IsFamily(family) && IsMajor(major) && AreMinors(minors)
    ensures NormalizePackageToRequirement(front + (family + Tail('_', [major] + minors))) ==
              if minors != [] && minors[|minors| - 1] == "test"
              then family + "-" + major + Tail('.', minors[..|minors| - 1])
              else family + "-" + major + Tail('.', minors)
  {
    hide FollowsConvention, Tail, Split;
    var segment := family + Tail('_', [major] + minors);
    if minors != [] && minors[|minors| - 1] == "test" {
      var fewer := minors[..|minors| - 1];
      assert minors == fewer + ["test"] && [major] + minors == ([major] + fewer) + ["test"];
      TailSnoc('_', [major] + fewer, "test");
      assert segment == family + Tail('_', [major] + fewer) + "_test";
      assert forall p <- fewer :: p in minors;
      TestPackageId(front, family, major, fewer);
    } else {
      ConventionOf(family, major, minors);
      LastPieceIs(front, segment, '.');
      NotTested(family, major, minors);
      IdOfSegment(front + segment, family, major, minors);
    }
  }

  /** A name ends in `_test` only if its last piece is `test`. */
  lemma {:induction false} NotTested(family: string, major: string, minors: seq<string>)
    requires IsFamily(family) && IsMajor(major) && AreMinors(minors)
    requires minors == [] || minors[|minors| - 1] != "test"
    ensures TrimSuffix(family + Tail('_', [major] + minors), "_test") == family + Tail('_', [major] + minors)
  {
    hide Tail;
    var pieces := [major] + minors;
    var segment, n := family + Tail('_', pieces), |pieces| - 1;
    var last := pieces[n];
    assert pieces == pieces[..n] + [last];
    TailSnoc('_', pieces[..n], last);
    var head := family + Tail('_', pieces[..n]);
    assert segment == head + ("_" + last);
    LastIsNotTest(major, minors);
    EndsInTest(head, last);
  }

  lemma {:induction false} LastIsNotTest(major: string, minors: seq<string>)
    requires IsMajor(major) && AreMinors(minors) && (minors == [] || minors[|minors| - 1] != "test")
    ensures var last := ([major] + minors)[|minors|]; last != "test" && '_' !in last
  {
    assert "test"[0] == 't';
    if minors == [] {
      assert major[0] in major;
    } else {
      assert minors[|minors| - 1] in minors;
    }
  }

  lemma {:induction false} EndsInTest(head: string, last: string)
    requires '_' !in last
    ensures TrimSuffix(head + ("_" + last), "_test") == head + ("_" + last) || last == "test"
  {
    var s := head + ("_" + last);
    if |s| >= 5 && s[|s| - 5..] == "_test" {
      var end := s[|s| - 5..];
      assert end[0] == '_' && end[1..] == "test" && '_' !in end[1..];
      assert forall i :: 0 < i < 5 ==> end[i] == end[1..][i - 1] && end[i] != '_';
      assert forall i :: 0 <= i < |last| ==> last[i] == s[|head| + 1 + i] && last[i] in last;
      assert s[|head|] == '_' && s[|s| - 5] == '_';
      assert |s| - 5 == |head|;
      assert last == end[1..];
    }
  }

  /** No other package has an id. */
  lemma {:induction false} OnlySuchPackages(packagePath: string)
    returns (front: string, family: string, major: string, minors: seq<string>, suffix: string)
    requires NormalizePackageToRequirement(packagePath) != ""
    ensures IsFront(front) && IsFamily(family) && IsMajor(major) && AreMinors(minors) && suffix in {"", "_test"}
    ensures packagePath == front + (family + Tail('_', [major] + minors) + suffix)
  {
    hide Tail, Split;
    var segment := Segment(packagePath);
    suffix := Suffixed(packagePath);
    var pieces := Split(segment, '_');
    JoinedSplit(segment, '_');
    family, major, minors := pieces[0], pieces[1], pieces[2..];
    assert pieces[1..] == [major] + minors;
    forall p | p in minors
      ensures IsMinor(p)
    {
      var i :| 0 <= i < |minors| && minors[i] == p;
      assert pieces[i + 2] == p;
    }
    front := FrontOf(packagePath);
  }

  lemma {:induction false} Suffixed(packagePath: string) returns (suffix: string)
    ensures suffix in {"", "_test"}
    ensures var parts := Split(packagePath, '.'); parts[|parts| - 1] == Segment(packagePath) + suffix
  {
    hide Split;
    var parts := Split(packagePath, '.');
    var last, segment := parts[|parts| - 1], Segment(packagePath);
    suffix := if segment == last then "" else "_test";
    assert last == segment + suffix;
  }

  lemma {:induction false} FrontOf(s: string) returns (front: string)
    ensures IsFront(front)
    ensures var parts := Split(s, '.'); s == front + parts[|parts| - 1]
  {
    hide Tail;
    var parts := Split(s, '.');
    JoinedSplit(s, '.');
    var n := |parts| - 1;
    if n == 0 {
      front := "";
      TailCons('.', "", []);
      assert parts[1..] == [] && s == parts[0] + "";
    } else {
      assert parts[1..] == parts[1..n] + [parts[n]];
      TailSnoc('.', parts[1..n], parts[n]);
      front := parts[0] + Tail('.', parts[1..n]) + ".";
    }
  }
}
